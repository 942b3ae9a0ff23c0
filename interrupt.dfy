// kernel/src/interrupt.rs: the 256-entry interrupt descriptor table and the
// gate descriptors of section 6.14.1 of the Intel SDM, volume 3A. Only the
// table contents are modelled; `lidt`, reading CS and the end-of-interrupt
// write are machine instructions.

module Interrupt {

  const IDT_LEN: nat := 256

  /** `InterruptVector::XHCI`. */
  const XHCI_VECTOR: nat := 0x40

  datatype DescriptorType =
    | Upper8Bytes
    | Ldt
    | TssAvailable
    | TssBusy
    | CallGate
    | InterruptGate
    | TrapGate

  /** The declared discriminants; each fits the 4-bit type field. */
  function TypeCode(t: DescriptorType): (c: bv16)
    ensures c < 16
  {
    match t
    case Upper8Bytes => 0
    case Ldt => 2
    case TssAvailable => 9
    case TssBusy => 11
    case CallGate => 12
    case InterruptGate => 14
    case TrapGate => 15
  }

  /** Distinct types have distinct codes, so the type is read back from the field. */
  lemma TypeCodeInjective(s: DescriptorType, t: DescriptorType)
    ensures TypeCode(s) == TypeCode(t) ==> s == t
  {
  }

  /** `InterruptDescriptorAttr::new`: each field widened to u16. */
  datatype Attr = Attr(ist: bv8, ty: DescriptorType, dpl: bv8, present: bool)

  /** An IDT entry, field for field. */
  datatype Descriptor = Descriptor(
    offsetLow: bv16,
    segmentSelector: bv16,
    attr: bv16,
    offsetMiddle: bv16,
    offsetHigh: bv32,
    revdz: bv32)

  const EMPTY: Descriptor := Descriptor(0, 0, 0, 0, 0, 0)

  /** The packed attribute word `ist | ty << 8 | dpl << 13 | p << 15` of `set_attr`. */
  function AttrWord(a: Attr): bv16
  {
    (a.ist as bv16) | (TypeCode(a.ty) << 8) | ((a.dpl as bv16) << 13) | ((if a.present then 1 else 0) << 15)
  }

  /**
   * For a privilege level below 4 and a stack index that fits its byte,
   * the packed word gives every field back: the stack index in bits 0..7,
   * the type in bits 8..11, bit 12 clear, the privilege level in bits
   * 13..14 and the present flag in bit 15.
   */
  lemma AttrWordFields(a: Attr)
    requires a.dpl < 4
    ensures AttrWord(a) & 0xff == a.ist as bv16
    ensures (AttrWord(a) >> 8) & 0xf == TypeCode(a.ty)
    ensures (AttrWord(a) >> 12) & 1 == 0
    ensures (AttrWord(a) >> 13) & 3 == a.dpl as bv16
    ensures (AttrWord(a) >> 15 == 1) <==> a.present
  {
    var t := TypeCode(a.ty);
    var i := a.ist as bv16;
    var d := a.dpl as bv16;
    var p: bv16 := if a.present then 1 else 0;
    assert t < 16 && i < 256 && d < 4 && p < 2;
    SplitAttr(i, t, d, p);
  }

  lemma SplitAttr(i: bv16, t: bv16, d: bv16, p: bv16)
    requires i < 256 && t < 16 && d < 4 && p < 2
    ensures var w := i | (t << 8) | (d << 13) | (p << 15);
      && w & 0xff == i && (w >> 8) & 0xf == t && (w >> 12) & 1 == 0
      && (w >> 13) & 3 == d && w >> 15 == p
  {
  }

  function OffsetLow(offset: bv64): bv16 { (offset & 0xffff) as bv16 }
  function OffsetMiddle(offset: bv64): bv16 { ((offset >> 16) & 0xffff) as bv16 }
  function OffsetHigh(offset: bv64): bv32 { (offset >> 32) as bv32 }

  /** The handler address the CPU reassembles from the three offset fields. */
  function HandlerOffset(d: Descriptor): bv64
  {
    (d.offsetLow as bv64) | ((d.offsetMiddle as bv64) << 16) | ((d.offsetHigh as bv64) << 32)
  }

  /** The entry `set_idt_entry` builds out of the old one. */
  function Gate(old_: Descriptor, attr: Attr, offset: bv64, selector: bv16): Descriptor
  {
    old_.(attr := AttrWord(attr),
          offsetLow := OffsetLow(offset),
          offsetMiddle := OffsetMiddle(offset),
          offsetHigh := OffsetHigh(offset),
          segmentSelector := selector)
  }

  /**
   * The three offset fields put back together give the handler address,
   * the selector is stored as given and the reserved word is kept.
   */
  lemma GateRoundTrip(old_: Descriptor, attr: Attr, offset: bv64, selector: bv16)
    ensures var g := Gate(old_, attr, offset, selector);
      && HandlerOffset(g) == offset
      && g.segmentSelector == selector
      && g.revdz == old_.revdz
      && g.attr == AttrWord(attr)
  {
    OffsetJoin(offset);
  }

  lemma OffsetJoin(offset: bv64)
    ensures (OffsetLow(offset) as bv64) | ((OffsetMiddle(offset) as bv64) << 16) | ((OffsetHigh(offset) as bv64) << 32) == offset
  {
  }

  /**
   * `set_idt_entry` on the table: entry `idx` gets the attribute word,
   * the split offset and the selector; every other entry, and the
   * reserved word of this one, stay as they were.
   */
  method SetIdtEntry(idt: array<Descriptor>, idx: nat, attr: Attr, offset: bv64, selector: bv16)
    requires idt.Length == IDT_LEN && idx < idt.Length
    modifies idt
    ensures idt[..] == old(idt[..])[idx := Gate(old(idt[idx]), attr, offset, selector)]
    ensures HandlerOffset(idt[idx]) == offset && idt[idx].revdz == old(idt[idx].revdz)
  {
    var e := idt[idx];
    e := e.(attr := AttrWord(attr));
    e := e.(offsetLow := OffsetLow(offset));
    e := e.(offsetMiddle := OffsetMiddle(offset));
    e := e.(offsetHigh := OffsetHigh(offset));
    e := e.(segmentSelector := selector);
    idt[idx] := e;
    GateRoundTrip(old(idt[idx]), attr, offset, selector);
  }

  /** `size_of::<InterruptDescriptor>()`: 2 + 2 + 2 + 2 + 4 + 4 bytes, `repr(C)` without padding. */
  const DESCRIPTOR_SIZE: nat := 16

  /**
   * The `lidt` limit: the table's byte size minus one, so that the last
   * byte of entry 255 is the last byte covered; it fits the 16-bit field.
   */
  function IdtLimit(): (limit: nat)
    ensures limit + 1 == IDT_LEN * DESCRIPTOR_SIZE
    ensures limit < 0x1_0000
  {
    IDT_LEN * DESCRIPTOR_SIZE - 1
  }
}
