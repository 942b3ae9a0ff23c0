// kernel/src/segment.rs: the three-entry global descriptor table and the
// segment descriptors of section 3.4.5 of the Intel SDM, volume 3A. Only the
// table contents are modelled; `lgdt` and the segment-register loads are
// machine instructions.

module Segment {

  const GDT_LEN: nat := 3

  /** `size_of::<SegmentDescriptor>()`. */
  const DESCRIPTOR_SIZE: nat := 8

  datatype DescriptorType = ReadWrite | ExecuteRead

  function TypeCode(t: DescriptorType): (c: bv64)
    ensures c < 16
  {
    match t
    case ReadWrite => 2
    case ExecuteRead => 10
  }

  /**
   * The word `set_code_segment` builds: zero, then base bits 0..15 at 16,
   * base bits 16..23 at 32, base bits 24..31 at 56, limit bits 0..15 at 0,
   * limit bits 16..19 at 48, the type at 40, S at 44, the privilege level
   * at 45, P at 47, L at 53 and G at 55.
   */
  function CodeDescriptor(ty: DescriptorType, dpl: bv64, base: bv64, limit: bv64): bv64
  {
    0
    | ((base & 0xffff) << 16)
    | (((base >> 16) & 0xff) << 32)
    | (((base >> 24) & 0xff) << 56)
    | ((limit & 0xffff) << 0)
    | (((limit >> 16) & 0xf) << 48)
    | (TypeCode(ty) << 40)
    | (1 << 44)
    | (dpl << 45)
    | (1 << 47)
    | (1 << 53)
    | (1 << 55)
  }

  /** Bit `i` of a descriptor. */
  function Bit(d: bv64, i: bv64): bv64
    requires i < 64
  {
    (d >> i) & 1
  }

  /** The segment base as the CPU reassembles it from its three pieces. */
  function Base(d: bv64): bv64
  {
    ((d >> 16) & 0xffff) | (((d >> 32) & 0xff) << 16) | ((d >> 56) << 24)
  }

  /** The 20-bit segment limit as the CPU reassembles it. */
  function Limit(d: bv64): bv64
  {
    (d & 0xffff) | (((d >> 48) & 0xf) << 16)
  }

  /** The 4-bit type field. */
  function Type(d: bv64): bv64 { (d >> 40) & 0xf }

  /** The 2-bit privilege-level field. */
  function Dpl(d: bv64): bv64 { (d >> 45) & 3 }

  /**
   * A code descriptor gives back the low 32 bits of the base, the low 20
   * bits of the limit, the type and (when it fits its two bits) the
   * privilege level; it is a present, non-system, 64-bit (L set, D clear),
   * page-granular segment.
   */
  lemma CodeDescriptorFields(ty: DescriptorType, dpl: bv64, base: bv64, limit: bv64)
    requires dpl < 4
    ensures var d := CodeDescriptor(ty, dpl, base, limit);
      && Base(d) == base & 0xffff_ffff
      && Limit(d) == limit & 0xf_ffff
      && Type(d) == TypeCode(ty)
      && Dpl(d) == dpl
      && Bit(d, 44) == 1 && Bit(d, 47) == 1
      && Bit(d, 52) == 0 && Bit(d, 53) == 1 && Bit(d, 54) == 0 && Bit(d, 55) == 1
  {
    var t := TypeCode(ty);
    CodeFields(t, dpl, base, limit);
  }

  lemma CodeFields(t: bv64, dpl: bv64, base: bv64, limit: bv64)
    requires t < 16 && dpl < 4
    ensures var d := 0
        | ((base & 0xffff) << 16) | (((base >> 16) & 0xff) << 32) | (((base >> 24) & 0xff) << 56)
        | ((limit & 0xffff) << 0) | (((limit >> 16) & 0xf) << 48)
        | (t << 40) | (1 << 44) | (dpl << 45) | (1 << 47) | (1 << 53) | (1 << 55);
      && Base(d) == base & 0xffff_ffff
      && Limit(d) == limit & 0xf_ffff
      && Type(d) == t
      && Dpl(d) == dpl
      && Bit(d, 44) == 1 && Bit(d, 47) == 1
      && Bit(d, 52) == 0 && Bit(d, 53) == 1 && Bit(d, 54) == 0 && Bit(d, 55) == 1
  {
  }

  /**
   * `set_data_segment`'s update of the code word. As written,
   * `b | (1 << 54) & !(1 << 53)` groups as `b | ((1 << 54) & !(1 << 53))`
   * since `&` binds tighter than `|`: it sets D/B and leaves L set.
   * Corrected, L is cleared as the `& !(1 << 53)` intends.
   */
  function DataWord(b: bv64, asWritten: bool): bv64
  {
    if asWritten then b | ((1 << 54) & !(1 << 53)) else (b | (1 << 54)) & !(1 << 53)
  }

  function DataDescriptor(ty: DescriptorType, dpl: bv64, base: bv64, limit: bv64, asWritten: bool): bv64
  {
    DataWord(CodeDescriptor(ty, dpl, base, limit), asWritten)
  }

  /**
   * On a code word (L set) the data update differs only in the L and D/B
   * bits: as written both end up set, corrected only D/B is.
   */
  lemma DataWordBits(b: bv64)
    requires Bit(b, 53) == 1
    ensures var w := DataWord(b, true);
      var c := DataWord(b, false);
      && Bit(w, 53) == 1 && Bit(w, 54) == 1
      && Bit(c, 53) == 0 && Bit(c, 54) == 1
      && w & !(3 << 53) == b & !(3 << 53)
      && c & !(3 << 53) == b & !(3 << 53)
  {
    AsWrittenDataBits(b, DataWord(b, true));
    CorrectedDataBits(b, DataWord(b, false));
  }

  /** OR-ing only ever sets bits, so L is set whatever the privilege level. */
  lemma CodeLongBit(ty: DescriptorType, dpl: bv64, base: bv64, limit: bv64)
    ensures Bit(CodeDescriptor(ty, dpl, base, limit), 53) == 1
  {
    var d := CodeDescriptor(ty, dpl, base, limit);
    assert d == d | (1 << 53);
    OrSetsBit(d);
  }

  lemma OrSetsBit(d: bv64)
    requires d == d | (1 << 53)
    ensures Bit(d, 53) == 1
  {
  }

  lemma AsWrittenDataBits(b: bv64, w: bv64)
    requires Bit(b, 53) == 1
    requires w == b | ((1 << 54) & !(1 << 53))
    ensures Bit(w, 53) == 1 && Bit(w, 54) == 1 && w & !(3 << 53) == b & !(3 << 53)
  {
  }

  lemma CorrectedDataBits(b: bv64, c: bv64)
    requires c == (b | (1 << 54)) & !(1 << 53)
    ensures Bit(c, 53) == 0 && Bit(c, 54) == 1 && c & !(3 << 53) == b & !(3 << 53)
  {
  }

  /** `set_code_segment`: entry `idx` is zeroed, then each field is OR-ed in. */
  method SetCodeSegment(gdt: array<bv64>, idx: nat, ty: DescriptorType, dpl: bv64, base: bv64, limit: bv64)
    requires gdt.Length == GDT_LEN && idx < gdt.Length
    modifies gdt
    ensures gdt[..] == old(gdt[..])[idx := CodeDescriptor(ty, dpl, base, limit)]
  {
    var b: bv64 := 0;
    b := b | ((base & 0xffff) << 16);
    b := b | (((base >> 16) & 0xff) << 32);
    b := b | (((base >> 24) & 0xff) << 56);
    b := b | ((limit & 0xffff) << 0);
    b := b | (((limit >> 16) & 0xf) << 48);
    b := b | (TypeCode(ty) << 40);
    b := b | (1 << 44);
    b := b | (dpl << 45);
    b := b | (1 << 47);
    b := b | (1 << 53);
    b := b | (1 << 55);
    gdt[idx] := b;
  }

  /** `set_data_segment`, corrected: the code word with L cleared and D/B set. */
  method SetDataSegment(gdt: array<bv64>, idx: nat, ty: DescriptorType, dpl: bv64, base: bv64, limit: bv64)
    requires gdt.Length == GDT_LEN && idx < gdt.Length
    modifies gdt
    ensures gdt[..] == old(gdt[..])[idx := DataDescriptor(ty, dpl, base, limit, false)]
  {
    SetCodeSegment(gdt, idx, ty, dpl, base, limit);
    var b := gdt[idx];
    gdt[idx] := DataWord(b, false);
  }

  /** The flat 4 GiB code and data segments `setup_segments` installs. */
  const KERNEL_CODE: bv64 := 0x00af_9a00_0000_ffff
  const KERNEL_DATA: bv64 := 0x00cf_9200_0000_ffff

  /**
   * The words of `setup_segments`: the code entry is the usual 64-bit
   * ring-0 code segment; the corrected data entry is the usual flat data
   * segment, where the as-written one also carries L.
   */
  lemma SetupSegmentsWords()
    ensures CodeDescriptor(ExecuteRead, 0, 0, 0xfffff) == KERNEL_CODE
    ensures DataDescriptor(ReadWrite, 0, 0, 0xfffff, false) == KERNEL_DATA
    ensures DataDescriptor(ReadWrite, 0, 0, 0xfffff, true) == KERNEL_DATA | (1 << 53)
  {
  }

  /** `setup_segments`: the null descriptor, ring-0 code, ring-0 data. */
  method SetupSegments(gdt: array<bv64>)
    requires gdt.Length == GDT_LEN
    modifies gdt
    ensures gdt[..] == [0, KERNEL_CODE, KERNEL_DATA]
  {
    gdt[0] := 0;
    SetCodeSegment(gdt, 1, ExecuteRead, 0, 0, 0xfffff);
    SetDataSegment(gdt, 2, ReadWrite, 0, 0, 0xfffff);
    SetupSegmentsWords();
  }

  /**
   * The `lgdt` limit, the offset of the table's last byte. As written it
   * is the table's size; corrected, the size minus one (as `load_idt` does).
   */
  function GdtLimit(asWritten: bool): (limit: nat)
    ensures !asWritten ==> limit + 1 == GDT_LEN * DESCRIPTOR_SIZE
  {
    if asWritten then GDT_LEN * DESCRIPTOR_SIZE else GDT_LEN * DESCRIPTOR_SIZE - 1
  }

  /** As written the limit admits one byte past the table, the first byte of a fourth entry. */
  lemma GdtLimitAsWritten()
    ensures GdtLimit(true) == GDT_LEN * DESCRIPTOR_SIZE
    ensures GdtLimit(true) / DESCRIPTOR_SIZE == GDT_LEN
  {
  }
}
