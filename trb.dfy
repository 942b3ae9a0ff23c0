// kernel/src/usb/trb.rs: the 16-byte Transfer Request Block of section 4.11
// of the xHCI specification, its type and cycle fields, the command TRBs the
// driver builds, the fields it reads out of event TRBs, the decoding of USB
// endpoint descriptors into endpoint contexts, and the map from the address
// of a status-stage TRB to the setup-stage TRB of the same control transfer.
// The `on_event` handlers change controller state; the configuration walk
// is in the Events module and the handlers in the Handlers module.

module Trb {
  import opened Common

  datatype Trb = Trb(w0: bv32, w1: bv32, w2: bv32, w3: bv32)

  // TRB type codes (table 6-91 of the xHCI specification).
  const NORMAL: bv32 := 1
  const SETUP_STAGE: bv32 := 2
  const DATA_STAGE: bv32 := 3
  const STATUS_STAGE: bv32 := 4
  const LINK: bv32 := 6
  const ENABLE_SLOT_COMMAND: bv32 := 9
  const ADDRESS_DEVICE_COMMAND: bv32 := 11
  const CONFIGURE_ENDPOINT_COMMAND: bv32 := 12
  const NO_OP_COMMAND: bv32 := 23
  const TRANSFER_EVENT: bv32 := 32
  const COMMAND_COMPLETION_EVENT: bv32 := 33
  const PORT_STATUS_CHANGE_EVENT: bv32 := 34

  /** `TRB::ty`: the six-bit type field, bits 10..15 of word 3. */
  function Ty(t: Trb): (ty: bv32)
    ensures ty < 64
    ensures t.w3 & 0xfc00 == ty << 10
  {
    (t.w3 >> 10) & 0x3f
  }

  /** `TRB::cycle`: bit 0 of word 3. */
  function Cycle(t: Trb): (c: bool)
    ensures c <==> t.w3 & 0x1 == 0x1
  {
    t.w3 & 0x1 != 0
  }

  /**
   * The TRB a producer ring stores: word 3's bit 0 replaced by the ring's
   * cycle bit, everything else as given.
   */
  function WithCycle(t: Trb, cycle: bool): (r: Trb)
    ensures Cycle(r) == cycle
    ensures r.w0 == t.w0 && r.w1 == t.w1 && r.w2 == t.w2
    ensures r.w3 & !0x1 == t.w3 & !0x1
  {
    if cycle then t.(w3 := (t.w3 & !0x1) | 1) else t.(w3 := t.w3 & !0x1)
  }

  /** The cycle bit lies outside the type field (bits 10..15). */
  lemma WithCycleKeepsType(t: Trb, cycle: bool)
    ensures Ty(WithCycle(t, cycle)) == Ty(t)
  {
    SameHighBits(WithCycle(t, cycle).w3, t.w3);
  }

  lemma SameHighBits(w: bv32, v: bv32)
    requires w & !0x1 == v & !0x1
    ensures w >> 10 == v >> 10
  {
  }

  /** `TRB::cast`: a view of the TRB as the event type `ty`, if it is one. */
  function Cast(t: Trb, ty: bv32): (r: Option<Trb>)
    ensures r.Some? <==> Ty(t) == ty
    ensures r.Some? ==> r.value == t
  {
    if Ty(t) == ty then Some(t) else None
  }

  /** The 64-bit pointer held in words 0 and 1. */
  function Pointer(t: Trb): (p: bv64)
    ensures p & 0xffff_ffff == t.w0 as bv64
    ensures p >> 32 == t.w1 as bv64
  {
    ((t.w1 as bv64) << 32) | (t.w0 as bv64)
  }

  /** The slot id field of command and event TRBs: bits 24..31 of word 3. */
  function SlotField(t: Trb): (s: bv8)
    ensures s as bv32 == t.w3 >> 24
  {
    (t.w3 >> 24) as bv8
  }

  // ---- command and transfer TRBs the driver builds ------------------------

  /** `TRB::new_enable_slot_trb`. */
  function EnableSlotTrb(): (t: Trb)
    ensures Ty(t) == ENABLE_SLOT_COMMAND && !Cycle(t)
    ensures t.w0 == 0 && t.w1 == 0 && t.w2 == 0 && SlotField(t) == 0
  {
    Trb(0, 0, 0, 9 << 10)
  }

  /**
   * `TRB::new_link_trb`: points back to `ptr` (the low four bits dropped)
   * and sets the Toggle Cycle flag, bit 1 of word 3.
   */
  function LinkTrb(ptr: bv64): (t: Trb)
    ensures Ty(t) == LINK && !Cycle(t)
    ensures t.w3 & 0x2 == 0x2
    ensures Pointer(t) == ptr & 0xffff_ffff_ffff_fff0
  {
    Trb((ptr & 0xffff_fff0) as bv32, (ptr >> 32) as bv32, 0, (6 << 10) | (1 << 1))
  }

  /**
   * `TRB::address_device_command_trb`. The input context must be 64-byte
   * aligned; the assertion that checks it is the `None` case.
   */
  function AddressDeviceTrb(inputContext: bv64, slotId: bv8): (r: Option<Trb>)
    ensures r.Some? <==> inputContext & 0x3f == 0
    ensures r.Some? ==> Ty(r.value) == ADDRESS_DEVICE_COMMAND && !Cycle(r.value)
    ensures r.Some? ==> Pointer(r.value) == inputContext && SlotField(r.value) == slotId
  {
    if inputContext & 0x3f != 0 then None
    else
      Some(Trb((inputContext & 0xffff_fff0) as bv32, (inputContext >> 32) as bv32, 0,
               ((slotId as bv32) << 24) | (11 << 10)))
  }

  /** `TRB::no_op_command_trb`. */
  function NoOpCommandTrb(): (t: Trb)
    ensures Ty(t) == NO_OP_COMMAND && !Cycle(t)
    ensures t.w0 == 0 && t.w1 == 0 && t.w2 == 0 && SlotField(t) == 0
  {
    Trb(0, 0, 0, 23 << 10)
  }

  /**
   * The Configure Endpoint command pushed at the end of the configuration
   * walk (trb.rs, after the assertion that the input context is 64-byte
   * aligned, which is the `None` case).
   */
  function ConfigureEndpointTrb(inputContext: bv64, slotId: bv8): (r: Option<Trb>)
    ensures r.Some? <==> inputContext & 0x3f == 0
    ensures r.Some? ==> Ty(r.value) == CONFIGURE_ENDPOINT_COMMAND
    ensures r.Some? ==> Pointer(r.value) == inputContext && SlotField(r.value) == slotId
  {
    if inputContext & 0x3f != 0 then None
    else
      Some(Trb((inputContext & 0xffff_ffff) as bv32, (inputContext >> 32) as bv32, 0,
               ((slotId as bv32) << 24) | (12 << 10) | 1))
  }

  /**
   * `set_normal_trb`'s Normal TRB: the whole data buffer, Interrupt On
   * Completion (bit 5) set.
   */
  function NormalTrb(buffer: bv64, length: bv32): (t: Trb)
    ensures Ty(t) == NORMAL && !Cycle(t)
    ensures t.w3 & 0x20 == 0x20
    ensures Pointer(t) == buffer && t.w2 == length
  {
    Trb((buffer & 0xffff_ffff) as bv32, (buffer >> 32) as bv32, length, (1 << 10) | (1 << 5))
  }

  // ---- fields of event TRBs -----------------------------------------------

  /** `PortStatusChangeEventTRB::port_id`: bits 24..31 of word 0. */
  function PortId(t: Trb): (id: bv8)
    ensures id as bv32 == t.w0 >> 24
  {
    (t.w0 >> 24) as bv8
  }

  /**
   * `CommandCompletionEventTRB::ptr`: the completed command's address, with
   * the low four bits masked off.
   */
  function CommandPointer(t: Trb): (p: bv64)
    ensures p & 0xf == 0
    ensures p & !0xf == Pointer(t) & !0xf
  {
    Pointer(t) & !0xf
  }

  /** The completion code, bits 24..31 of word 2 (1 is Success). */
  function CompletionCode(t: Trb): (c: bv8)
    ensures c as bv32 == t.w2 >> 24
  {
    (t.w2 >> 24) as bv8
  }

  /** Writing back the cycle bit a TRB already has changes nothing. */
  lemma CycleRoundTrip(t: Trb, cycle: bool)
    ensures Cycle(WithCycle(t, cycle)) == cycle
    ensures WithCycle(t, Cycle(t)) == t
  {
    KeepLowBit(t.w3);
  }

  lemma KeepLowBit(w: bv32)
    ensures w & 0x1 != 0 ==> (w & !0x1) | 1 == w
    ensures w & 0x1 == 0 ==> w & !0x1 == w
  {
  }

  // ---- event TRBs as the controller writes them ---------------------------

  /**
   * A Port Status Change Event (section 6.4.2.3 of the xHCI specification):
   * the port id in bits 24..31 of word 0, the completion code in bits
   * 24..31 of word 2, type 34 and the cycle bit in word 3.
   */
  function PortStatusChangeEvent(port: bv8, code: bv8, cycle: bool): Trb
  {
    Trb((port as bv32) << 24, 0, (code as bv32) << 24, (34 << 10) | (if cycle then 1 else 0))
  }

  /**
   * A Command Completion Event (section 6.4.2.2): the 16-byte aligned
   * address of the command in words 0 and 1, the completion code in bits
   * 24..31 of word 2, the slot id, type 33 and the cycle bit in word 3.
   */
  function CommandCompletionEvent(command: bv64, code: bv8, slot: bv8, cycle: bool): Trb
  {
    Trb((command & 0xffff_ffff) as bv32, (command >> 32) as bv32, (code as bv32) << 24,
        ((slot as bv32) << 24) | (33 << 10) | (if cycle then 1 else 0))
  }

  /**
   * A Transfer Event (section 6.4.2.1): the address of the transfer TRB,
   * the completion code above a 24-bit transfer length, the slot id, the
   * endpoint id in bits 16..20 of word 3, type 32 and the cycle bit.
   */
  function TransferEvent(ptr: bv64, code: bv8, length: bv32, slot: bv8, endpoint: bv8, cycle: bool): Trb
    requires length < 0x100_0000 && endpoint < 32
  {
    Trb((ptr & 0xffff_ffff) as bv32, (ptr >> 32) as bv32, ((code as bv32) << 24) | length,
        ((slot as bv32) << 24) | ((endpoint as bv32) << 16) | (32 << 10) | (if cycle then 1 else 0))
  }

  /** `port_id`, `ty` and `cycle` read back the fields of a Port Status Change Event. */
  lemma PortStatusChangeEventRoundTrip(port: bv8, code: bv8, cycle: bool)
    ensures var e := PortStatusChangeEvent(port, code, cycle);
      && Ty(e) == PORT_STATUS_CHANGE_EVENT && Cycle(e) == cycle
      && PortId(e) == port && CompletionCode(e) == code
  {
  }

  /**
   * `ptr`, `slot_id`, the completion code, `ty` and `cycle` read back the
   * fields of a Command Completion Event, the command's address exactly
   * when it is 16-byte aligned as every TRB is.
   */
  lemma CommandCompletionEventRoundTrip(command: bv64, code: bv8, slot: bv8, cycle: bool)
    ensures var e := CommandCompletionEvent(command, code, slot, cycle);
      && Ty(e) == COMMAND_COMPLETION_EVENT && Cycle(e) == cycle
      && SlotField(e) == slot && CompletionCode(e) == code
      && (CommandPointer(e) == command <==> command & 0xf == 0)
  {
  }

  /** `ptr`, `slot_id`, the completion code and `ty` read back the fields of a Transfer Event. */
  lemma TransferEventRoundTrip(ptr: bv64, code: bv8, length: bv32, slot: bv8, endpoint: bv8, cycle: bool)
    requires length < 0x100_0000 && endpoint < 32
    ensures var e := TransferEvent(ptr, code, length, slot, endpoint, cycle);
      && Ty(e) == TRANSFER_EVENT && Cycle(e) == cycle
      && Pointer(e) == ptr && SlotField(e) == slot && CompletionCode(e) == code
      && e.w2 & 0xff_ffff == length
  {
  }

  /**
   * The completion code is exactly bits 24..31 of word 2: a code placed
   * there reads back whatever the event parameter below it holds, and the
   * other words do not change it.
   */
  lemma CompletionCodeField(t: Trb, code: bv8, parameter: bv32)
    requires parameter < 0x100_0000
    ensures CompletionCode(t.(w2 := ((code as bv32) << 24) | parameter)) == code
    ensures CompletionCode(t) == CompletionCode(Trb(0, 0, t.w2, 0))
  {
  }

  /** The constructors yield the type codes of section 6.4 of xHCI. */
  lemma ConstructorTypes(ptr: bv64, slotId: bv8)
    ensures Ty(EnableSlotTrb()) == 9 && Ty(LinkTrb(ptr)) == 6 && Ty(NoOpCommandTrb()) == 23
    ensures AddressDeviceTrb(ptr & !0x3f, slotId).Some?
    ensures Ty(AddressDeviceTrb(ptr & !0x3f, slotId).value) == 11
    ensures Cast(LinkTrb(ptr), LINK) == Some(LinkTrb(ptr))
    ensures Cast(NoOpCommandTrb(), TRANSFER_EVENT) == None
  {
  }

  /** Storing a TRB with a cycle bit does not change what `cast` sees. */
  lemma CastIgnoresCycle(t: Trb, cycle: bool, ty: bv32)
    ensures Cast(WithCycle(t, cycle), ty).Some? == Cast(t, ty).Some?
  {
  }

  // ---- USB endpoint descriptors (section 9.6.6 of USB 2.0) ----------------

  /**
   * Device Context Index of an endpoint: twice the endpoint number plus
   * the direction bit of bEndpointAddress.
   */
  function Dci(endpointAddress: bv8): (dci: nat)
    ensures dci < 16
    ensures dci / 2 == (endpointAddress & 0x7) as nat
    ensures dci % 2 == (endpointAddress >> 7) as nat
  {
    ((endpointAddress & 0x7) as nat) * 2 + (endpointAddress >> 7) as nat
  }

  /** Distinct endpoints (number and direction) get distinct indices. */
  lemma DciInjective(a: bv8, b: bv8)
    requires Dci(a) == Dci(b)
    ensures a & 0x87 == b & 0x87
  {
    assert (a & 0x7) as nat == (b & 0x7) as nat;
    assert (a >> 7) as nat == (b >> 7) as nat;
    assert a & 0x87 == (a & 0x7) | ((a >> 7) << 7);
    assert b & 0x87 == (b & 0x7) | ((b >> 7) << 7);
  }

  /**
   * The endpoint type of an endpoint context (table 6-9 of xHCI) from the
   * direction bit and the transfer type in bits 0..1 of bmAttributes:
   * (OUT, 1..3) -> 1..3, (any, 0) -> 4, (IN, 1..3) -> 5..7. The direction
   * is a single bit, so the source's match is total and its
   * `unreachable!()` arm is never taken.
   */
  function EpType(endpointAddress: bv8, attributes: bv8): (ty: bv32)
    ensures 1 <= ty <= 7
    ensures ty == 4 <==> attributes & 0x3 == 0
  {
    var direction := endpointAddress >> 7;
    var transfer := (attributes & 0x3) as bv32;
    if transfer == 0 then 4
    else if direction == 0 then transfer
    else transfer + 4
  }

  /**
   * Outside control endpoints the type is the transfer type with the
   * direction in bit 2: OUT endpoints 1..3, IN endpoints 5..7.
   */
  lemma EpTypeClosedForm(endpointAddress: bv8, attributes: bv8)
    ensures attributes & 0x3 != 0 ==>
      EpType(endpointAddress, attributes)
      == (attributes & 0x3) as bv32 | (((endpointAddress >> 7) as bv32) << 2)
  {
  }

  /** wMaxPacketSize as the configuration walk computes it (`b4 | b5 << 2`). */
  function MaxPacketSizeAsWritten(lo: bv8, hi: bv8): (m: bv32)
    ensures m < 0x400
  {
    (lo as bv32) | ((hi as bv32) << 2)
  }

  /** wMaxPacketSize as the little-endian 16-bit field it is. */
  function MaxPacketSize(lo: bv8, hi: bv8): (m: bv32)
    ensures m < 0x1_0000
    ensures m & 0xff == lo as bv32 && m >> 8 == hi as bv32
  {
    (lo as bv32) | ((hi as bv32) << 8)
  }

  /**
   * A high-speed bulk endpoint of 512 bytes (bytes 0x00, 0x02) is read as
   * 8 by the shift of 2; the two readings agree only while the high byte
   * is 0.
   */
  lemma MaxPacketSizeShiftCounterexample()
    ensures MaxPacketSizeAsWritten(0x00, 0x02) == 8
    ensures MaxPacketSize(0x00, 0x02) == 512
  {
  }

  lemma MaxPacketSizeAgreesOnSmallPackets(lo: bv8)
    ensures MaxPacketSizeAsWritten(lo, 0) == MaxPacketSize(lo, 0) == lo as bv32
  {
  }

  /**
   * The eight words of an endpoint context (section 6.2.3 of xHCI) as the
   * driver fills them: interval, CErr = 3, type, max packet size, the
   * transfer ring's dequeue pointer with DCS = 1.
   */
  function EndpointContext(interval: bv8, epType: bv32, maxPacket: bv32, ring: bv64): (ctx: seq<bv32>)
    requires epType < 8 && maxPacket < 0x1_0000
    ensures |ctx| == 8
    ensures (ctx[0] >> 16) & 0xff == interval as bv32
    ensures (ctx[1] >> 1) & 0x3 == 3 && (ctx[1] >> 3) & 0x7 == epType && ctx[1] >> 16 == maxPacket
    ensures ctx[2] & 0x1 == 1
    ensures ((ctx[3] as bv64) << 32) | ((ctx[2] & !0xf) as bv64) == ring & !0xf
    ensures ctx[4] == 0 && ctx[5] == 0 && ctx[6] == 0 && ctx[7] == 0
  {
    [(interval as bv32) << 16,
     (epType << 3) | (maxPacket << 16) | (3 << 1),
     (ring & 0xffff_ffff) as bv32 | 1,
     (ring >> 32) as bv32,
     0, 0, 0, 0]
  }

  // ---- SETUP_TRB_MAP ------------------------------------------------------

  const SETUP_TRB_MAP_CAPACITY: nat := 32

  /**
   * `SETUP_TRB_MAP`: a fixed-capacity map (32 entries) from the address of
   * a control transfer's status-stage TRB to its setup-stage TRB.
   */
  class SetupTrbMap {
    var entries: map<bv64, Trb>

    ghost predicate Valid()
      reads this
    {
      |entries| <= SETUP_TRB_MAP_CAPACITY
    }

    constructor ()
      ensures Valid() && entries == map[]
    {
      entries := map[];
    }

    /** `insert`: fails (the caller's `unwrap` panics) only when full. */
    method Insert(key: bv64, t: Trb) returns (ok: bool)
      requires Valid()
      modifies this
      ensures Valid()
      ensures ok <==> key in old(entries) || |old(entries)| < SETUP_TRB_MAP_CAPACITY
      ensures ok ==> entries == old(entries)[key := t]
      ensures !ok ==> entries == old(entries)
    {
      if key in entries || |entries| < SETUP_TRB_MAP_CAPACITY {
        entries := entries[key := t];
        ok := true;
      } else {
        ok := false;
      }
    }

    /** `remove`: the TRB recorded under `key`, which is dropped. */
    method Remove(key: bv64) returns (r: Option<Trb>)
      requires Valid()
      modifies this
      ensures Valid()
      ensures r == (if key in old(entries) then Some(old(entries)[key]) else None)
      ensures entries == old(entries) - {key}
    {
      if key in entries {
        r := Some(entries[key]);
      } else {
        r := None;
      }
      entries := entries - {key};
      assert entries.Keys <= old(entries).Keys;
      SubsetCardinality(entries.Keys, old(entries).Keys);
    }
  }

  lemma SubsetCardinality<T>(a: set<T>, b: set<T>)
    requires a <= b
    ensures |a| <= |b|
  {
    if a != {} {
      var x :| x in a;
      SubsetCardinality(a - {x}, b - {x});
    }
  }
}
