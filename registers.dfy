// kernel/src/usb/registers.rs: xHCI capability, operational, port and
// doorbell registers. A getter is a pure function of the word read from the
// register; a setter computes the word it writes back from the word it read
// (section 5 of the xHCI specification). MMIO side effects of a write (the
// controller changing the register afterwards) and the spin-wait in
// `PortStatusAndControlRegister::reset` are not modelled.

module Registers {
  import opened Common

  predicate Bit(v: bv32, n: nat)
    requires n < 32
  {
    (v >> n) & 1 == 1
  }

  // ---- USBSTS -------------------------------------------------------------

  /** `hchalted`: USBSTS bit 0. */
  function Hchalted(v: bv32): (b: bool)
    ensures b <==> Bit(v, 0)
  {
    v & 0x1 != 0
  }

  /** `controller_not_ready`: USBSTS bit 11. */
  function ControllerNotReady(v: bv32): (b: bool)
    ensures b <==> Bit(v, 11)
  {
    (v >> 11) & 0x1 != 0
  }

  // ---- USBCMD -------------------------------------------------------------

  /** `host_controller_reset`: USBCMD bit 1. */
  function HostControllerReset(v: bv32): (b: bool)
    ensures b <==> Bit(v, 1)
  {
    (v >> 1) & 0x1 != 0
  }

  /** The word `run` writes: bit 0 set, every other bit as read. */
  function RunValue(v: bv32): (r: bv32)
    ensures Bit(r, 0)
    ensures r & !0x1 == v & !0x1
  {
    v | 0x1
  }

  /** The word `stop` writes: bit 0 clear, every other bit as read. */
  function StopValue(v: bv32): (r: bv32)
    ensures !Bit(r, 0)
    ensures r & !0x1 == v & !0x1
  {
    v & !0x1
  }

  /** The word `set_host_controller_reset` writes. */
  function SetHostControllerResetValue(v: bv32, value: bool): (r: bv32)
    ensures HostControllerReset(r) == value
    ensures r & !0x2 == v & !0x2
  {
    (v & !0x2) | ((if value then 1 else 0) << 1)
  }

  /** The word `set_interrupt_enable` writes: INTE is bit 2. */
  function SetInterruptEnableValue(v: bv32, value: bool): (r: bv32)
    ensures Bit(r, 2) == value
    ensures r & !0x4 == v & !0x4
  {
    (v & !0x4) | ((if value then 1 else 0) << 2)
  }

  // ---- CONFIG and DCBAAP --------------------------------------------------

  /** The word `set_max_slots_en` writes: the low byte replaced. */
  function SetMaxSlotsEnValue(v: bv32, value: bv8): (r: bv32)
    ensures r & 0xff == value as bv32
    ensures r & !0xff == v & !0xff
  {
    (v & !0xff) | (value as bv32)
  }

  /** `set_dcbaap` asserts 64-byte alignment; the panic is `None`. */
  function DcbaapValue(value: bv64): (r: Option<bv64>)
    ensures r.Some? <==> value & 0x3f == 0
    ensures r.Some? ==> r.value == value
  {
    if value & 0x3f == 0 then Some(value) else None
  }

  // ---- PORTSC -------------------------------------------------------------

  /** `is_connected`: CCS, bit 0. */
  function IsConnected(v: bv32): (b: bool)
    ensures b <==> Bit(v, 0)
  {
    v & 0x1 != 0
  }

  /** `is_enabled`: PED, bit 1. */
  function IsEnabled(v: bv32): (b: bool)
    ensures b <==> Bit(v, 1)
  {
    v & 0x2 != 0
  }

  /** `is_port_reset`: PR, bit 4. */
  function IsPortReset(v: bv32): (b: bool)
    ensures b <==> Bit(v, 4)
  {
    v & 0x10 != 0
  }

  /** `is_port_reset_changed`: PRC, bit 21. */
  function IsPortResetChanged(v: bv32): (b: bool)
    ensures b <==> (v >> 21) & 0x1 == 0x1
  {
    v & 0x200000 != 0
  }

  /** `port_speed`: bits 10..13. */
  function PortSpeed(v: bv32): (s: bv8)
    ensures s < 16
    ensures (s as bv32) == (v >> 10) & 0xf
  {
    ((v >> 10) & 0xf) as bv8
  }

  /**
   * A PORTSC word with speed `s` placed in bits 10..13 reads back `s`, and
   * the speed depends on those four bits only.
   */
  lemma PortSpeedRoundTrip(v: bv32, s: bv8)
    requires s < 16
    ensures PortSpeed((v & !0x3c00) | ((s as bv32) << 10)) == s
    ensures PortSpeed(v) == PortSpeed(v & 0x3c00)
  {
  }

  /**
   * The word `reset` writes: PR (bit 4) set to start the reset, PED (bit 1,
   * write-1-to-disable) written 0, CSC (17) and PRC (21) written 1 so they
   * clear, the other change bits written 0, and PLS, PP, PIC and the wake
   * enables (bits 5..9, 14..15, 25..27) kept as read.
   */
  function PortResetValue(v: bv32): (r: bv32)
    ensures IsPortReset(r) && !IsEnabled(r)
    ensures Bit(r, 17) && Bit(r, 21) && !Bit(r, 18) && !Bit(r, 19) && !Bit(r, 20) && !Bit(r, 22) && !Bit(r, 23)
    ensures r & 0x0e00c3e0 == v & 0x0e00c3e0
    ensures r & !(0x0e00c3e0 | 0x00220010) == 0
  {
    (v & 0x0e00c3e0) | 0x00220010
  }

  /**
   * The word `clear_is_port_reset_changed` writes: only PRC among the
   * change bits is written 1, PR and PED are written 0, and PLS, PP, LWS,
   * PIC and the wake enables are kept.
   */
  function ClearPortResetChangedValue(v: bv32): (r: bv32)
    ensures Bit(r, 21) && !IsPortReset(r) && !IsEnabled(r)
    ensures !Bit(r, 17) && !Bit(r, 18) && !Bit(r, 19) && !Bit(r, 20) && !Bit(r, 22) && !Bit(r, 23)
    ensures r & 0x0e01c3e0 == v & 0x0e01c3e0
    ensures r & !(0x0e01c3e0 | 0x200000) == 0
  {
    (v & 0x0e01c3e0) | 0x200000
  }

  // ---- doorbell -----------------------------------------------------------

  /** The word `ring` writes: DB target in bits 0..7, stream id in 16..31. */
  function DoorbellValue(target: bv8, streamId: bv16): (r: bv32)
    ensures (r & 0xff) as bv8 == target && (r >> 16) as bv16 == streamId
    ensures (r >> 8) & 0xff == 0
  {
    (target as bv32) | ((streamId as bv32) << 16)
  }

  // ---- capability registers -----------------------------------------------

  /** `length`: CAPLENGTH, the low byte of the first capability word. */
  function CapLength(data: bv32): (l: bv8)
    ensures l as bv32 == data & 0xff
  {
    (data & 0xff) as bv8
  }

  /** `hci_version`: the high half of the first capability word. */
  function HciVersion(data: bv32): (h: bv16)
    ensures h as bv32 == data >> 16
  {
    (data >> 16) as bv16
  }

  /**
   * The first capability word as the controller lays it out: CAPLENGTH in
   * the low byte, a reserved byte, HCIVERSION in the high half.
   */
  function CapabilityWord(length: bv8, version: bv16): bv32
  {
    (length as bv32) | ((version as bv32) << 16)
  }

  /** `length` and `hci_version` read back the two fields of the word. */
  lemma CapabilityRoundTrip(length: bv8, version: bv16)
    ensures CapLength(CapabilityWord(length, version)) == length
    ensures HciVersion(CapabilityWord(length, version)) == version
  {
  }

  /** The two fields rebuild the word apart from its reserved byte 1. */
  lemma CapabilityFields(data: bv32)
    ensures data & 0xffff00ff == CapabilityWord(CapLength(data), HciVersion(data))
  {
  }

  /** `max_slots`: HCSPARAMS1 bits 0..7. */
  function MaxSlots(p1: bv32): (n: bv8)
    ensures n as bv32 == p1 & 0xff
  {
    (p1 & 0xff) as bv8
  }

  /** `max_interrupts`: HCSPARAMS1 bits 8..17. */
  function MaxInterrupts(p1: bv32): (n: bv16)
    ensures n < 1024
    ensures n as bv32 == (p1 >> 8) & 0x3ff
  {
    ((p1 >> 8) & 0x3ff) as bv16
  }

  /** `max_ports`: HCSPARAMS1 bits 24..31. */
  function MaxPorts(p1: bv32): (n: bv8)
    ensures n as bv32 == p1 >> 24
  {
    (p1 >> 24) as bv8
  }

  /** HCSPARAMS1 built from its three fields, the reserved bits 18..23 zero. */
  function Hcsparams1Word(slots: bv8, interrupts: bv16, ports: bv8): bv32
    requires interrupts < 1024
  {
    (slots as bv32) | ((interrupts as bv32) << 8) | ((ports as bv32) << 24)
  }

  /** The three getters read back the fields HCSPARAMS1 was built from. */
  lemma Hcsparams1RoundTrip(slots: bv8, interrupts: bv16, ports: bv8)
    requires interrupts < 1024
    ensures MaxSlots(Hcsparams1Word(slots, interrupts, ports)) == slots
    ensures MaxInterrupts(Hcsparams1Word(slots, interrupts, ports)) == interrupts
    ensures MaxPorts(Hcsparams1Word(slots, interrupts, ports)) == ports
  {
  }

  /** HCSPARAMS1 is the concatenation of the three fields and a reserved gap. */
  lemma Hcsparams1Fields(p1: bv32)
    ensures p1 & 0xff03ffff == Hcsparams1Word(MaxSlots(p1), MaxInterrupts(p1), MaxPorts(p1))
  {
  }

  /** Number of trailing zero bits of a word (32 for 0), `u32::trailing_zeros`. */
  function TrailingZeros(x: bv32): (n: nat)
    ensures n <= 32
    ensures n == 32 <==> x == 0
    ensures n < 32 ==> Bit(x, n)
    ensures forall k :: 0 <= k < n && k < 32 ==> !Bit(x, k)
  {
    var n := TrailingZerosFrom(x, 0);
    if n < 32 then
      NoBitOfZero(n);
      n
    else n
  }

  lemma NoBitOfZero(k: nat)
    requires k < 32
    ensures !Bit(0, k)
  {
  }

  function TrailingZerosFrom(x: bv32, k: nat): (n: nat)
    requires k <= 32
    requires forall j :: 0 <= j < k ==> !Bit(x, j)
    ensures k <= n <= 32
    ensures n < 32 ==> Bit(x, n)
    ensures forall j :: 0 <= j < n && j < 32 ==> !Bit(x, j)
    ensures n == 32 ==> x == 0
    decreases 32 - k
  {
    if k == 32 then
      AllBitsClear(x);
      32
    else if Bit(x, k) then k
    else TrailingZerosFrom(x, k + 1)
  }

  lemma AllBitsClear(x: bv32)
    requires forall j :: 0 <= j < 32 ==> !Bit(x, j)
    ensures x == 0
  {
    assert !Bit(x, 0) && !Bit(x, 1) && !Bit(x, 2) && !Bit(x, 3) && !Bit(x, 4) && !Bit(x, 5);
    assert !Bit(x, 6) && !Bit(x, 7) && !Bit(x, 8) && !Bit(x, 9) && !Bit(x, 10) && !Bit(x, 11);
    assert !Bit(x, 12) && !Bit(x, 13) && !Bit(x, 14) && !Bit(x, 15) && !Bit(x, 16) && !Bit(x, 17);
    assert !Bit(x, 18) && !Bit(x, 19) && !Bit(x, 20) && !Bit(x, 21) && !Bit(x, 22) && !Bit(x, 23);
    assert !Bit(x, 24) && !Bit(x, 25) && !Bit(x, 26) && !Bit(x, 27) && !Bit(x, 28) && !Bit(x, 29);
    assert !Bit(x, 30) && !Bit(x, 31);
  }

  function Pow2(n: nat): (p: nat)
    ensures p >= 1
  {
    if n == 0 then 1 else 2 * Pow2(n - 1)
  }

  /**
   * `pagesize`: PAGESIZE bit n set means pages of 2^(n+12) bytes; the lowest
   * set bit is taken.
   */
  function PageSize(bits: bv32): (size: nat)
    ensures size >= 4096
    ensures bits != 0 ==> size == Pow2(TrailingZeros(bits) + 12) && Bit(bits, TrailingZeros(bits))
  {
    PowMonotone(12, TrailingZeros(bits) + 12);
    Pow2(TrailingZeros(bits) + 12)
  }

  lemma PowMonotone(a: nat, b: nat)
    requires a <= b
    ensures Pow2(a) <= Pow2(b)
    decreases b
  {
    if a < b { PowMonotone(a, b - 1); }
  }

  /** A controller that supports 4 KiB pages (bit 0) reports 4096. */
  lemma PageSizeOf4K()
    ensures PageSize(1) == 4096
  {
    assert TrailingZeros(1) == 0;
  }

  // ---- read-modify-write register objects --------------------------------

  class UsbCommandRegister {
    var data: bv32

    constructor (v: bv32) ensures data == v { data := v; }

    method Run()
      modifies this
      ensures data == RunValue(old(data))
    {
      data := RunValue(data);
    }

    method Stop()
      modifies this
      ensures data == StopValue(old(data))
    {
      data := StopValue(data);
    }

    method SetHostControllerReset(value: bool)
      modifies this
      ensures data == SetHostControllerResetValue(old(data), value)
    {
      data := SetHostControllerResetValue(data, value);
    }

    method SetInterruptEnable(value: bool)
      modifies this
      ensures data == SetInterruptEnableValue(old(data), value)
    {
      data := SetInterruptEnableValue(data, value);
    }
  }

  class ConfigureRegister {
    var data: bv32

    constructor (v: bv32) ensures data == v { data := v; }

    method SetMaxSlotsEn(value: bv8)
      modifies this
      ensures data == SetMaxSlotsEnValue(old(data), value)
    {
      data := SetMaxSlotsEnValue(data, value);
    }
  }

  class DcbaapRegister {
    var data: bv64

    constructor (v: bv64) ensures data == v { data := v; }

    /** Returns false where `set_dcbaap`'s assertion panics (nothing written). */
    method SetDcbaap(value: bv64) returns (ok: bool)
      modifies this
      ensures ok <==> DcbaapValue(value).Some?
      ensures ok ==> data == value
      ensures !ok ==> data == old(data)
    {
      if value & 0x3f != 0 {
        return false;
      }
      data := value;
      return true;
    }
  }

  /** A write to a PORTSC or doorbell register; what it does next is the hardware's. */
  datatype MmioWrite = PortscWrite(port: nat, value: bv32) | DoorbellWrite(index: nat, value: bv32)

  /**
   * The PORTSC and doorbell writes issued so far, oldest first. The value
   * a port register reads back is the controller's, so the model keeps the
   * words read separately from the words written.
   */
  class MmioLog {
    var writes: seq<MmioWrite>

    constructor () ensures writes == [] { writes := []; }

    /** `PortStatusAndControlRegister::reset` on a port that reads `current`. */
    method ResetPort(port: nat, current: bv32)
      modifies this
      ensures writes == old(writes) + [PortscWrite(port, PortResetValue(current))]
    {
      writes := writes + [PortscWrite(port, PortResetValue(current))];
    }

    /** `clear_is_port_reset_changed` on a port that reads `current`. */
    method ClearPortResetChanged(port: nat, current: bv32)
      modifies this
      ensures writes == old(writes) + [PortscWrite(port, ClearPortResetChangedValue(current))]
    {
      writes := writes + [PortscWrite(port, ClearPortResetChangedValue(current))];
    }

    /** `DoorbellRegister::ring` on doorbell register `index`. */
    method Ring(index: nat, target: bv8, streamId: bv16)
      modifies this
      ensures writes == old(writes) + [DoorbellWrite(index, DoorbellValue(target, streamId))]
    {
      writes := writes + [DoorbellWrite(index, DoorbellValue(target, streamId))];
    }
  }
}
