// kernel/src/pci.rs: PCI configuration-space addressing (section 3.2.2.3.2
// of the PCI Local Bus Specification 3.0), the bus scan, BAR reads and MSI
// set-up (section 6.8.1). Port I/O is replaced by an oracle: `Config` maps
// the word written to CONFIG_ADDRESS to the word then read from CONFIG_DATA.
// The writes MSI set-up makes are returned as a list.

module Pci {
  import opened Common

  /** What CONFIG_DATA reads after a given word is written to CONFIG_ADDRESS. */
  type Config = bv32 -> bv32

  datatype ClassCode = ClassCode(base: bv8, sub: bv8, interface: bv8)

  datatype Device = Device(bus: bv8, device: bv8, func: bv8, headerType: bv8, classCode: ClassCode)

  // ---- class codes ---------------------------------------------------------

  predicate Match1(c: ClassCode, b: bv8)
  {
    b == c.base
  }

  /** `match2`: base and sub-class; a match of both is a match of the base. */
  function Match2(c: ClassCode, b: bv8, s: bv8): (m: bool)
    ensures m ==> Match1(c, b)
    ensures m <==> c.base == b && c.sub == s
  {
    Match1(c, b) && s == c.sub
  }

  /** `match3`: base, sub-class and interface; implies `match2`. */
  function Match3(c: ClassCode, b: bv8, s: bv8, i: bv8): (m: bool)
    ensures m ==> Match2(c, b, s)
    ensures m <==> c == ClassCode(b, s, i)
  {
    Match2(c, b, s) && i == c.interface
  }

  // ---- configuration addresses -----------------------------------------------

  /**
   * `make_address`: the enable bit, bus, device, function and the register
   * offset with its low two bits cleared. Device numbers above 31 and
   * function numbers above 7 spill into the neighbouring fields, as in
   * the source; below those limits every field reads back.
   */
  function MakeAddress(bus: bv8, device: bv8, func: bv8, reg: bv8): (a: bv32)
    ensures a >> 31 == 1 && a & 0x3 == 0
    ensures a & 0xfc == (reg as bv32) & 0xfc
    ensures device < 32 && func < 8 ==>
      && (a >> 16) & 0xff == bus as bv32
      && (a >> 11) & 0x1f == device as bv32
      && (a >> 8) & 0x7 == func as bv32
      && a & 0x7f000000 == 0
  {
    (1 << 31) | ((bus as bv32) << 16) | ((device as bv32) << 11) | ((func as bv32) << 8) | ((reg as bv32) & 0xfc)
  }

  /** Two in-range addresses are equal only for the same bus, device, function and dword. */
  lemma MakeAddressInjective(b1: bv8, d1: bv8, f1: bv8, r1: bv8, b2: bv8, d2: bv8, f2: bv8, r2: bv8)
    requires d1 < 32 && f1 < 8 && d2 < 32 && f2 < 8
    requires MakeAddress(b1, d1, f1, r1) == MakeAddress(b2, d2, f2, r2)
    ensures b1 == b2 && d1 == d2 && f1 == f2 && r1 & 0xfc == r2 & 0xfc
  {
    var a := MakeAddress(b1, d1, f1, r1);
    assert (a >> 16) & 0xff == b1 as bv32 == b2 as bv32;
    assert (a >> 11) & 0x1f == d1 as bv32 == d2 as bv32;
    assert (a >> 8) & 0x7 == f1 as bv32 == f2 as bv32;
  }

  function VendorId(config: Config, bus: bv8, device: bv8, func: bv8): bv16
  {
    (config(MakeAddress(bus, device, func, 0x00)) & 0xffff) as bv16
  }

  function HeaderType(config: Config, bus: bv8, device: bv8, func: bv8): bv8
  {
    ((config(MakeAddress(bus, device, func, 0x0c)) >> 16) & 0xff) as bv8
  }

  /** `read_class_code` on the word read from offset 8. */
  function ClassCodeOf(reg: bv32): (c: ClassCode)
    ensures c.base as bv32 == reg >> 24
    ensures c.sub as bv32 == (reg >> 16) & 0xff
    ensures c.interface as bv32 == (reg >> 8) & 0xff
  {
    ClassCode(((reg >> 24) & 0xff) as bv8, ((reg >> 16) & 0xff) as bv8, ((reg >> 8) & 0xff) as bv8)
  }

  /** The register word at offset 8: the class code above the revision id. */
  function ClassCodeWord(c: ClassCode, revision: bv8): bv32
  {
    ((c.base as bv32) << 24) | ((c.sub as bv32) << 16) | ((c.interface as bv32) << 8) | (revision as bv32)
  }

  /** The class code of a register word whose top three bytes hold it reads back. */
  lemma ClassCodeRoundTrip(c: ClassCode, revision: bv8)
    ensures ClassCodeOf(ClassCodeWord(c, revision)) == c
  {
  }

  /** The class code and the low byte rebuild the register word. */
  lemma ClassCodeFields(reg: bv32)
    ensures ClassCodeWord(ClassCodeOf(reg), (reg & 0xff) as bv8) == reg
  {
  }

  function ClassCodeAt(config: Config, bus: bv8, device: bv8, func: bv8): ClassCode
  {
    ClassCodeOf(config(MakeAddress(bus, device, func, 0x08)))
  }

  /** `read_bus_numbers` then the secondary bus number, bits 8..15. */
  function SecondaryBus(config: Config, bus: bv8, device: bv8, func: bv8): bv8
  {
    ((config(MakeAddress(bus, device, func, 0x18)) >> 8) & 0xff) as bv8
  }

  /** `is_single_function_device`: header-type bit 7 (multi-function) clear. */
  function IsSingleFunctionDevice(headerType: bv8): (b: bool)
    ensures b <==> headerType < 0x80
  {
    headerType & 0x80 == 0
  }

  // ---- the bus scan ----------------------------------------------------------

  /** Vendor id 0xffff: no function answers at this address. */
  predicate Absent(config: Config, bus: bv8, device: bv8, func: bv8)
  {
    VendorId(config, bus, device, func) == 0xffff
  }

  /** A PCI-to-PCI bridge: class 06h, sub-class 04h. */
  predicate IsBridge(c: ClassCode)
  {
    Match2(c, 0x06, 0x04)
  }

  /**
   * The devices `scan_func` adds: the function itself and, for a bridge
   * while `fuel` lasts, everything behind its secondary bus.
   */
  function FuncDevices(config: Config, bus: bv8, device: bv8, func: bv8, fuel: nat): seq<Device>
    decreases fuel, 0, 0
  {
    var c := ClassCodeAt(config, bus, device, func);
    [Device(bus, device, func, HeaderType(config, bus, device, func), c)]
      + (if IsBridge(c) && fuel > 0 then BusDevices(config, SecondaryBus(config, bus, device, func), fuel - 1) else [])
  }

  /** The loop of `scan_device` over functions `func`..7. */
  function FuncsFrom(config: Config, bus: bv8, device: bv8, func: nat, fuel: nat): seq<Device>
    requires 1 <= func <= 8
    decreases fuel, 1, 8 - func
  {
    if func == 8 then []
    else
      (if Absent(config, bus, device, func as bv8) then [] else FuncDevices(config, bus, device, func as bv8, fuel))
        + FuncsFrom(config, bus, device, func + 1, fuel)
  }

  /** `scan_device`: function 0, then functions 1..7 of a multi-function device. */
  function DeviceFuncs(config: Config, bus: bv8, device: bv8, fuel: nat): seq<Device>
    decreases fuel, 1, 9
  {
    FuncDevices(config, bus, device, 0, fuel)
      + (if IsSingleFunctionDevice(HeaderType(config, bus, device, 0)) then [] else FuncsFrom(config, bus, device, 1, fuel))
  }

  /** The loop of `scan_bus` over devices `device`..31. */
  function DevicesFrom(config: Config, bus: bv8, device: nat, fuel: nat): seq<Device>
    requires device <= 32
    decreases fuel, 2, 32 - device
  {
    if device == 32 then []
    else
      (if Absent(config, bus, device as bv8, 0) then [] else DeviceFuncs(config, bus, device as bv8, fuel))
        + DevicesFrom(config, bus, device + 1, fuel)
  }

  /** `scan_bus`. */
  function BusDevices(config: Config, bus: bv8, fuel: nat): seq<Device>
    decreases fuel, 3, 0
  {
    DevicesFrom(config, bus, 0, fuel)
  }

  /**
   * `scan_all_bus`: bus 0 when the host bridge is a single-function
   * device, otherwise the bus numbered by each function of device 0 on
   * bus 0 that answers.
   */
  function AllDevices(config: Config, fuel: nat): seq<Device>
  {
    if IsSingleFunctionDevice(HeaderType(config, 0, 0, 0)) then BusDevices(config, 0, fuel)
    else HostFuncsFrom(config, 0, fuel)
  }

  function HostFuncsFrom(config: Config, func: nat, fuel: nat): seq<Device>
    requires func <= 8
    decreases 8 - func
  {
    if func == 8 then []
    else
      (if Absent(config, 0, 0, func as bv8) then [] else BusDevices(config, func as bv8, fuel))
        + HostFuncsFrom(config, func + 1, fuel)
  }

  /**
   * A device on the list answers at its address, has a device number
   * below 32 and a function number below 8, and carries the header type
   * and class code read from its configuration space.
   */
  ghost predicate Found(config: Config, d: Device)
  {
    && !Absent(config, d.bus, d.device, d.func)
    && d.device < 32 && d.func < 8
    && d.headerType == HeaderType(config, d.bus, d.device, d.func)
    && d.classCode == ClassCodeAt(config, d.bus, d.device, d.func)
  }

  ghost predicate AllFound(config: Config, s: seq<Device>)
  {
    forall i :: 0 <= i < |s| ==> Found(config, s[i])
  }

  lemma AllFoundConcat(config: Config, a: seq<Device>, b: seq<Device>)
    requires AllFound(config, a) && AllFound(config, b)
    ensures AllFound(config, a + b)
  {
    forall i | 0 <= i < |a + b|
      ensures Found(config, (a + b)[i])
    {
      if i >= |a| {
        assert (a + b)[i] == b[i - |a|];
      }
    }
  }

  /** Every function `scan_func` adds for an answering function is found. */
  lemma {:induction false} FuncDevicesFound(config: Config, bus: bv8, device: bv8, func: bv8, fuel: nat)
    requires device < 32 && func < 8 && !Absent(config, bus, device, func)
    ensures AllFound(config, FuncDevices(config, bus, device, func, fuel))
    decreases fuel, 0, 0
  {
    var c := ClassCodeAt(config, bus, device, func);
    var head := [Device(bus, device, func, HeaderType(config, bus, device, func), c)];
    var rest := if IsBridge(c) && fuel > 0 then BusDevices(config, SecondaryBus(config, bus, device, func), fuel - 1) else [];
    if IsBridge(c) && fuel > 0 {
      BusDevicesFound(config, SecondaryBus(config, bus, device, func), fuel - 1);
    }
    AllFoundConcat(config, head, rest);
  }

  lemma {:induction false} FuncsFromFound(config: Config, bus: bv8, device: bv8, func: nat, fuel: nat)
    requires 1 <= func <= 8 && device < 32
    ensures AllFound(config, FuncsFrom(config, bus, device, func, fuel))
    decreases fuel, 1, 8 - func
  {
    if func < 8 {
      if !Absent(config, bus, device, func as bv8) {
        FuncDevicesFound(config, bus, device, func as bv8, fuel);
      }
      FuncsFromFound(config, bus, device, func + 1, fuel);
      AllFoundConcat(config,
        if Absent(config, bus, device, func as bv8) then [] else FuncDevices(config, bus, device, func as bv8, fuel),
        FuncsFrom(config, bus, device, func + 1, fuel));
    }
  }

  lemma {:induction false} DeviceFuncsFound(config: Config, bus: bv8, device: bv8, fuel: nat)
    requires device < 32 && !Absent(config, bus, device, 0)
    ensures AllFound(config, DeviceFuncs(config, bus, device, fuel))
    decreases fuel, 1, 9
  {
    FuncDevicesFound(config, bus, device, 0, fuel);
    if !IsSingleFunctionDevice(HeaderType(config, bus, device, 0)) {
      FuncsFromFound(config, bus, device, 1, fuel);
    }
    AllFoundConcat(config, FuncDevices(config, bus, device, 0, fuel),
      if IsSingleFunctionDevice(HeaderType(config, bus, device, 0)) then [] else FuncsFrom(config, bus, device, 1, fuel));
  }

  lemma {:induction false} DevicesFromFound(config: Config, bus: bv8, device: nat, fuel: nat)
    requires device <= 32
    ensures AllFound(config, DevicesFrom(config, bus, device, fuel))
    decreases fuel, 2, 32 - device
  {
    if device < 32 {
      if !Absent(config, bus, device as bv8, 0) {
        DeviceFuncsFound(config, bus, device as bv8, fuel);
      }
      DevicesFromFound(config, bus, device + 1, fuel);
      AllFoundConcat(config,
        if Absent(config, bus, device as bv8, 0) then [] else DeviceFuncs(config, bus, device as bv8, fuel),
        DevicesFrom(config, bus, device + 1, fuel));
    }
  }

  /** Every device `scan_bus` lists answers at its address with the values read there. */
  lemma BusDevicesFound(config: Config, bus: bv8, fuel: nat)
    ensures AllFound(config, BusDevices(config, bus, fuel))
    decreases fuel, 3, 0
  {
    DevicesFromFound(config, bus, 0, fuel);
  }

  /** Every device `scan_all_bus` lists answers at its address with the values read there. */
  lemma {:induction false} AllDevicesFound(config: Config, fuel: nat)
    ensures AllFound(config, AllDevices(config, fuel))
  {
    if IsSingleFunctionDevice(HeaderType(config, 0, 0, 0)) {
      BusDevicesFound(config, 0, fuel);
    } else {
      HostFuncsFound(config, 0, fuel);
    }
  }

  lemma {:induction false} HostFuncsFound(config: Config, func: nat, fuel: nat)
    requires func <= 8
    ensures AllFound(config, HostFuncsFrom(config, func, fuel))
    decreases 8 - func
  {
    if func < 8 {
      if !Absent(config, 0, 0, func as bv8) {
        BusDevicesFound(config, func as bv8, fuel);
      }
      HostFuncsFound(config, func + 1, fuel);
      AllFoundConcat(config,
        if Absent(config, 0, 0, func as bv8) then [] else BusDevices(config, func as bv8, fuel),
        HostFuncsFrom(config, func + 1, fuel));
    }
  }

  lemma AppendAssoc(a: seq<Device>, b: seq<Device>, c: seq<Device>)
    ensures (a + b) + c == a + (b + c)
  {
  }

  /** The vector `scan_*` push onto. */
  class Scanner {
    var devices: seq<Device>

    constructor ()
      ensures devices == []
    {
      devices := [];
    }

    /** `scan_func`. */
    method ScanFunc(config: Config, bus: bv8, device: bv8, func: bv8, fuel: nat)
      modifies this
      ensures devices == old(devices) + FuncDevices(config, bus, device, func, fuel)
      decreases fuel, 0, 0
    {
      var c := ClassCodeAt(config, bus, device, func);
      devices := devices + [Device(bus, device, func, HeaderType(config, bus, device, func), c)];
      if IsBridge(c) && fuel > 0 {
        ScanBus(config, SecondaryBus(config, bus, device, func), fuel - 1);
      }
    }

    /** `scan_device`. */
    method ScanDevice(config: Config, bus: bv8, device: bv8, fuel: nat)
      modifies this
      ensures devices == old(devices) + DeviceFuncs(config, bus, device, fuel)
      decreases fuel, 1, 9
    {
      ScanFunc(config, bus, device, 0, fuel);
      if !IsSingleFunctionDevice(HeaderType(config, bus, device, 0)) {
        ScanOtherFuncs(config, bus, device, fuel);
        AppendAssoc(old(devices), FuncDevices(config, bus, device, 0, fuel), FuncsFrom(config, bus, device, 1, fuel));
      }
    }

    /** The loop of `scan_device` over functions 1..7. */
    method ScanOtherFuncs(config: Config, bus: bv8, device: bv8, fuel: nat)
      modifies this
      ensures devices == old(devices) + FuncsFrom(config, bus, device, 1, fuel)
      decreases fuel, 1, 8
    {
      var func := 1;
      while func < 8
        invariant 1 <= func <= 8
        invariant devices + FuncsFrom(config, bus, device, func, fuel)
                  == old(devices) + FuncsFrom(config, bus, device, 1, fuel)
        decreases 8 - func
      {
        ghost var before := devices;
        ghost var step := if Absent(config, bus, device, func as bv8) then [] else FuncDevices(config, bus, device, func as bv8, fuel);
        ghost var rest := FuncsFrom(config, bus, device, func + 1, fuel);
        assert FuncsFrom(config, bus, device, func, fuel) == step + rest;
        if !Absent(config, bus, device, func as bv8) {
          ScanFunc(config, bus, device, func as bv8, fuel);
        }
        assert devices == before + step;
        AppendAssoc(before, step, rest);
        func := func + 1;
      }
    }

    /** `scan_bus`. */
    method ScanBus(config: Config, bus: bv8, fuel: nat)
      modifies this
      ensures devices == old(devices) + BusDevices(config, bus, fuel)
      decreases fuel, 3, 0
    {
      var device := 0;
      while device < 32
        invariant device <= 32
        invariant devices + DevicesFrom(config, bus, device, fuel) == old(devices) + BusDevices(config, bus, fuel)
        decreases 32 - device
      {
        ghost var before := devices;
        ghost var step := if Absent(config, bus, device as bv8, 0) then [] else DeviceFuncs(config, bus, device as bv8, fuel);
        ghost var rest := DevicesFrom(config, bus, device + 1, fuel);
        assert DevicesFrom(config, bus, device, fuel) == step + rest;
        if !Absent(config, bus, device as bv8, 0) {
          ScanDevice(config, bus, device as bv8, fuel);
        }
        assert devices == before + step;
        AppendAssoc(before, step, rest);
        device := device + 1;
      }
    }

    /** `scan_all_bus`, from an empty vector. */
    method ScanAllBus(config: Config, fuel: nat)
      modifies this
      requires devices == []
      ensures devices == AllDevices(config, fuel)
    {
      if IsSingleFunctionDevice(HeaderType(config, 0, 0, 0)) {
        ScanBus(config, 0, fuel);
        return;
      }
      var func := 0;
      while func < 8
        invariant func <= 8
        invariant devices + HostFuncsFrom(config, func, fuel) == AllDevices(config, fuel)
        decreases 8 - func
      {
        ghost var before := devices;
        ghost var step := if Absent(config, 0, 0, func as bv8) then [] else BusDevices(config, func as bv8, fuel);
        ghost var rest := HostFuncsFrom(config, func + 1, fuel);
        assert HostFuncsFrom(config, func, fuel) == step + rest;
        if !Absent(config, 0, 0, func as bv8) {
          ScanBus(config, func as bv8, fuel);
        }
        assert devices == before + step;
        AppendAssoc(before, step, rest);
        func := func + 1;
      }
    }
  }

  // ---- base address registers ------------------------------------------------

  /** `calc_bar_address`: offset 0x10 + 4 * index in 32 bits, truncated to a byte. */
  function CalcBarAddress(index: bv32): (a: bv8)
    ensures index < 60 ==> a as bv32 == 0x10 + 4 * index
  {
    ((0x10 + 4 * index) & 0xff) as bv8
  }

  /** The BAR after BAR `index` (below 5) is 4 bytes further on. */
  lemma NextBar(index: bv32)
    requires index < 5
    ensures CalcBarAddress(index) + 4 == CalcBarAddress(index + 1)
  {
  }

  /**
   * `read_bar` of a device: index 6 and above is out of range; a BAR with
   * bit 2 clear is a 32-bit BAR; a 64-bit BAR takes the next register as
   * its upper half, which BAR 5 does not have.
   */
  function ReadBar(config: Config, dev: Device, index: bv32): (r: Result<bv64>)
    ensures index >= 6 ==> r == Err(IndexOutOfRange)
    ensures index < 6 ==>
      var bar := config(MakeAddress(dev.bus, dev.device, dev.func, CalcBarAddress(index)));
      && (bar & 4 == 0 ==> r == Ok(bar as bv64))
      && (bar & 4 != 0 && index == 5 ==> r == Err(IndexOutOfRange))
      && (bar & 4 != 0 && index < 5 ==>
            && r.Ok?
            && r.value & 0xffff_ffff == bar as bv64
            && r.value >> 32 == config(MakeAddress(dev.bus, dev.device, dev.func, CalcBarAddress(index + 1))) as bv64)
  {
    if index >= 6 then Err(IndexOutOfRange)
    else
      var addr := CalcBarAddress(index);
      var bar := config(MakeAddress(dev.bus, dev.device, dev.func, addr));
      if bar & 4 == 0 then Ok(bar as bv64)
      else if index >= 5 then Err(IndexOutOfRange)
      else
        NextBar(index);
        var upper := config(MakeAddress(dev.bus, dev.device, dev.func, addr + 4));
        Ok(Combine(bar as bv64, upper as bv64))
  }

  /** `bar as u64 | bar_upper << 32`: both halves read back. */
  function Combine(lower: bv64, upper: bv64): (r: bv64)
    requires lower <= 0xffff_ffff && upper <= 0xffff_ffff
    ensures r & 0xffff_ffff == lower && r >> 32 == upper
  {
    lower | (upper << 32)
  }

  // ---- MSI capability --------------------------------------------------------

  /** `multi_msg_capable`: bits 17..19 of the message-control word. */
  function MultiMsgCapable(data: bv32): (n: bv32)
    ensures n <= 7 && n == (data >> 17) & 0x7
  {
    (data >> 17) & 0x7
  }

  /** The Multiple Message Enable field, bits 20..22. */
  function MultiMsgEnable(data: bv32): (n: bv32)
    ensures n <= 7
  {
    (data >> 20) & 0x7
  }

  predicate Addr64Capable(data: bv32)
  {
    (data >> 23) & 0x1 != 0
  }

  predicate PerVectorMaskCapable(data: bv32)
  {
    (data >> 24) & 0x1 != 0
  }

  /** `set_msi_enable`: bit 16 replaced by `value` (0 or 1); the other bits kept. */
  function SetMsiEnableValue(data: bv32, value: bv32): (r: bv32)
    ensures value <= 1 ==> (r >> 16) & 1 == value && r & !0x10000 == data & !0x10000
  {
    (data & !(0x1 << 16)) | (value << 16)
  }

  /**
   * `set_multi_msg_enable`. As written the mask is 0x111 (bits 20, 24 and
   * 28) where the field is 0b111 (bits 20..22); the corrected setter
   * replaces the field and keeps every other bit.
   */
  function SetMultiMsgEnableValue(data: bv32, value: bv32, asWritten: bool): (r: bv32)
    ensures !asWritten && value <= 7 ==> MultiMsgEnable(r) == value && r & !0x700000 == data & !0x700000
  {
    var mask: bv32 := if asWritten then 0x111 else 0x7;
    (data & !(mask << 20)) | (value << 20)
  }

  /**
   * As written, a message-control word with bit 21 (two vectors enabled)
   * and bit 24 (per-vector masking) set, given 0 vectors, keeps bit 21 and
   * loses bit 24: the function still asks for more than one vector and no
   * longer reports its mask registers. The corrected setter gives 0 and
   * keeps bit 24.
   */
  lemma MultiMsgEnableMask()
    ensures SetMultiMsgEnableValue(0x1200000, 0, true) == 0x0200000
    ensures MultiMsgEnable(0x0200000) == 2 && !PerVectorMaskCapable(0x0200000)
    ensures SetMultiMsgEnableValue(0x1200000, 0, false) == 0x1000000
    ensures MultiMsgEnable(0x1000000) == 0 && PerVectorMaskCapable(0x1000000)
  {
  }

  function MinBv(a: bv32, b: bv32): bv32 { if a <= b then a else b }

  /**
   * The message-control word `configure_msi_register` writes: as many
   * vectors as the function can take and the driver asks for, and MSI
   * enabled.
   */
  function ConfiguredControl(data: bv32, numVectorExponent: bv32, asWritten: bool): bv32
  {
    var enable := MinBv(MultiMsgCapable(data), numVectorExponent);
    SetMsiEnableValue(SetMultiMsgEnableValue(data, enable, asWritten), 1)
  }

  /** The two corrected setters together, for a field value that fits. */
  lemma SetBothFields(data: bv32, enable: bv32)
    requires enable <= 7
    ensures var r := SetMsiEnableValue(SetMultiMsgEnableValue(data, enable, false), 1);
      && (r >> 16) & 1 == 1
      && (r >> 20) & 0x7 == enable
      && r & !0x710000 == data & !0x710000
  {
  }

  /**
   * With the corrected setter the written word enables MSI, enables the
   * lesser of the capable and requested vector counts, and keeps every
   * bit outside bit 16 and bits 20..22.
   */
  lemma ConfiguredControlFields(data: bv32, numVectorExponent: bv32)
    ensures var r := ConfiguredControl(data, numVectorExponent, false);
      && (r >> 16) & 1 == 1
      && MultiMsgEnable(r) == MinBv(MultiMsgCapable(data), numVectorExponent)
      && MultiMsgEnable(r) <= MultiMsgCapable(data)
      && r & !0x710000 == data & !0x710000
  {
    SetBothFields(data, MinBv(MultiMsgCapable(data), numVectorExponent));
  }

  /**
   * Multiple Message Capable is read-only: a capability placed in bits
   * 17..19 reads back, and the word `configure_msi_register` writes keeps
   * it as read.
   */
  lemma MultiMsgCapableKept(data: bv32, capable: bv32, numVectorExponent: bv32)
    requires capable <= 7
    ensures MultiMsgCapable((data & !0xe0000) | (capable << 17)) == capable
    ensures MultiMsgCapable(ConfiguredControl(data, numVectorExponent, false)) == MultiMsgCapable(data)
  {
    ConfiguredControlFields(data, numVectorExponent);
    var r := ConfiguredControl(data, numVectorExponent, false);
    assert ((r & !0x710000) >> 17) & 0x7 == (r >> 17) & 0x7;
    assert ((data & !0x710000) >> 17) & 0x7 == (data >> 17) & 0x7;
  }

  /** A configuration write: the address word and the value. */
  datatype ConfigWrite = ConfigWrite(address: bv32, value: bv32)

  /**
   * The MSI capability structure of one function, read into memory
   * (`MSICapability`).
   */
  class MsiCapability {
    var data: bv32
    var msgAddr: bv32
    var msgUpperAddr: bv32
    var msgData: bv32
    var maskBits: bv32
    var pendingBits: bv32

    /**
     * `read_msi_capability`: the 32-bit address form has the data word
     * at +8, the 64-bit form at +12; the mask and pending words follow it
     * when per-vector masking is supported, and read as 0 otherwise.
     */
    constructor Read(config: Config, dev: Device, capAddr: bv8)
      ensures data == config(MakeAddress(dev.bus, dev.device, dev.func, capAddr))
      ensures msgAddr == config(MakeAddress(dev.bus, dev.device, dev.func, capAddr + 4))
      ensures msgUpperAddr == if Addr64Capable(data) then config(MakeAddress(dev.bus, dev.device, dev.func, capAddr + 8)) else 0
      ensures msgData == config(MakeAddress(dev.bus, dev.device, dev.func, MsgDataOffset(capAddr, data)))
      ensures maskBits == if PerVectorMaskCapable(data) then config(MakeAddress(dev.bus, dev.device, dev.func, MsgDataOffset(capAddr, data) + 4)) else 0
      ensures pendingBits == if PerVectorMaskCapable(data) then config(MakeAddress(dev.bus, dev.device, dev.func, MsgDataOffset(capAddr, data) + 8)) else 0
    {
      var d := config(MakeAddress(dev.bus, dev.device, dev.func, capAddr));
      data := d;
      msgAddr := config(MakeAddress(dev.bus, dev.device, dev.func, capAddr + 4));
      msgUpperAddr := 0;
      var msgDataAddr := capAddr + 8;
      if Addr64Capable(d) {
        msgUpperAddr := config(MakeAddress(dev.bus, dev.device, dev.func, capAddr + 8));
        msgDataAddr := capAddr + 12;
      }
      msgData := config(MakeAddress(dev.bus, dev.device, dev.func, msgDataAddr));
      maskBits := 0;
      pendingBits := 0;
      if PerVectorMaskCapable(d) {
        maskBits := config(MakeAddress(dev.bus, dev.device, dev.func, msgDataAddr + 4));
        pendingBits := config(MakeAddress(dev.bus, dev.device, dev.func, msgDataAddr + 8));
      }
    }

    method SetMsiEnable(value: bv32)
      modifies this`data
      ensures data == SetMsiEnableValue(old(data), value)
    {
      data := SetMsiEnableValue(data, value);
    }

    /** `set_multi_msg_enable`, with the corrected mask. */
    method SetMultiMsgEnable(value: bv32)
      modifies this`data
      ensures data == SetMultiMsgEnableValue(old(data), value, false)
    {
      data := SetMultiMsgEnableValue(data, value, false);
    }

    /** `write_msi_capability`: the words written, in order. */
    function Writes(dev: Device, capAddr: bv8): seq<ConfigWrite>
      reads this
    {
      MsiWrites(dev, capAddr, data, msgAddr, msgUpperAddr, msgData, maskBits, pendingBits)
    }
  }

  /** The offset of the message-data word: +12 in the 64-bit address form, +8 otherwise. */
  function MsgDataOffset(capAddr: bv8, data: bv32): (o: bv8)
    ensures o == if Addr64Capable(data) then capAddr + 12 else capAddr + 8
  {
    if Addr64Capable(data) then capAddr + 12 else capAddr + 8
  }

  /**
   * `write_msi_capability`: control word and message address; the upper
   * address only in the 64-bit form; the message data; the mask and
   * pending words only with per-vector masking.
   */
  function MsiWrites(dev: Device, capAddr: bv8, data: bv32, msgAddr: bv32, msgUpperAddr: bv32,
                     msgData: bv32, maskBits: bv32, pendingBits: bv32): (w: seq<ConfigWrite>)
    ensures |w| == 3 + (if Addr64Capable(data) then 1 else 0) + (if PerVectorMaskCapable(data) then 2 else 0)
    ensures w[0] == ConfigWrite(MakeAddress(dev.bus, dev.device, dev.func, capAddr), data)
    ensures w[1] == ConfigWrite(MakeAddress(dev.bus, dev.device, dev.func, capAddr + 4), msgAddr)
    ensures Addr64Capable(data) ==> w[2] == ConfigWrite(MakeAddress(dev.bus, dev.device, dev.func, capAddr + 8), msgUpperAddr)
    ensures var k := if Addr64Capable(data) then 3 else 2;
      && w[k] == ConfigWrite(MakeAddress(dev.bus, dev.device, dev.func, MsgDataOffset(capAddr, data)), msgData)
      && (PerVectorMaskCapable(data) ==>
            && w[k + 1] == ConfigWrite(MakeAddress(dev.bus, dev.device, dev.func, MsgDataOffset(capAddr, data) + 4), maskBits)
            && w[k + 2] == ConfigWrite(MakeAddress(dev.bus, dev.device, dev.func, MsgDataOffset(capAddr, data) + 8), pendingBits))
  {
    var at := (reg: bv8) => MakeAddress(dev.bus, dev.device, dev.func, reg);
    var dataAt := MsgDataOffset(capAddr, data);
    var w := [ConfigWrite(at(capAddr), data), ConfigWrite(at(capAddr + 4), msgAddr)]
      + (if Addr64Capable(data) then [ConfigWrite(at(capAddr + 8), msgUpperAddr)] else [])
      + [ConfigWrite(at(dataAt), msgData)]
      + (if PerVectorMaskCapable(data) then [ConfigWrite(at(dataAt + 4), maskBits), ConfigWrite(at(dataAt + 8), pendingBits)] else []);
    var k := if Addr64Capable(data) then 3 else 2;
    assert w[k] == ConfigWrite(at(dataAt), msgData);
    w
  }

  /** The configured control word keeps the capability's form: its 64-bit address and per-vector masking bits. */
  lemma ConfiguredControlKeepsForm(data: bv32, numVectorExponent: bv32)
    ensures var r := ConfiguredControl(data, numVectorExponent, false);
      && (Addr64Capable(r) <==> Addr64Capable(data))
      && (PerVectorMaskCapable(r) <==> PerVectorMaskCapable(data))
  {
    var r := ConfiguredControl(data, numVectorExponent, false);
    ConfiguredControlFields(data, numVectorExponent);
    assert (r & !0x710000) >> 23 == (data & !0x710000) >> 23;
  }

  /**
   * `configure_msi_register`, corrected: read the capability, set the
   * vector count and the enable bit, replace the message address and data,
   * and write it all back.
   */
  method ConfigureMsiRegister(config: Config, dev: Device, capAddr: bv8, msgAddr: bv32, msgData: bv32, numVectorExponent: bv32)
    returns (writes: seq<ConfigWrite>)
    ensures var data := config(MakeAddress(dev.bus, dev.device, dev.func, capAddr));
      var cap := ConfiguredControl(data, numVectorExponent, false);
      |writes| == 3 + (if Addr64Capable(cap) then 1 else 0) + (if PerVectorMaskCapable(cap) then 2 else 0)
      && writes[0] == ConfigWrite(MakeAddress(dev.bus, dev.device, dev.func, capAddr), cap)
      && writes[1] == ConfigWrite(MakeAddress(dev.bus, dev.device, dev.func, capAddr + 4), msgAddr)
      && writes[if Addr64Capable(cap) then 3 else 2] == ConfigWrite(MakeAddress(dev.bus, dev.device, dev.func, MsgDataOffset(capAddr, cap)), msgData)
    ensures var data := config(MakeAddress(dev.bus, dev.device, dev.func, capAddr));
      var upper := if Addr64Capable(data) then config(MakeAddress(dev.bus, dev.device, dev.func, capAddr + 8)) else 0;
      var mask := if PerVectorMaskCapable(data) then config(MakeAddress(dev.bus, dev.device, dev.func, MsgDataOffset(capAddr, data) + 4)) else 0;
      var pending := if PerVectorMaskCapable(data) then config(MakeAddress(dev.bus, dev.device, dev.func, MsgDataOffset(capAddr, data) + 8)) else 0;
      writes == MsiWrites(dev, capAddr, ConfiguredControl(data, numVectorExponent, false), msgAddr, upper, msgData, mask, pending)
  {
    var msiCap := new MsiCapability.Read(config, dev, capAddr);
    ConfiguredControlKeepsForm(msiCap.data, numVectorExponent);
    if MultiMsgCapable(msiCap.data) <= numVectorExponent {
      msiCap.SetMultiMsgEnable(MultiMsgCapable(msiCap.data));
    } else {
      msiCap.SetMultiMsgEnable(numVectorExponent);
    }
    msiCap.SetMsiEnable(1);
    msiCap.msgAddr := msgAddr;
    msiCap.msgData := msgData;
    writes := msiCap.Writes(dev, capAddr);
  }

  /** A capability header's id (bits 0..7) and next pointer (bits 8..15). */
  function CapId(header: bv32): bv8 { (header & 0xff) as bv8 }
  function NextPtr(header: bv32): bv8 { ((header >> 8) & 0xff) as bv8 }

  /**
   * The walk of `configure_msi` over the capability list from `capAddr`,
   * for at most `fuel` headers: the last MSI (05h) and the last MSI-X
   * (11h) capability seen, 0 for none.
   */
  function CapabilityWalk(config: Config, dev: Device, capAddr: bv8, fuel: nat, msi: bv8, msix: bv8): (bv8, bv8)
    decreases fuel
  {
    if capAddr == 0 || fuel == 0 then (msi, msix)
    else
      var header := config(MakeAddress(dev.bus, dev.device, dev.func, capAddr));
      var msi' := if CapId(header) == 0x05 then capAddr else msi;
      var msix' := if CapId(header) == 0x11 then capAddr else msix;
      CapabilityWalk(config, dev, NextPtr(header), fuel - 1, msi', msix')
  }

  /** What the walk reports is a capability with that id, or 0 when none was seen. */
  lemma {:induction false} CapabilityWalkFinds(config: Config, dev: Device, capAddr: bv8, fuel: nat, msi: bv8, msix: bv8)
    requires msi == 0 || CapId(config(MakeAddress(dev.bus, dev.device, dev.func, msi))) == 0x05
    requires msix == 0 || CapId(config(MakeAddress(dev.bus, dev.device, dev.func, msix))) == 0x11
    ensures var (m, x) := CapabilityWalk(config, dev, capAddr, fuel, msi, msix);
      && (m == 0 || CapId(config(MakeAddress(dev.bus, dev.device, dev.func, m))) == 0x05)
      && (x == 0 || CapId(config(MakeAddress(dev.bus, dev.device, dev.func, x))) == 0x11)
    decreases fuel
  {
    if capAddr != 0 && fuel != 0 {
      var header := config(MakeAddress(dev.bus, dev.device, dev.func, capAddr));
      var msi' := if CapId(header) == 0x05 then capAddr else msi;
      var msix' := if CapId(header) == 0x11 then capAddr else msix;
      CapabilityWalkFinds(config, dev, NextPtr(header), fuel - 1, msi', msix');
    }
  }

  /**
   * `configure_msi`: the capability walk (the first `fuel` headers), then
   * MSI set-up when an MSI capability was found; `ok` is false where the
   * source stops at `todo!` (only MSI-X, or neither).
   */
  method ConfigureMsi(config: Config, dev: Device, msgAddr: bv32, msgData: bv32, numVectorExponent: bv32, fuel: nat)
    returns (writes: seq<ConfigWrite>, ok: bool)
    ensures var (msi, _) := CapabilityWalk(config, dev, CapabilitiesPointer(config, dev), fuel, 0, 0);
      && (ok <==> msi != 0)
      && (!ok ==> writes == [])
      && (ok ==>
            && |writes| >= 3
            && |writes| == 3 + (if Addr64Capable(writes[0].value) then 1 else 0) + (if PerVectorMaskCapable(writes[0].value) then 2 else 0)
            && writes[0].address == MakeAddress(dev.bus, dev.device, dev.func, msi)
            && writes[1].value == msgAddr
            && writes[if Addr64Capable(writes[0].value) then 3 else 2].value == msgData)
  {
    var capAddr := CapabilitiesPointer(config, dev);
    var msiCapAddr: bv8 := 0;
    var msixCapAddr: bv8 := 0;
    var steps := fuel;
    while capAddr != 0 && steps > 0
      invariant CapabilityWalk(config, dev, capAddr, steps, msiCapAddr, msixCapAddr)
                == CapabilityWalk(config, dev, CapabilitiesPointer(config, dev), fuel, 0, 0)
      decreases steps
    {
      var header := config(MakeAddress(dev.bus, dev.device, dev.func, capAddr));
      if CapId(header) == 0x05 {
        msiCapAddr := capAddr;
      } else if CapId(header) == 0x11 {
        msixCapAddr := capAddr;
      }
      capAddr := NextPtr(header);
      steps := steps - 1;
    }
    writes := [];
    ok := msiCapAddr != 0;
    if ok {
      writes := ConfigureMsiRegister(config, dev, msiCapAddr, msgAddr, msgData, numVectorExponent);
    }
  }

  /** The capabilities pointer, the low byte of offset 34h. */
  function CapabilitiesPointer(config: Config, dev: Device): bv8
  {
    (config(MakeAddress(dev.bus, dev.device, dev.func, 0x34)) & 0xff) as bv8
  }

  datatype TriggerMode = Edge | Level

  datatype DeliveryMode = Fixed | LowestPriority | Smi | Nmi | Init | ExtInt

  /** The delivery-mode discriminants, bits 8..10 of the message data. */
  function DeliveryCode(m: DeliveryMode): (c: bv32)
    ensures c <= 7
  {
    match m
    case Fixed => 0
    case LowestPriority => 1
    case Smi => 2
    case Nmi => 4
    case Init => 5
    case ExtInt => 7
  }

  /**
   * The message address of `configure_msi_fixed_destination`: the 0xFEE
   * interrupt window with the destination APIC id in bits 12..19.
   */
  function FixedMsgAddr(apicId: bv8): (a: bv32)
    ensures a >> 20 == 0xfee && (a >> 12) & 0xff == apicId as bv32 && a & 0xfff == 0
  {
    0xfee00000 | ((apicId as bv32) << 12)
  }

  /**
   * The message data: the vector in bits 0..7, the delivery mode in bits
   * 8..10, and for level trigger bits 14 (assert) and 15 (level) set.
   */
  function FixedMsgData(trigger: TriggerMode, delivery: DeliveryMode, vector: bv8): (d: bv32)
    ensures d & 0xff == vector as bv32
    ensures (d >> 8) & 0x7 == DeliveryCode(delivery)
    ensures (d >> 14) & 0x3 == if trigger == Level then 3 else 0
    ensures d & !0xc7ff == 0
  {
    MsgData(DeliveryCode(delivery), vector as bv32, trigger == Level)
  }

  /** The message data on 32-bit words: `code` in bits 8..10, `vector` in bits 0..7, bits 14 and 15 when `level`. */
  function MsgData(code: bv32, vector: bv32, level: bool): (d: bv32)
    requires code <= 7 && vector <= 0xff
    ensures d & 0xff == vector && (d >> 8) & 0x7 == code
    ensures (d >> 14) & 0x3 == if level then 3 else 0
    ensures d & !0xc7ff == 0
  {
    var high: bv32 := if level then 0xc000 else 0;
    var d := (code << 8) | vector | high;
    MsgDataVector(code, vector, high);
    MsgDataCode(code, vector, high);
    MsgDataLevel(code, vector, high);
    MsgDataRest(code, vector, high);
    d
  }

  lemma MsgDataVector(code: bv32, vector: bv32, high: bv32)
    requires code <= 7 && vector <= 0xff && (high == 0 || high == 0xc000)
    ensures ((code << 8) | vector | high) & 0xff == vector
  {
  }

  lemma MsgDataCode(code: bv32, vector: bv32, high: bv32)
    requires code <= 7 && vector <= 0xff && (high == 0 || high == 0xc000)
    ensures (((code << 8) | vector | high) >> 8) & 0x7 == code
  {
  }

  lemma MsgDataLevel(code: bv32, vector: bv32, high: bv32)
    requires code <= 7 && vector <= 0xff && (high == 0 || high == 0xc000)
    ensures (((code << 8) | vector | high) >> 14) & 0x3 == high >> 14
  {
  }

  lemma MsgDataRest(code: bv32, vector: bv32, high: bv32)
    requires code <= 7 && vector <= 0xff && (high == 0 || high == 0xc000)
    ensures ((code << 8) | vector | high) & !0xc7ff == 0
  {
  }

  /** `configure_msi_fixed_destination`. */
  method ConfigureMsiFixedDestination(config: Config, dev: Device, apicId: bv8, trigger: TriggerMode,
                                      delivery: DeliveryMode, vector: bv8, numVectorExponent: bv32, fuel: nat)
    returns (writes: seq<ConfigWrite>, ok: bool)
    ensures var (msi, _) := CapabilityWalk(config, dev, CapabilitiesPointer(config, dev), fuel, 0, 0);
      && (ok <==> msi != 0)
      && (ok ==>
            && |writes| >= 3
            && |writes| == 3 + (if Addr64Capable(writes[0].value) then 1 else 0) + (if PerVectorMaskCapable(writes[0].value) then 2 else 0)
            && writes[1].value == FixedMsgAddr(apicId)
            && writes[if Addr64Capable(writes[0].value) then 3 else 2].value == FixedMsgData(trigger, delivery, vector))
  {
    writes, ok := ConfigureMsi(config, dev, FixedMsgAddr(apicId), FixedMsgData(trigger, delivery, vector), numVectorExponent, fuel);
  }
}
