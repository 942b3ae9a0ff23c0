// kernel/src/usb/device.rs: a USB device behind an xHCI slot. The pure part
// is the encoding of the control-transfer TRBs (the 8-byte SETUP packet of
// section 9.3 of the USB 2.0 specification carried as immediate data in a
// Setup Stage TRB, section 6.4.1.2 of xHCI), the slot context's root hub
// port field, and the choice of the boot-protocol interface. The device
// object owns 31 transfer rings, a 512-byte data buffer and an input
// context; `get_descriptor` and `set_protocol_boot` push a setup, data and
// status TRB onto ring 0, record the setup TRB under the address the status
// TRB occupies, and ring the device's doorbell. The 32- and 64-byte context
// variants differ only in their stride, so one layout of eight words per
// context is modelled.

module Device {
  import opened Common
  import opened Trb
  import opened MemoryPool
  import opened Registers

  const MAX_SLOTS_EN: nat := 8
  /** Bytes in each device's data buffer (`buf: [u8; 512]`). */
  const BUF_LEN: nat := 512
  const NUM_CLASSES: nat := 15
  const NUM_RINGS: nat := 31

  datatype ClassDriver = ClassDriver(classCode: bv16, subClass: bv16, protocol: bv16, interface: bv16)

  /** An interface that speaks the HID boot protocol: class 3, subclass 1. */
  predicate IsBootInterface(c: ClassDriver)
  {
    c.classCode == 3 && c.subClass == 1
  }

  /** `SlotContext::root_hub_port_num`: bits 16..23 of word 1. */
  function RootHubPortNum(slotContext: seq<bv32>): (port: bv8)
    requires |slotContext| >= 2
    ensures port as bv32 == (slotContext[1] >> 16) & 0xff
  {
    ((slotContext[1] >> 16) & 0xff) as bv8
  }

  /** Word 1 as `address_deivce` writes it reads back as the same port. */
  lemma RootHubPortRoundTrip(port: bv8, slotContext: seq<bv32>)
    requires |slotContext| >= 2 && slotContext[1] == (port as bv32) << 16
    ensures RootHubPortNum(slotContext) == port
  {
  }

  /**
   * The port number is exactly bits 16..23 of word 1: placing a port there
   * reads it back whatever the other fields of the word hold, and the rest
   * of the word does not change it.
   */
  lemma RootHubPortField(port: bv8, other: bv32, slotContext: seq<bv32>)
    requires |slotContext| >= 2
    ensures slotContext[1] == (other & !0xff_0000) | ((port as bv32) << 16) ==> RootHubPortNum(slotContext) == port
    ensures RootHubPortNum(slotContext) == RootHubPortNum(slotContext[1 := slotContext[1] & 0xff_0000])
  {
  }

  // ---- control transfers --------------------------------------------------

  datatype SetupPacket = SetupPacket(requestType: bv8, request: bv8, value: bv16, index: bv16, length: bv16)

  /** The SETUP packet carried in words 0 and 1 of a Setup Stage TRB. */
  function SetupOf(t: Trb): (p: SetupPacket)
    ensures p.requestType as bv32 == t.w0 & 0xff && p.request as bv32 == (t.w0 >> 8) & 0xff
    ensures p.value as bv32 == t.w0 >> 16
    ensures p.index as bv32 == t.w1 & 0xffff && p.length as bv32 == t.w1 >> 16
  {
    SetupPacket((t.w0 & 0xff) as bv8, ((t.w0 >> 8) & 0xff) as bv8, (t.w0 >> 16) as bv16,
                (t.w1 & 0xffff) as bv16, (t.w1 >> 16) as bv16)
  }

  /** The Transfer Type field of a Setup Stage TRB (3: IN data stage, 0: none). */
  function TransferType(t: Trb): bv32
  {
    (t.w3 >> 16) & 0x3
  }

  /**
   * `get_descriptor`'s setup TRB: GET_DESCRIPTOR (request 6, device to
   * host) for descriptor type `ty`, index `num`, up to 512 bytes, eight
   * bytes of immediate data, an IN data stage.
   */
  function GetDescriptorSetupTrb(ty: bv8, num: bv8): (t: Trb)
    ensures Ty(t) == SETUP_STAGE && t.w2 == 8 && t.w3 & 0x40 == 0x40 && TransferType(t) == 3
    ensures SetupOf(t) == SetupPacket(0x80, 6, ((ty as bv16) << 8) | num as bv16, 0, BUF_LEN as bv16)
  {
    Trb(0x80 | (6 << 8) | ((ty as bv32) << 24) | ((num as bv32) << 16),
        (BUF_LEN as bv32) << 16, 8, (2 << 10) | (3 << 16) | (1 << 6))
  }

  /**
   * `set_protocol_boot`'s setup TRB: SET_PROTOCOL (request 11, class
   * request to an interface) selecting the boot protocol (value 0) on the
   * given interface (section 7.2.6 of HID 1.11).
   */
  function SetProtocolSetupTrb(interface: bv16): (t: Trb)
    ensures Ty(t) == SETUP_STAGE && t.w2 == 8 && t.w3 & 0x40 == 0x40 && TransferType(t) == 0
    ensures SetupOf(t) == SetupPacket(0x21, 11, 0, interface, 0)
  {
    Trb(0x21 | (11 << 8), interface as bv32, 8, (2 << 10) | (1 << 6))
  }

  /** A Data Stage TRB over the whole buffer; DIR (bit 16) set for IN. */
  function DataStageTrb(buffer: bv64, dirIn: bool): (t: Trb)
    ensures Ty(t) == DATA_STAGE && !Cycle(t)
    ensures Pointer(t) == buffer && t.w2 == BUF_LEN as bv32
    ensures (t.w3 >> 16) & 1 == (if dirIn then 1 else 0)
  {
    Trb((buffer & 0xffff_ffff) as bv32, (buffer >> 32) as bv32, BUF_LEN as bv32,
        (if dirIn then 1 << 16 else 0) | (3 << 10))
  }

  /** A Status Stage TRB with Interrupt On Completion; DIR set for IN. */
  function StatusStageTrb(dirIn: bool): (t: Trb)
    ensures Ty(t) == STATUS_STAGE && !Cycle(t) && t.w3 & 0x20 == 0x20
    ensures (t.w3 >> 16) & 1 == (if dirIn then 1 else 0)
  {
    Trb(0, 0, 0, (4 << 10) | (1 << 5) | (if dirIn then 1 << 16 else 0))
  }

  /** The first boot-protocol interface at or after `k`. */
  function FirstBootInterfaceFrom(classes: seq<ClassDriver>, k: nat): (r: Option<nat>)
    requires k <= |classes|
    decreases |classes| - k
    ensures r.Some? ==> k <= r.value < |classes| && IsBootInterface(classes[r.value])
    ensures r.Some? ==> forall j :: k <= j < r.value ==> !IsBootInterface(classes[j])
    ensures r.None? <==> forall j :: k <= j < |classes| ==> !IsBootInterface(classes[j])
  {
    if k == |classes| then None
    else if IsBootInterface(classes[k]) then Some(k)
    else FirstBootInterfaceFrom(classes, k + 1)
  }

  /** `set_protocol_boot`'s choice: the first class with class 3, subclass 1. */
  function FirstBootInterface(classes: seq<ClassDriver>): (r: Option<nat>)
    ensures r.Some? ==> r.value < |classes| && IsBootInterface(classes[r.value])
    ensures r.Some? ==> forall j :: 0 <= j < r.value ==> !IsBootInterface(classes[j])
    ensures r.None? <==> forall j :: 0 <= j < |classes| ==> !IsBootInterface(classes[j])
  {
    FirstBootInterfaceFrom(classes, 0)
  }

  /** The address the status TRB of a control transfer will occupy: two slots on. */
  function StatusSlot(ring: ProducerRing): bv64
    reads ring
    requires ring.Valid()
  {
    ring.SlotAddress(Pushes(ring.index, ring.cycle, 2).0)
  }

  /**
   * The shared tail of `get_descriptor` and `set_protocol_boot`: push the
   * setup and data TRBs onto ring 0, record the setup TRB under the
   * address of the slot the status TRB is about to occupy, push the
   * status TRB and ring target 1 (the default control endpoint) on the
   * slot's doorbell. `ok` is false where the source panics: the map is
   * full (`unwrap`), or the doorbell address is 0 (`doorbell()`), in which
   * case the three TRBs are already on the ring and nothing is written.
   */
  method ControlTransfer(ring: ProducerRing, setup: Trb, data: Trb, status: Trb, setupMap: SetupTrbMap,
                         mmio: MmioLog, slot: bv8, doorbellAddress: nat) returns (ok: bool)
    requires ring.Valid() && setupMap.Valid()
    modifies ring, ring.table, setupMap, mmio
    ensures setupMap.Valid()
    ensures var key := old(StatusSlot(ring));
      ok <==> (key in old(setupMap.entries) || |old(setupMap.entries)| < SETUP_TRB_MAP_CAPACITY) && doorbellAddress != 0
    ensures var key := old(StatusSlot(ring));
      key in old(setupMap.entries) || |old(setupMap.entries)| < SETUP_TRB_MAP_CAPACITY ==>
        setupMap.entries == old(setupMap.entries)[key := setup]
        && ring.pushed == old(ring.pushed) + [setup, data, status]
        && (ring.index, ring.cycle) == Pushes(old(ring.index), old(ring.cycle), 3)
    ensures mmio.writes == old(mmio.writes) + (if ok then [DoorbellWrite(slot as nat, DoorbellValue(1, 0))] else [])
  {
    PushTwo(ring, setup, data);
    var key := ring.Center();
    ok := setupMap.Insert(key, setup);
    if !ok {
      return;
    }
    ghost var before := ring.pushed;
    ring.Push(status);
    AppendTwoOne(before, setup, data, status);
    if doorbellAddress == 0 {
      return false;
    }
    mmio.Ring(slot as nat, 1, 0);
  }

  lemma AppendTwoOne<T>(s: seq<T>, a: T, b: T, c: T)
    ensures s + [a, b] + [c] == s + [a, b, c]
  {
  }

  /** Addresses the driver allocates for a new device. */
  datatype DeviceMemory = DeviceMemory(
    inputContext: bv64,
    deviceContext: bv64,
    buffer: bv64,
    rings: seq<bv64>)

  predicate ValidMemory(m: DeviceMemory)
  {
    m.inputContext & 0x3f == 0 && m.deviceContext & 0x3f == 0 && |m.rings| == NUM_RINGS
    && forall k :: 0 <= k < |m.rings| ==> m.rings[k] & 0x3f == 0
  }

  /** An eight-word context (slot, endpoint or input control context). */
  type Context = s: seq<bv32> | |s| == 8 witness [0, 0, 0, 0, 0, 0, 0, 0]

  type ClassTable = s: seq<ClassDriver> | |s| == NUM_CLASSES
    witness seq(NUM_CLASSES, _ => ClassDriver(0, 0, 0, 0))

  type ClassIndex = i: nat | i < NUM_CLASSES

  type EndpointContexts = s: seq<Context> | |s| == NUM_RINGS
    witness seq(NUM_RINGS, _ => ZERO_CONTEXT)

  const ZERO_CONTEXT: Context := [0, 0, 0, 0, 0, 0, 0, 0]

  class XhciDevice {
    const slotId: bv8
    /** The address of the slot's doorbell register; 0 when not set up. */
    const doorbellAddress: nat
    /** Where the device's doorbell writes go. */
    const mmio: MmioLog
    /** The 512-byte buffer the controller fills with IN data. */
    const buf: array<bv8>
    const bufAddress: bv64
    var numConfiguration: bv8
    var maxPacketSize: bv16
    var classes: ClassTable
    /** Index of the boot-protocol class driver in `classes`. */
    var default: ClassIndex
    const rings: seq<ProducerRing>
    const inputContextAddress: bv64
    const deviceContextAddress: bv64
    var inputControl: Context
    var inputSlot: Context
    var inputEndpoints: EndpointContexts
    /** The output slot context, written by the controller. */
    var deviceSlot: Context
    /** The buffer, the rings and their tables. */
    ghost const Footprint: set<object>

    ghost predicate Valid()
    {
      buf.Length == BUF_LEN && buf in Footprint && |rings| == NUM_RINGS
      && inputContextAddress & 0x3f == 0
      && forall k :: 0 <= k < NUM_RINGS ==> rings[k].Valid() && rings[k] in Footprint && rings[k].table in Footprint
    }

    /**
     * The device `address_deivce` stores in its slot: zeroed buffer,
     * classes and contexts, and 31 fresh transfer rings.
     */
    constructor (slot: bv8, doorbellAt: nat, log: MmioLog, mem: DeviceMemory)
      requires ValidMemory(mem)
      ensures Valid() && fresh(Footprint)
      ensures slotId == slot && doorbellAddress == doorbellAt && mmio == log
      ensures forall i :: 0 <= i < BUF_LEN ==> buf[i] == 0
      ensures forall k :: 0 <= k < NUM_RINGS ==> rings[k].index == 0 && rings[k].cycle && rings[k].base == mem.rings[k]
      ensures bufAddress == mem.buffer && inputContextAddress == mem.inputContext
      ensures deviceContextAddress == mem.deviceContext
      ensures numConfiguration == 0 && maxPacketSize == 0 && default == 0
      ensures classes == seq(NUM_CLASSES, _ => ClassDriver(0, 0, 0, 0))
      ensures inputControl == ZERO_CONTEXT && inputSlot == ZERO_CONTEXT && deviceSlot == ZERO_CONTEXT
      ensures inputEndpoints == seq(NUM_RINGS, _ => ZERO_CONTEXT)
    {
      slotId := slot;
      doorbellAddress := doorbellAt;
      mmio := log;
      var b := new bv8[BUF_LEN](_ => 0);
      buf := b;
      bufAddress := mem.buffer;
      numConfiguration := 0;
      maxPacketSize := 0;
      classes := seq(NUM_CLASSES, _ => ClassDriver(0, 0, 0, 0));
      default := 0;
      var rs: seq<ProducerRing> := [];
      ghost var fp: set<object> := {b};
      while |rs| < NUM_RINGS
        invariant |rs| <= NUM_RINGS && fresh(fp) && b in fp
        invariant forall k :: 0 <= k < |rs| ==> rs[k].Valid() && rs[k] in fp && rs[k].table in fp
        invariant forall k :: 0 <= k < |rs| ==> rs[k].index == 0 && rs[k].cycle && rs[k].base == mem.rings[k]
        invariant forall i :: 0 <= i < BUF_LEN ==> b[i] == 0
      {
        var r := new ProducerRing(mem.rings[|rs|]);
        rs := rs + [r];
        fp := fp + {r, r.table};
      }
      rings := rs;
      Footprint := fp;
      inputContextAddress := mem.inputContext;
      deviceContextAddress := mem.deviceContext;
      inputControl := ZERO_CONTEXT;
      inputSlot := ZERO_CONTEXT;
      inputEndpoints := seq(NUM_RINGS, _ => ZERO_CONTEXT);
      deviceSlot := ZERO_CONTEXT;
    }

    /** `get_descriptor(ty, num)`: GET_DESCRIPTOR with an IN data stage. */
    method GetDescriptor(ty: bv8, num: bv8, setupMap: SetupTrbMap) returns (ok: bool)
      requires Valid() && setupMap.Valid()
      modifies rings[0], rings[0].table, setupMap, mmio
      ensures setupMap.Valid()
      ensures var key := old(StatusSlot(rings[0]));
        ok <==> (key in old(setupMap.entries) || |old(setupMap.entries)| < SETUP_TRB_MAP_CAPACITY) && doorbellAddress != 0
      ensures var key := old(StatusSlot(rings[0]));
        key in old(setupMap.entries) || |old(setupMap.entries)| < SETUP_TRB_MAP_CAPACITY ==>
          setupMap.entries == old(setupMap.entries)[key := GetDescriptorSetupTrb(ty, num)]
          && rings[0].pushed == old(rings[0].pushed)
             + [GetDescriptorSetupTrb(ty, num), DataStageTrb(bufAddress, true), StatusStageTrb(false)]
      ensures mmio.writes == old(mmio.writes) + (if ok then [DoorbellWrite(slotId as nat, DoorbellValue(1, 0))] else [])
    {
      ok := ControlTransfer(rings[0], GetDescriptorSetupTrb(ty, num), DataStageTrb(bufAddress, true),
                            StatusStageTrb(false), setupMap, mmio, slotId, doorbellAddress);
    }

    /** `start_init`: request the device descriptor. */
    method StartInit(setupMap: SetupTrbMap) returns (ok: bool)
      requires Valid() && setupMap.Valid()
      modifies rings[0], rings[0].table, setupMap, mmio
      ensures setupMap.Valid()
      ensures var key := old(StatusSlot(rings[0]));
        ok <==> (key in old(setupMap.entries) || |old(setupMap.entries)| < SETUP_TRB_MAP_CAPACITY) && doorbellAddress != 0
      ensures var key := old(StatusSlot(rings[0]));
        key in old(setupMap.entries) || |old(setupMap.entries)| < SETUP_TRB_MAP_CAPACITY ==>
          setupMap.entries == old(setupMap.entries)[key := GetDescriptorSetupTrb(1, 0)]
      ensures mmio.writes == old(mmio.writes) + (if ok then [DoorbellWrite(slotId as nat, DoorbellValue(1, 0))] else [])
    {
      ok := GetDescriptor(1, 0, setupMap);
    }

    /**
     * `set_protocol_boot`: with no boot interface nothing happens; otherwise
     * `default` becomes the first boot interface and SET_PROTOCOL(boot) is
     * sent to it.
     */
    method SetProtocolBoot(setupMap: SetupTrbMap) returns (ok: bool)
      requires Valid() && setupMap.Valid()
      modifies this`default, rings[0], rings[0].table, setupMap, mmio
      ensures setupMap.Valid()
      ensures FirstBootInterface(classes).None? ==>
        ok && default == old(default) && rings[0].pushed == old(rings[0].pushed)
        && setupMap.entries == old(setupMap.entries) && mmio.writes == old(mmio.writes)
      ensures FirstBootInterface(classes).Some? ==>
        var i := FirstBootInterface(classes).value;
        var key := old(StatusSlot(rings[0]));
        default == i
        && (ok <==> (key in old(setupMap.entries) || |old(setupMap.entries)| < SETUP_TRB_MAP_CAPACITY) && doorbellAddress != 0)
        && (key in old(setupMap.entries) || |old(setupMap.entries)| < SETUP_TRB_MAP_CAPACITY ==>
              setupMap.entries == old(setupMap.entries)[key := SetProtocolSetupTrb(classes[i].interface)]
              && rings[0].pushed == old(rings[0].pushed)
                 + [SetProtocolSetupTrb(classes[i].interface), DataStageTrb(bufAddress, false), StatusStageTrb(true)])
        && mmio.writes == old(mmio.writes) + (if ok then [DoorbellWrite(slotId as nat, DoorbellValue(1, 0))] else [])
    {
      var driver := FirstBootInterface(classes);
      if driver.None? {
        return true;
      }
      default := driver.value;
      ok := ControlTransfer(rings[0], SetProtocolSetupTrb(classes[driver.value].interface),
                            DataStageTrb(bufAddress, false), StatusStageTrb(true), setupMap,
                            mmio, slotId, doorbellAddress);
    }
  }

  function Zeros(n: nat): (z: seq<bv32>)
    ensures |z| == n && forall i :: 0 <= i < n ==> z[i] == 0
  {
    seq(n, _ => 0)
  }

  /** `device_mem_init`: MAX_SLOTS_EN + 1 device slots, all empty. */
  method DeviceMemInit() returns (slots: seq<Option<XhciDevice>>)
    ensures |slots| == MAX_SLOTS_EN + 1
    ensures forall i :: 0 <= i < |slots| ==> slots[i].None?
  {
    slots := [];
    var outer := 0;
    while outer < MAX_SLOTS_EN + 1
      invariant outer <= MAX_SLOTS_EN + 1 && |slots| == outer
      invariant forall i :: 0 <= i < |slots| ==> slots[i].None?
    {
      slots := slots + [None];
      outer := outer + 1;
    }
  }
}
