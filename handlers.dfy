// kernel/src/usb/trb.rs, the `on_event` handlers of the three event TRBs, and
// the dispatch of `process_event` in kernel/src/usb/controller.rs.
//
// A Port Status Change event moves a port through reset and slot enabling. A
// Command Completion event addresses the device of a new slot, starts its
// initialisation once it is addressed, or selects the boot protocol once its
// endpoints are configured. A Transfer event either delivers interrupt-IN
// data to the keyboard or mouse handler and re-arms the transfer, or
// completes one of the control transfers the device issued (recognised by
// the setup TRB recorded under the event's TRB pointer).
//
// The memory a handler dereferences is a parameter: the command TRB a
// completion event points to, the TRB a transfer event points to, and the
// device memory the allocator hands to `address_deivce`. A handler returns
// `ok == false` where the source panics or, in the configuration walk,
// never returns.

module Handlers {
  import opened Common
  import opened Trb
  import opened MemoryPool
  import opened Registers
  import opened Device
  import opened Controller
  import opened Events

  // ---- Transfer events -----------------------------------------------------

  /** `as i8`: the two's-complement value of a byte. */
  function SignedByte(b: bv8): (v: int)
    ensures -128 <= v < 128
    ensures (v + 256) % 256 == b as int
  {
    if b < 0x80 then b as int else b as int - 256
  }

  /**
   * The handler call an interrupt-IN report makes, by the boot protocol of
   * the default interface: 2 calls the mouse handler with the buttons and
   * the two signed displacements, 1 calls the keyboard handler with the
   * modifier byte and the six key codes, any other protocol calls nothing.
   */
  function ReportOf(protocol: bv16, buf: seq<bv8>): (r: seq<Report>)
    requires |buf| == BUF_LEN
    ensures |r| == (if protocol == 1 || protocol == 2 then 1 else 0)
    ensures protocol == 2 ==>
      && r[0].MouseReport? && r[0].buttons == buf[0]
      && (r[0].dx + 256) % 256 == buf[1] as int && (r[0].dy + 256) % 256 == buf[2] as int
      && -128 <= r[0].dx < 128 && -128 <= r[0].dy < 128
    ensures protocol == 1 ==>
      && r[0].KeyboardReport? && r[0].modifier == buf[0] && |r[0].keys| == 6
      && forall i :: 0 <= i < 6 ==> r[0].keys[i] == buf[i + 2]
  {
    if protocol == 2 then [MouseReport(buf[0], SignedByte(buf[1]), SignedByte(buf[2]))]
    else if protocol == 1 then [KeyboardReport(buf[0], buf[2..8])]
    else []
  }

  /** Delivers the report in the device buffer to the handler of its protocol. */
  method DeliverReport(xhc: XhcController, dev: XhciDevice)
    requires dev.Valid()
    modifies xhc`reports
    ensures xhc.reports == old(xhc.reports) + ReportOf(dev.classes[dev.default].protocol, dev.buf[..])
  {
    var protocol := dev.classes[dev.default].protocol;
    if protocol == 2 {
      xhc.reports := xhc.reports + [MouseReport(dev.buf[0], SignedByte(dev.buf[1]), SignedByte(dev.buf[2]))];
    } else if protocol == 1 {
      xhc.reports := xhc.reports + [KeyboardReport(dev.buf[0], dev.buf[2..8])];
    }
  }

  /**
   * The DCI `set_normal_trb` uses for interface `i`: the IN direction of
   * endpoint `i + 1`, i.e. `(i + 1) * 2 + 1`.
   */
  function InterruptInDci(i: ClassIndex): (dci: nat)
    ensures 3 <= dci <= NUM_RINGS && dci % 2 == 1
  {
    (i + 1) * 2 + 1
  }

  /**
   * For the interfaces whose endpoint number fits the three bits the
   * configuration walk reads, it is the index the walk gives endpoint
   * `i + 1` IN: the interrupt ring re-armed is the one the walk configured.
   */
  lemma InterruptInIsEndpointIn(i: ClassIndex)
    requires i < 7
    ensures InterruptInDci(i) == Dci(0x80 | (i + 1) as bv8)
  {
    var address := 0x80 | (i + 1) as bv8;
    assert address & 0x7 == (i + 1) as bv8 && address >> 7 == 1;
  }

  /**
   * `set_normal_trb`: a Normal TRB for the whole buffer on the default
   * interface's interrupt-IN ring, then that DCI on the device's doorbell.
   * `ok` is false where `doorbell()` panics (address 0), after the push.
   */
  method SetNormalTrb(dev: XhciDevice) returns (ok: bool)
    requires dev.Valid()
    modifies dev.rings[InterruptInDci(dev.default) - 1], dev.rings[InterruptInDci(dev.default) - 1].table, dev.mmio
    ensures var ring := dev.rings[InterruptInDci(dev.default) - 1];
      && ring.pushed == old(ring.pushed) + [NormalTrb(dev.bufAddress, BUF_LEN as bv32)]
      && (ring.index, ring.cycle) == Advance(old(ring.index), old(ring.cycle))
    ensures ok <==> dev.doorbellAddress != 0
    ensures dev.mmio.writes == old(dev.mmio.writes)
      + (if ok then [DoorbellWrite(dev.slotId as nat, DoorbellValue(InterruptInDci(dev.default) as bv8, 0))] else [])
  {
    var dci := InterruptInDci(dev.default);
    dev.rings[dci - 1].Push(NormalTrb(dev.bufAddress, BUF_LEN as bv32));
    if dev.doorbellAddress == 0 {
      return false;
    }
    dev.mmio.Ring(dev.slotId as nat, dci as bv8, 0);
    ok := true;
  }

  /** What the setup TRB of a finished control transfer asked for. */
  datatype Request = DeviceDescriptor | ConfigurationDescriptor | SetProtocol | OtherRequest

  /**
   * The transfer handler's test of the setup TRB: GET_DESCRIPTOR (6) with
   * wValue 0x0100 (device descriptor 0), GET_DESCRIPTOR of descriptor type
   * 2 (configuration), SET_PROTOCOL (11), anything else.
   */
  function Classify(setup: Trb): (r: Request)
    ensures var p := SetupOf(setup);
      && (r == DeviceDescriptor <==> p.request == 6 && p.value == 0x0100)
      && (r == ConfigurationDescriptor <==> p.request == 6 && p.value >> 8 == 2)
      && (r == SetProtocol <==> p.request == 11)
  {
    var request := (setup.w0 >> 8) & 0xff;
    if request == 6 && setup.w0 >> 16 == 0x0100 then DeviceDescriptor
    else if request == 6 && setup.w0 >> 24 == 2 then ConfigurationDescriptor
    else if request == 11 then SetProtocol
    else OtherRequest
  }

  /**
   * The handler recognises the requests the device issues: `start_init`'s
   * device descriptor request, the configuration request that follows it
   * and `set_protocol_boot`'s SET_PROTOCOL.
   */
  lemma ClassifyRecognisesRequests(num: bv8, interface: bv16)
    ensures Classify(GetDescriptorSetupTrb(1, 0)) == DeviceDescriptor
    ensures Classify(GetDescriptorSetupTrb(2, num)) == ConfigurationDescriptor
    ensures Classify(SetProtocolSetupTrb(interface)) == SetProtocol
    ensures num != 0 ==> Classify(GetDescriptorSetupTrb(1, num)) == OtherRequest
  {
    var v := ((2 as bv16) << 8) | num as bv16;
    assert v >> 8 == 2;
  }

  /**
   * The device descriptor has arrived: record bNumConfigurations and the
   * endpoint 0 max packet size (bMaxPacketSize0, where 9 stands for the 512
   * bytes of a SuperSpeed device); a device that declares its class at the
   * device level (bDeviceClass != 0) is logged as not implemented,
   * otherwise configuration descriptor 0 is requested.
   */
  method DeviceDescriptorDone(xhc: XhcController, dev: XhciDevice) returns (ok: bool)
    requires dev.Valid() && xhc.setupMap.Valid()
    modifies dev`numConfiguration, dev`maxPacketSize, dev.rings[0], dev.rings[0].table, dev.mmio,
             xhc.setupMap, xhc`diagnostics
    ensures xhc.setupMap.Valid()
    ensures dev.numConfiguration == dev.buf[17]
    ensures dev.maxPacketSize == if dev.buf[7] == 9 then 512 else dev.buf[7] as bv16
    ensures dev.buf[4] != 0 ==>
      && ok && xhc.diagnostics == old(xhc.diagnostics) + [Error(NotImplemented)]
      && xhc.setupMap.entries == old(xhc.setupMap.entries) && dev.rings[0].pushed == old(dev.rings[0].pushed)
      && dev.mmio.writes == old(dev.mmio.writes)
    ensures dev.buf[4] == 0 ==>
      var key := old(StatusSlot(dev.rings[0]));
      && xhc.diagnostics == old(xhc.diagnostics)
      && (ok <==>
            (key in old(xhc.setupMap.entries) || |old(xhc.setupMap.entries)| < SETUP_TRB_MAP_CAPACITY)
            && dev.doorbellAddress != 0)
      && (key in old(xhc.setupMap.entries) || |old(xhc.setupMap.entries)| < SETUP_TRB_MAP_CAPACITY ==>
            xhc.setupMap.entries == old(xhc.setupMap.entries)[key := GetDescriptorSetupTrb(2, 0)])
  {
    dev.numConfiguration := dev.buf[17];
    dev.maxPacketSize := if dev.buf[7] == 9 then 512 else dev.buf[7] as bv16;
    if dev.buf[4] != 0 {
      xhc.diagnostics := xhc.diagnostics + [Error(NotImplemented)];
      return true;
    }
    ok := dev.GetDescriptor(2, 0, xhc.setupMap);
  }

  /**
   * The configuration descriptor has arrived: the input control context is
   * zeroed with only A0 (the slot context) added, the input slot context
   * copies the output one, the descriptors are walked, and a Configure
   * Endpoint command for the input context is queued and doorbell 0 rung.
   * The result is the walk's outcome; on a finished walk A0 is still
   * added, and every endpoint context whose add flag is clear is as it was,
   * so the command covers every context the walk wrote.
   */
  method ConfigurationDone(xhc: XhcController, dev: XhciDevice, slot: bv8) returns (r: WalkOutcome)
    requires dev.Valid() && xhc.commandRing.Valid()
    modifies dev`classes, dev`inputControl, dev`inputSlot, dev`inputEndpoints,
             xhc.commandRing, xhc.commandRing.table, xhc.mmio
    ensures dev.inputSlot == dev.deviceSlot
    ensures r == WalkFrom(dev.buf[..], 0, dev.buf[2] as nat,
                          WalkState(old(dev.classes), FlagBit(0), old(dev.inputEndpoints)), RingBases(dev.rings))
    ensures r.Finished? ==> Held(dev) == r.state && dev.inputControl == ZERO_CONTEXT[1 := r.state.addFlags]
    ensures r.Finished? ==> Flagged(dev.inputControl[1], 0)
    ensures r.Finished? ==> forall dci: bv5 :: 0 < dci && !Flagged(dev.inputControl[1], dci) ==>
      dev.inputEndpoints[dci as nat - 1] == old(dev.inputEndpoints)[dci as nat - 1]
    ensures r.Finished? ==>
      && xhc.commandRing.pushed == old(xhc.commandRing.pushed) + [ConfigureEndpointTrb(dev.inputContextAddress, slot).value]
      && xhc.mmio.writes == old(xhc.mmio.writes) + [DoorbellWrite(0, DoorbellValue(0, 0))]
    ensures !r.Finished? ==>
      xhc.commandRing.pushed == old(xhc.commandRing.pushed) && xhc.mmio.writes == old(xhc.mmio.writes)
  {
    dev.inputControl := ZERO_CONTEXT[1 := 1];
    dev.inputSlot := dev.deviceSlot;
    assert FlagBit(0) == 1;
    ghost var start := Held(dev);
    r := ScanConfiguration(dev);
    if !r.Finished? {
      return;
    }
    WalkCovers(dev.buf[..], dev.buf[2] as nat, start, RingBases(dev.rings));
    var command := ConfigureEndpointTrb(dev.inputContextAddress, slot);
    xhc.commandRing.Push(command.value);
    xhc.mmio.Ring(0, 0, 0);
  }

  /** The enumeration invariant depends only on the phases and the addressing port. */
  lemma OneAtATimeOfPhases(s: PortState, t: PortState)
    requires OneAtATime(s) && t.phases == s.phases && t.addressing == s.addressing
    ensures OneAtATime(t)
  {
  }

  /**
   * A transfer event whose pointer has no setup TRB recorded: a Normal TRB
   * means interrupt-IN data, which goes to the handler of the default
   * interface's protocol before the transfer is re-armed; any other TRB is
   * logged as not implemented.
   */
  method InterruptInDone(xhc: XhcController, dev: XhciDevice, slot: bv8, pointed: Trb) returns (ok: bool)
    requires xhc.Valid() && xhc.DeviceOk(dev, slot as nat)
    modifies xhc`reports, xhc`diagnostics, dev.rings[InterruptInDci(dev.default) - 1],
             dev.rings[InterruptInDci(dev.default) - 1].table, dev.mmio
    ensures xhc.Valid()
    ensures xhc.reports == old(xhc.reports)
      + (if Ty(pointed) == NORMAL then ReportOf(dev.classes[dev.default].protocol, old(dev.buf[..])) else [])
    ensures xhc.diagnostics == old(xhc.diagnostics) + (if Ty(pointed) == NORMAL then [] else [Error(NotImplemented)])
    ensures Ty(pointed) != NORMAL ==> ok && dev.mmio.writes == old(dev.mmio.writes)
    ensures Ty(pointed) == NORMAL ==> (ok <==> dev.doorbellAddress != 0)
  {
    if Ty(pointed) == NORMAL {
      DeliverReport(xhc, dev);
      ok := SetNormalTrb(dev);
    } else {
      xhc.diagnostics := xhc.diagnostics + [Error(NotImplemented)];
      ok := true;
    }
    assert xhc.Shape();
  }

  /**
   * A transfer event for the control transfer whose setup TRB was `setup`:
   * the request it made selects the completion step; an unrecognised one is
   * logged as not implemented. Interrupt reports are not delivered here.
   */
  method ControlTransferDone(xhc: XhcController, dev: XhciDevice, slot: bv8, setup: Trb) returns (ok: bool)
    requires xhc.Valid() && xhc.DeviceOk(dev, slot as nat)
    modifies xhc`diagnostics, xhc.setupMap, xhc.mmio, xhc.commandRing, xhc.commandRing.table, xhc.Repr
    ensures xhc.Valid() && xhc.reports == old(xhc.reports)
    ensures Classify(setup) == ConfigurationDescriptor && ok ==>
      && Flagged(dev.inputControl[1], 0)
      && forall dci: bv5 :: 0 < dci && !Flagged(dev.inputControl[1], dci) ==>
           dev.inputEndpoints[dci as nat - 1] == old(dev.inputEndpoints)[dci as nat - 1]
    ensures Classify(setup) == OtherRequest ==> ok && xhc.diagnostics == old(xhc.diagnostics) + [Error(NotImplemented)]
  {
    match Classify(setup) {
      case DeviceDescriptor =>
        ok := DeviceDescriptorStep(xhc, dev, slot);
      case ConfigurationDescriptor =>
        ok := ConfigurationStep(xhc, dev, slot);
      case SetProtocol =>
        ok := SetProtocolStep(xhc, dev, slot);
      case OtherRequest =>
        xhc.diagnostics := xhc.diagnostics + [Error(NotImplemented)];
        ok := true;
        assert xhc.Shape();
    }
  }

  /** `DeviceDescriptorDone` keeps the controller's invariant. */
  method DeviceDescriptorStep(xhc: XhcController, dev: XhciDevice, slot: bv8) returns (ok: bool)
    requires xhc.Valid() && xhc.DeviceOk(dev, slot as nat)
    modifies xhc`diagnostics, xhc.setupMap, xhc.mmio, xhc.Repr
    ensures xhc.Valid()
  {
    ok := DeviceDescriptorDone(xhc, dev);
    assert xhc.Shape();
  }

  /** `ConfigurationDone` keeps the controller's invariant; `ok` is a finished walk. */
  method ConfigurationStep(xhc: XhcController, dev: XhciDevice, slot: bv8) returns (ok: bool)
    requires xhc.Valid() && xhc.DeviceOk(dev, slot as nat)
    modifies xhc.mmio, xhc.commandRing, xhc.commandRing.table, xhc.Repr
    ensures xhc.Valid()
    ensures ok ==>
      && Flagged(dev.inputControl[1], 0)
      && forall dci: bv5 :: 0 < dci && !Flagged(dev.inputControl[1], dci) ==>
           dev.inputEndpoints[dci as nat - 1] == old(dev.inputEndpoints)[dci as nat - 1]
  {
    var r := ConfigurationDone(xhc, dev, slot);
    ok := r.Finished?;
    assert xhc.Shape();
  }

  /** The SET_PROTOCOL transfer arms the interrupt-IN transfer; the invariant is kept. */
  method SetProtocolStep(xhc: XhcController, dev: XhciDevice, slot: bv8) returns (ok: bool)
    requires xhc.Valid() && xhc.DeviceOk(dev, slot as nat)
    modifies xhc.mmio, xhc.Repr
    ensures xhc.Valid()
    ensures ok <==> dev.doorbellAddress != 0
  {
    ok := SetNormalTrb(dev);
    assert xhc.Shape();
  }


  /**
   * `TransferEventTRB::on_event` with `pointed` the TRB the event points
   * to. `ok` is false where it panics: no device in the event's slot, a
   * full setup map or an unset doorbell, or a configuration walk that
   * panics or never ends. The setup TRB recorded under the event's pointer
   * is removed and, if there was one, completes its control transfer;
   * otherwise the event is interrupt-IN data. Phases and the addressing
   * port are never touched.
   */
  method OnTransfer(xhc: XhcController, event: Trb, pointed: Trb) returns (ok: bool)
    requires xhc.Valid()
    modifies xhc`diagnostics, xhc`reports, xhc.setupMap, xhc.mmio, xhc.commandRing, xhc.commandRing.table, xhc.Repr
    ensures xhc.Valid()
    ensures old(OneAtATime(xhc.PortView())) ==> OneAtATime(xhc.PortView())
    ensures ok ==> SlotField(event) as nat < |xhc.devices| && xhc.devices[SlotField(event)].Some?
    ensures Pointer(event) in old(xhc.setupMap.entries) ==> xhc.reports == old(xhc.reports)
    ensures ok && Pointer(event) !in old(xhc.setupMap.entries) ==>
      && xhc.setupMap.entries == old(xhc.setupMap.entries)
      && xhc.diagnostics == old(xhc.diagnostics) + (if Ty(pointed) == NORMAL then [] else [Error(NotImplemented)])
  {
    var slot := SlotField(event);
    if slot as nat >= |xhc.devices| || xhc.devices[slot].None? {
      return false;
    }
    var dev := xhc.devices[slot].value;
    assert xhc.DeviceOk(dev, slot as nat);
    ghost var view := xhc.PortView();
    ok := TransferFor(xhc, dev, slot, event, pointed);
    if old(OneAtATime(xhc.PortView())) {
      OneAtATimeOfPhases(view, xhc.PortView());
    }
  }

  /** The transfer handler once the event's device is found. */
  method TransferFor(xhc: XhcController, dev: XhciDevice, slot: bv8, event: Trb, pointed: Trb) returns (ok: bool)
    requires xhc.Valid() && xhc.DeviceOk(dev, slot as nat)
    modifies xhc`diagnostics, xhc`reports, xhc.setupMap, xhc.mmio, xhc.commandRing, xhc.commandRing.table, xhc.Repr
    ensures xhc.Valid()
    ensures Pointer(event) in old(xhc.setupMap.entries) ==> xhc.reports == old(xhc.reports)
    ensures Pointer(event) !in old(xhc.setupMap.entries) ==>
      && xhc.setupMap.entries == old(xhc.setupMap.entries)
      && xhc.diagnostics == old(xhc.diagnostics) + (if Ty(pointed) == NORMAL then [] else [Error(NotImplemented)])
      && xhc.reports == old(xhc.reports)
         + (if Ty(pointed) == NORMAL then ReportOf(dev.classes[dev.default].protocol, old(dev.buf[..])) else [])
  {
    var setup := xhc.setupMap.Remove(Pointer(event));
    if setup.None? {
      ok := InterruptInDone(xhc, dev, slot, pointed);
    } else {
      ok := ControlTransferDone(xhc, dev, slot, setup.value);
    }
  }


  // ---- Command Completion events --------------------------------------------

  /**
   * The Enable Slot command completed: the addressing port must be in
   * EnablingSlot (else the handler panics), and `address_deivce` runs for
   * the new slot on that port with `mem` the memory it allocates.
   */
  method EnableSlotCompleted(xhc: XhcController, slot: bv8, mem: DeviceMemory) returns (ok: bool)
    requires xhc.Valid() && ValidMemory(mem)
    modifies xhc`devices, xhc`Repr, xhc`dcbaa, xhc.phases, xhc.mmio, xhc.commandRing, xhc.commandRing.table
    ensures xhc.Valid()
    ensures ok <==>
      && old(xhc.phases[xhc.addressingPort]) == EnablingSlot && xhc.addressingPort != 0
      && slot as nat < |xhc.devices| && DefaultMaxPacket(PortSpeed(xhc.ports[xhc.addressingPort])).Ok?
    ensures ok ==> xhc.PortView() == AddressDeviceSpec(old(xhc.PortView()), xhc.addressingPort)
    ensures ok && old(OneAtATime(xhc.PortView())) ==> OneAtATime(xhc.PortView())
  {
    if xhc.phases[xhc.addressingPort] != EnablingSlot {
      return false;
    }
    ghost var before := xhc.PortView();
    ok := xhc.AddressDevice(slot, xhc.addressingPort, mem);
    if ok && OneAtATime(before) {
      AddressDeviceKeepsOneAtATime(before);
    }
  }

  /**
   * The Address Device command for `port` completed: it must hold the
   * addressing turn and be in AddressingDevice (else the handler panics).
   * The turn is released, the lowest WaitingAddressed port is reset if it
   * is connected (`port_sc(0)` panics if that port is 0), and `port` moves
   * to InitializingDevice.
   */
  method Addressed(xhc: XhcController, port: PortNumber) returns (ok: bool)
    requires xhc.phases.Length == NUM_PORTS
    modifies xhc`addressingPort, xhc`diagnostics, xhc.phases, xhc.mmio
    ensures var r := AddressedSpec(old(xhc.PortView()), port, xhc.ports);
      ok == r.Some? && (ok ==> xhc.PortView() == r.value)
    ensures ok && old(OneAtATime(xhc.PortView())) ==> OneAtATime(xhc.PortView())
  {
    ghost var s := xhc.PortView();
    ok := port == xhc.addressingPort && xhc.phases[port] == AddressingDevice;
    if ok {
      xhc.addressingPort := 0;
      var next := FirstWaiting(xhc.phases[..]);
      ok := next.None? || next.value != 0;
      if ok && next.Some? && IsConnected(xhc.ports[next.value]) {
        var reset := xhc.ResetPort(next.value);
      }
      if ok {
        xhc.phases[port] := InitializingDevice;
        if OneAtATime(s) {
          AddressedKeepsOneAtATime(s, port, xhc.ports);
        }
      }
    }
  }


  /**
   * The Address Device command of `slot` completed: the slot's device (the
   * handler panics if there is none) names its root hub port in the output
   * slot context, that port is `Addressed`, and the device starts its
   * initialisation by requesting its device descriptor.
   */
  method AddressDeviceCompleted(xhc: XhcController, slot: bv8) returns (ok: bool, port: PortNumber)
    requires xhc.Valid()
    modifies xhc`addressingPort, xhc`diagnostics, xhc.phases, xhc.mmio, xhc.setupMap, xhc.Repr
    ensures xhc.Valid()
    ensures ok ==>
      && slot as nat < |xhc.devices| && xhc.devices[slot].Some?
      && port == RootHubPortNum(old(xhc.devices[slot].value.deviceSlot)) as nat
    ensures ok ==>
      var r := AddressedSpec(old(xhc.PortView()), port, xhc.ports);
      && r.Some?
      && xhc.PortView() == r.value.(writes := r.value.writes + [DoorbellWrite(slot as nat, DoorbellValue(1, 0))])
    ensures ok && old(OneAtATime(xhc.PortView())) ==> OneAtATime(xhc.PortView())
  {
    port := 0;
    ok := slot as nat < |xhc.devices| && xhc.devices[slot].Some?;
    if ok {
      var dev := xhc.devices[slot].value;
      assert xhc.DeviceOk(dev, slot as nat);
      port := RootHubPortNum(dev.deviceSlot) as nat;
      ok := AddressedDevice(xhc, dev, slot, port);
    }
  }

  /** The device in `slot`, on root hub port `port`, is addressed and starts its initialisation. */
  method AddressedDevice(xhc: XhcController, dev: XhciDevice, slot: bv8, port: PortNumber) returns (ok: bool)
    requires xhc.Valid() && xhc.DeviceOk(dev, slot as nat)
    modifies xhc`addressingPort, xhc`diagnostics, xhc.phases, xhc.mmio, xhc.setupMap, dev.rings[0], dev.rings[0].table
    ensures xhc.Valid()
    ensures ok ==>
      var r := AddressedSpec(old(xhc.PortView()), port, xhc.ports);
      && r.Some?
      && xhc.PortView() == r.value.(writes := r.value.writes + [DoorbellWrite(slot as nat, DoorbellValue(1, 0))])
    ensures ok && old(OneAtATime(xhc.PortView())) ==> OneAtATime(xhc.PortView())
  {
    ok := Addressed(xhc, port);
    if ok {
      ghost var addressed := xhc.PortView();
      ok := StartDevice(xhc, dev, slot);
      if ok && OneAtATime(addressed) {
        OneAtATimeOfPhases(addressed, xhc.PortView());
      }
    }
  }



  /** `start_init` of the device in `slot`, seen from the controller: one doorbell write at most. */
  method StartDevice(xhc: XhcController, dev: XhciDevice, slot: bv8) returns (ok: bool)
    requires xhc.Valid() && xhc.DeviceOk(dev, slot as nat)
    modifies xhc.setupMap, xhc.mmio, dev.rings[0], dev.rings[0].table
    ensures xhc.Valid()
    ensures var key := old(StatusSlot(dev.rings[0]));
      && (ok <==> key in old(xhc.setupMap.entries) || |old(xhc.setupMap.entries)| < SETUP_TRB_MAP_CAPACITY)
      && (ok ==> xhc.setupMap.entries == old(xhc.setupMap.entries)[key := GetDescriptorSetupTrb(1, 0)])
    ensures xhc.PortView() == old(xhc.PortView()).(writes := old(xhc.mmio.writes)
      + if ok then [DoorbellWrite(slot as nat, DoorbellValue(1, 0))] else [])
  {
    ok := dev.StartInit(xhc.setupMap);
    assert xhc.Shape();
  }

  /**
   * The Configure Endpoint command of `slot` completed: the slot's device
   * (the handler panics if there is none) selects the boot protocol of its
   * first boot interface.
   */
  method ConfigureEndpointCompleted(xhc: XhcController, slot: bv8) returns (ok: bool)
    requires xhc.Valid()
    modifies xhc.setupMap, xhc.mmio, xhc.Repr
    ensures xhc.Valid()
    ensures ok ==> slot as nat < |xhc.devices| && xhc.devices[slot].Some?
    ensures ok ==>
      var dev := xhc.devices[slot].value;
      FirstBootInterface(dev.classes).Some? ==> dev.default == FirstBootInterface(dev.classes).value
  {
    if slot as nat >= |xhc.devices| || xhc.devices[slot].None? {
      return false;
    }
    var dev := xhc.devices[slot].value;
    assert xhc.DeviceOk(dev, slot as nat);
    ok := dev.SetProtocolBoot(xhc.setupMap);
    assert xhc.Shape();
  }


  /**
   * `CommandCompletionEventTRB::on_event` with `command` the TRB the event
   * points to: an Enable Slot, Address Device or Configure Endpoint command
   * goes to its handler, any other command is logged as not implemented.
   * `mem` is the memory `address_deivce` allocates. Every handler keeps the
   * invariant that at most the addressing port is busy.
   */
  method OnCommandCompletion(xhc: XhcController, event: Trb, command: Trb, mem: DeviceMemory) returns (ok: bool)
    requires xhc.Valid() && ValidMemory(mem)
    modifies xhc`devices, xhc`Repr, xhc`dcbaa, xhc`addressingPort, xhc`diagnostics, xhc.phases, xhc.mmio,
             xhc.commandRing, xhc.commandRing.table, xhc.setupMap, xhc.Repr
    ensures xhc.Valid()
    ensures ok && old(OneAtATime(xhc.PortView())) ==> OneAtATime(xhc.PortView())
    ensures ok ==> old(xhc.diagnostics) <= xhc.diagnostics
    ensures (Ty(command) != ENABLE_SLOT_COMMAND && Ty(command) != ADDRESS_DEVICE_COMMAND
             && Ty(command) != CONFIGURE_ENDPOINT_COMMAND) ==>
      ok && xhc.PortView() == old(xhc.PortView()).(diagnostics := old(xhc.diagnostics) + [Error(NotImplemented)])
  {
    var ty := Ty(command);
    var slot := SlotField(event);
    ghost var before := xhc.PortView();
    if ty == ENABLE_SLOT_COMMAND {
      ok := EnableSlotCompleted(xhc, slot, mem);
    } else if ty == ADDRESS_DEVICE_COMMAND {
      var port;
      ok, port := AddressDeviceCompleted(xhc, slot);
    } else if ty == CONFIGURE_ENDPOINT_COMMAND {
      ok := ConfigureEndpointCompleted(xhc, slot);
      if ok && OneAtATime(before) {
        OneAtATimeOfPhases(before, xhc.PortView());
      }
    } else {
      xhc.diagnostics := xhc.diagnostics + [Error(NotImplemented)];
      ok := true;
      assert xhc.Shape();
    }
  }

  // ---- Port Status Change events ------------------------------------------

  /**
   * `PortStatusChangeEventTRB::on_event`: follows `PortStatusChangeSpec` on
   * the port the event names (`port_sc(0)` panics for port 0).
   */
  method OnPortStatusChange(xhc: XhcController, event: Trb) returns (ok: bool)
    requires xhc.phases.Length == NUM_PORTS && xhc.commandRing.Valid()
    modifies xhc`addressingPort, xhc`diagnostics, xhc.phases, xhc.mmio, xhc.commandRing, xhc.commandRing.table
    ensures var r := PortStatusChangeSpec(old(xhc.PortView()), PortId(event) as nat, xhc.ports);
      ok == r.Some? && (ok ==> xhc.PortView() == r.value)
    ensures ok && old(OneAtATime(xhc.PortView())) ==> OneAtATime(xhc.PortView())
  {
    var id := PortId(event) as nat;
    ghost var before := xhc.PortView();
    if id == 0 {
      return false;
    }
    ok := PortChange(xhc, id);
    if OneAtATime(before) {
      PortStatusChangeKeepsOneAtATime(before, id, xhc.ports);
    }
  }

  /** The phase dispatch of `on_event` for a change on port `id`. */
  method PortChange(xhc: XhcController, id: PortNumber) returns (ok: bool)
    requires xhc.phases.Length == NUM_PORTS && xhc.commandRing.Valid() && id != 0
    modifies xhc`addressingPort, xhc`diagnostics, xhc.phases, xhc.mmio, xhc.commandRing, xhc.commandRing.table
    ensures var r := PortStatusChangeSpec(old(xhc.PortView()), id, xhc.ports);
      ok == r.Some? && (ok ==> xhc.PortView() == r.value)
  {
    ghost var before := xhc.PortView();
    var word := xhc.ports[id];
    match xhc.phases[id] {
      case NotConnected =>
        if IsConnected(word) {
          assert PortStatusChangeSpec(before, id, xhc.ports) == ResetPortSpec(before, id, word);
          ok := xhc.ResetPort(id);
        } else {
          ok := true;
        }
      case ResettingPort =>
        assert PortStatusChangeSpec(before, id, xhc.ports) == EnableSlotSpec(before, id, word);
        ok := xhc.EnableSlot(id);
      case _ =>
        xhc.diagnostics := xhc.diagnostics + [Error(InvalidPhase)];
        ok := true;
    }
  }


  // ---- process_event -------------------------------------------------------

  /**
   * The dispatch of `process_event` for the event TRB `e`: each of the
   * three event types goes to its handler (a Command Completion whose
   * completion code is not 1, Success, is logged first); any other type is
   * logged as not implemented.
   */
  method Dispatch(xhc: XhcController, e: Trb, command: Trb, pointed: Trb, mem: DeviceMemory) returns (ok: bool)
    requires xhc.Valid() && ValidMemory(mem)
    modifies xhc`devices, xhc`Repr, xhc`dcbaa, xhc`addressingPort, xhc`diagnostics, xhc`reports, xhc.phases,
             xhc.mmio, xhc.commandRing, xhc.commandRing.table, xhc.setupMap, xhc.Repr
    ensures xhc.Valid()
    ensures ok && old(OneAtATime(xhc.PortView())) ==> OneAtATime(xhc.PortView())
    ensures Ty(e) == PORT_STATUS_CHANGE_EVENT ==>
      var r := PortStatusChangeSpec(old(xhc.PortView()), PortId(e) as nat, xhc.ports);
      ok == r.Some? && (ok ==> xhc.PortView() == r.value)
    ensures Ty(e) == COMMAND_COMPLETION_EVENT && CompletionCode(e) != 1 && ok ==>
      old(xhc.diagnostics) + [CompletionError(CompletionCode(e) as bv32)] <= xhc.diagnostics
    ensures (Ty(e) != PORT_STATUS_CHANGE_EVENT && Ty(e) != COMMAND_COMPLETION_EVENT && Ty(e) != TRANSFER_EVENT) ==>
      ok && xhc.PortView() == old(xhc.PortView()).(diagnostics := old(xhc.diagnostics) + [Error(NotImplemented)])
      && xhc.reports == old(xhc.reports)
  {
    if Cast(e, PORT_STATUS_CHANGE_EVENT).Some? {
      ok := OnPortStatusChange(xhc, e);
    } else if Cast(e, COMMAND_COMPLETION_EVENT).Some? {
      if CompletionCode(e) != 1 {
        xhc.diagnostics := xhc.diagnostics + [CompletionError(CompletionCode(e) as bv32)];
        assert xhc.Shape();
      }
      ok := OnCommandCompletion(xhc, e, command, mem);
    } else if Cast(e, TRANSFER_EVENT).Some? {
      ok := OnTransfer(xhc, e, pointed);
    } else {
      xhc.diagnostics := xhc.diagnostics + [Error(NotImplemented)];
      ok := true;
    }
  }

  /**
   * `process_event`: takes the next event TRB, if the event ring holds one,
   * and dispatches it; then, if USBSTS (`usbsts`) reports the controller
   * halted, logs it and answers false, otherwise true. `ok` is false where
   * a handler panics or hangs, and then the loop does not go on.
   */
  method ProcessEvent(xhc: XhcController, usbsts: bv32, command: Trb, pointed: Trb, mem: DeviceMemory)
    returns (ok: bool, running: bool)
    requires xhc.Valid() && ValidMemory(mem)
    modifies xhc`devices, xhc`Repr, xhc`dcbaa, xhc`addressingPort, xhc`diagnostics, xhc`reports, xhc.phases,
             xhc.mmio, xhc.commandRing, xhc.commandRing.table, xhc.setupMap, xhc.Repr, xhc.eventRing
    ensures xhc.Valid()
    ensures running <==> ok && !Hchalted(usbsts)
    ensures ok && old(OneAtATime(xhc.PortView())) ==> OneAtATime(xhc.PortView())
    ensures ok && Hchalted(usbsts) ==> |xhc.diagnostics| > 0 && xhc.diagnostics[|xhc.diagnostics| - 1] == Halted
    ensures var pending := old(Cycle(xhc.eventRing.table[xhc.eventRing.index]) == xhc.eventRing.cycle);
      && (pending ==> (xhc.eventRing.index, xhc.eventRing.cycle)
                       == ConsumerAdvance(old(xhc.eventRing.index), old(xhc.eventRing.cycle)))
      && (!pending ==> xhc.eventRing.index == old(xhc.eventRing.index) && xhc.eventRing.cycle == old(xhc.eventRing.cycle))
    ensures old(Cycle(xhc.eventRing.table[xhc.eventRing.index]) != xhc.eventRing.cycle) ==>
      ok && xhc.PortView() == old(xhc.PortView()).(diagnostics := old(xhc.diagnostics) + if Hchalted(usbsts) then [Halted] else [])
  {
    var trb := xhc.eventRing.Next();
    ok := true;
    if trb.Some? {
      ok := Dispatch(xhc, trb.value, command, pointed, mem);
    }
    if ok && Hchalted(usbsts) {
      xhc.diagnostics := xhc.diagnostics + [Halted];
      assert xhc.Shape();
    }
    running := ok && !Hchalted(usbsts);
  }
}
