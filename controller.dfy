// kernel/src/usb/controller.rs: the xHCI host controller driver's port
// enumeration. Each of the 256 root hub ports carries a `ConfigPhase`; at
// most one port at a time goes through reset, slot enabling and addressing,
// and that port is `addressing_port`. Ports that ask meanwhile are parked
// as WaitingAddressed and picked up, lowest number first, when the
// addressing port's Address Device command completes (kernel/src/usb/trb.rs).
//
// The PORTSC words the driver reads belong to the hardware: `ports` holds
// them and the model never writes it; the words the driver writes to PORTSC
// and to the doorbells are appended to the shared `MmioLog`. The phase
// logic is specified on values (`PortState`) by the functions below, and
// each method of `XhcController` is proved to follow them.

module Controller {
  import opened Common
  import opened Trb
  import opened MemoryPool
  import opened Registers
  import opened Device

  datatype ConfigPhase = Broken | NotConnected | WaitingAddressed | ResettingPort | EnablingSlot
                       | AddressingDevice | InitializingDevice | ConfiguringEndpoints | Configured

  const NUM_PORTS: nat := 256

  /**
   * What `error!` reports: an error code, the completion code of a failed
   * command, or that the controller halted.
   */
  datatype Diagnostic = Error(code: Code) | CompletionError(completionCode: bv32) | Halted

  /** A phase in which a port holds the controller's single addressing turn. */
  predicate Busy(p: ConfigPhase)
  {
    p == ResettingPort || p == EnablingSlot || p == AddressingDevice
  }

  type Phases = s: seq<ConfigPhase> | |s| == NUM_PORTS witness seq(NUM_PORTS, _ => NotConnected)

  /** A root hub port number as the driver stores it (a u8). */
  type PortNumber = n: nat | n < NUM_PORTS

  type PortWords = s: seq<bv32> | |s| == NUM_PORTS witness seq(NUM_PORTS, _ => 0)

  /** The enumeration state: phases, `addressing_port`, MMIO writes issued and errors logged. */
  datatype PortState = PortState(phases: Phases, addressing: PortNumber, writes: seq<MmioWrite>, diagnostics: seq<Diagnostic>)

  /** The state `initialize` leaves: every port NotConnected, nobody addressing. */
  function InitialPortState(): PortState
  {
    PortState(seq(NUM_PORTS, _ => NotConnected), 0, [], [])
  }

  /**
   * The enumeration invariant: a port is busy only while it is the
   * addressing port (which is never port 0).
   */
  predicate OneAtATime(s: PortState)
  {
    forall p :: 0 <= p < NUM_PORTS && Busy(s.phases[p]) ==> s.addressing != 0 && p == s.addressing
  }

  lemma InitialStateOneAtATime()
    ensures OneAtATime(InitialPortState())
    ensures forall p :: 0 <= p < NUM_PORTS ==> !Busy(InitialPortState().phases[p])
  {
  }

  /** `port_sc(0)` underflows on `port as u64 - 1` and panics; the others are at 0x400 + 0x10 * (port - 1). */
  function PortRegisterOffset(port: PortNumber): (r: Option<nat>)
    ensures r.Some? <==> port != 0
    ensures r.Some? ==> r.value % 0x10 == 0 && 0x400 <= r.value < 0x400 + 0x10 * 255
  {
    if port == 0 then None else Some(0x400 + 0x10 * (port - 1))
  }

  /** Distinct ports have distinct registers. */
  lemma PortRegistersDistinct(a: PortNumber, b: PortNumber)
    requires a != 0 && b != 0 && a != b
    ensures PortRegisterOffset(a) != PortRegisterOffset(b)
  {
  }

  /**
   * `reset_port(port)` when PORTSC reads `word`. None where it panics:
   * with no addressing port, `port_sc(0)` underflows.
   */
  function ResetPortSpec(s: PortState, port: PortNumber, word: bv32): (r: Option<PortState>)
    ensures r.Some? <==> s.addressing != 0 || port != 0
    ensures r.Some? ==> forall q :: 0 <= q < NUM_PORTS && q != port ==> r.value.phases[q] == s.phases[q]
    ensures r.Some? ==> s.diagnostics <= r.value.diagnostics
  {
    var p := port;
    if s.addressing != 0 then
      Some(s.(phases := s.phases[p := WaitingAddressed]))
    else if port == 0 then
      None
    else if s.phases[p] == NotConnected || s.phases[p] == WaitingAddressed then
      Some(s.(phases := s.phases[p := ResettingPort], addressing := port,
              writes := s.writes + [PortscWrite(port, PortResetValue(word))]))
    else
      Some(s.(diagnostics := s.diagnostics + [Error(InvalidPhase)]))
  }

  /**
   * The three outcomes of `reset_port`: parked while another port is
   * addressed; taking the addressing turn and writing the reset from
   * NotConnected or WaitingAddressed; otherwise only an InvalidPhase log.
   */
  lemma ResetPortOutcomes(s: PortState, port: PortNumber, word: bv32)
    requires port != 0
    ensures var r := ResetPortSpec(s, port, word).value;
      && (s.addressing != 0 ==>
            r.phases[port] == WaitingAddressed && r.addressing == s.addressing
            && r.writes == s.writes && r.diagnostics == s.diagnostics)
      && (s.addressing == 0 && s.phases[port] in {NotConnected, WaitingAddressed} ==>
            r.phases[port] == ResettingPort && r.addressing == port
            && r.writes == s.writes + [PortscWrite(port, PortResetValue(word))] && r.diagnostics == s.diagnostics)
      && (s.addressing == 0 && s.phases[port] !in {NotConnected, WaitingAddressed} ==>
            r == s.(diagnostics := s.diagnostics + [Error(InvalidPhase)]))
  {
  }

  lemma ResetPortKeepsOneAtATime(s: PortState, port: PortNumber, word: bv32)
    requires OneAtATime(s) && ResetPortSpec(s, port, word).Some?
    ensures OneAtATime(ResetPortSpec(s, port, word).value)
  {
  }

  /** The state part of `enable_slot(port)` when PORTSC reads `word`; None where `port_sc(0)` panics. */
  function EnableSlotSpec(s: PortState, port: PortNumber, word: bv32): (r: Option<PortState>)
    ensures r.Some? <==> port != 0
    ensures r.Some? ==> r.value.addressing == s.addressing
    ensures r.Some? ==> forall q :: 0 <= q < NUM_PORTS && q != port ==> r.value.phases[q] == s.phases[q]
  {
    if port == 0 then None
    else if IsEnabled(word) && IsPortResetChanged(word) then
      Some(s.(phases := s.phases[port := EnablingSlot],
              writes := s.writes + [PortscWrite(port, ClearPortResetChangedValue(word)),
                                    DoorbellWrite(0, DoorbellValue(0, 0))]))
    else
      Some(s.(diagnostics := s.diagnostics + [Error(InvalidPhase)]))
  }

  /** Enabling the slot of the port that holds the addressing turn keeps the invariant. */
  lemma EnableSlotKeepsOneAtATime(s: PortState, port: PortNumber, word: bv32)
    requires OneAtATime(s) && port != 0 && Busy(s.phases[port])
    ensures OneAtATime(EnableSlotSpec(s, port, word).value)
  {
  }

  /**
   * `PortStatusChangeEventTRB::on_event` for port `id`, given the PORTSC
   * words of all ports: a NotConnected port that is connected is reset, a
   * ResettingPort port gets its slot enabled, any other phase is logged.
   */
  function PortStatusChangeSpec(s: PortState, id: PortNumber, ports: seq<bv32>): (r: Option<PortState>)
    requires |ports| == NUM_PORTS
    ensures r.Some? <==> id != 0
  {
    if id == 0 then None
    else
      var word := ports[id];
      match s.phases[id]
      case NotConnected =>
        if IsConnected(word) then ResetPortSpec(s, id, word) else Some(s)
      case ResettingPort =>
        EnableSlotSpec(s, id, word)
      case _ =>
        Some(s.(diagnostics := s.diagnostics + [Error(InvalidPhase)]))
  }

  lemma PortStatusChangeKeepsOneAtATime(s: PortState, id: PortNumber, ports: seq<bv32>)
    requires |ports| == NUM_PORTS && OneAtATime(s) && id != 0
    ensures OneAtATime(PortStatusChangeSpec(s, id, ports).value)
  {
    var word := ports[id];
    if s.phases[id] == NotConnected && IsConnected(word) {
      ResetPortKeepsOneAtATime(s, id, word);
    } else if s.phases[id] == ResettingPort {
      EnableSlotKeepsOneAtATime(s, id, word);
    }
  }

  /** The lowest-numbered WaitingAddressed port at or after `k`. */
  function FirstWaitingFrom(phases: Phases, k: nat): (r: Option<nat>)
    requires k <= NUM_PORTS
    decreases NUM_PORTS - k
    ensures r.Some? ==> k <= r.value < NUM_PORTS && phases[r.value] == WaitingAddressed
    ensures r.Some? ==> forall q :: k <= q < r.value ==> phases[q] != WaitingAddressed
    ensures r.None? <==> forall q :: k <= q < NUM_PORTS ==> phases[q] != WaitingAddressed
  {
    if k == NUM_PORTS then None
    else if phases[k] == WaitingAddressed then Some(k)
    else FirstWaitingFrom(phases, k + 1)
  }

  function FirstWaiting(phases: Phases): (r: Option<nat>)
    ensures r.Some? ==> r.value < NUM_PORTS && phases[r.value] == WaitingAddressed
    ensures r.Some? ==> forall q :: 0 <= q < r.value ==> phases[q] != WaitingAddressed
    ensures r.None? <==> forall q :: 0 <= q < NUM_PORTS ==> phases[q] != WaitingAddressed
  {
    FirstWaitingFrom(phases, 0)
  }

  /**
   * The phase part of an Address Device completion for the device on root
   * hub port `port`. None where it panics: the port is not the addressing
   * port or not in AddressingDevice, or the next waiting port is port 0.
   * Otherwise the addressing turn is released, the lowest WaitingAddressed
   * port is reset if it is connected, and `port` moves to
   * InitializingDevice.
   */
  function AddressedSpec(s: PortState, port: PortNumber, ports: seq<bv32>): (r: Option<PortState>)
    requires |ports| == NUM_PORTS
    ensures r.Some? ==> port == s.addressing && s.phases[port] == AddressingDevice
    ensures r.Some? ==> r.value.phases[port] == InitializingDevice
    ensures r.Some? ==> s.diagnostics <= r.value.diagnostics
  {
    if port != s.addressing || s.phases[port] != AddressingDevice then None
    else
      var released := s.(addressing := 0);
      var next := FirstWaiting(s.phases);
      var reset :=
        if next.None? then Some(released)
        else if next.value == 0 then None
        else if IsConnected(ports[next.value]) then ResetPortSpec(released, next.value, ports[next.value])
        else Some(released);
      match reset
      case None => None
      case Some(t) => Some(t.(phases := t.phases[port := InitializingDevice]))
  }

  /**
   * After an Address Device completion, the next waiting port (if it is
   * connected) holds the addressing turn, or nobody does.
   */
  lemma AddressedKeepsOneAtATime(s: PortState, port: PortNumber, ports: seq<bv32>)
    requires |ports| == NUM_PORTS && OneAtATime(s) && AddressedSpec(s, port, ports).Some?
    ensures OneAtATime(AddressedSpec(s, port, ports).value)
    ensures var r := AddressedSpec(s, port, ports).value;
      r.addressing == 0 || (FirstWaiting(s.phases) == Some(r.addressing) && r.phases[r.addressing] == ResettingPort)
  {
    var r := AddressedSpec(s, port, ports).value;
    var released := s.(addressing := 0);
    var next := FirstWaiting(s.phases);
    if next.None? || !IsConnected(ports[next.value]) {
      assert r == released.(phases := released.phases[port := InitializingDevice]);
      ReleasedIdle(s, port);
    } else {
      var w := next.value;
      var t := ResetPortSpec(released, w, ports[w]).value;
      assert r == t.(phases := t.phases[port := InitializingDevice]);
      ReleasedHandsOver(s, port, w, ports[w]);
    }
  }

  /** Releasing the turn of the only busy port and moving it on leaves no port busy. */
  lemma ReleasedIdle(s: PortState, port: PortNumber)
    requires OneAtATime(s) && s.addressing == port
    ensures OneAtATime(s.(addressing := 0, phases := s.phases[port := InitializingDevice]))
  {
  }

  /** Handing the turn from `port` to the waiting port `w` keeps the invariant. */
  lemma ReleasedHandsOver(s: PortState, port: PortNumber, w: nat, word: bv32)
    requires OneAtATime(s) && s.addressing == port && s.phases[port] == AddressingDevice
    requires 0 < w < NUM_PORTS && s.phases[w] == WaitingAddressed
    ensures var t := ResetPortSpec(s.(addressing := 0), w, word).value;
      OneAtATime(t.(phases := t.phases[port := InitializingDevice]))
      && t.addressing == w && t.phases[w] == ResettingPort && w != port
  {
    var released := s.(addressing := 0);
    var t := ResetPortSpec(released, w, word).value;
    assert t == released.(phases := released.phases[w := ResettingPort], addressing := w,
                          writes := released.writes + [PortscWrite(w, PortResetValue(word))]);
  }

  /** The phase part of `address_deivce` for `port`: it becomes AddressingDevice, doorbell 0 is rung. */
  function AddressDeviceSpec(s: PortState, port: PortNumber): (r: PortState)
    ensures r.addressing == s.addressing && r.phases[port] == AddressingDevice
    ensures forall q :: 0 <= q < NUM_PORTS && q != port ==> r.phases[q] == s.phases[q]
  {
    s.(phases := s.phases[port := AddressingDevice], writes := s.writes + [DoorbellWrite(0, DoorbellValue(0, 0))])
  }

  lemma AddressDeviceKeepsOneAtATime(s: PortState)
    requires OneAtATime(s) && s.phases[s.addressing] == EnablingSlot
    ensures OneAtATime(AddressDeviceSpec(s, s.addressing))
  {
  }

  /** `configure_port`: `reset_port` on each connected port from `n` to `maxPorts`. */
  function ConfigureFrom(s: PortState, ports: seq<bv32>, n: nat, maxPorts: nat): PortState
    requires |ports| == NUM_PORTS && 1 <= n && maxPorts < NUM_PORTS
    decreases maxPorts + 1 - n
  {
    if n > maxPorts then s
    else
      var s' := if IsConnected(ports[n]) then ResetPortSpec(s, n, ports[n]).value else s;
      ConfigureFrom(s', ports, n + 1, maxPorts)
  }

  /** The lowest connected port in `n..=maxPorts`. */
  function FirstConnectedFrom(ports: seq<bv32>, n: nat, maxPorts: nat): (r: Option<nat>)
    requires |ports| == NUM_PORTS && maxPorts < NUM_PORTS
    decreases maxPorts + 1 - n
    ensures r.Some? ==> n <= r.value <= maxPorts && IsConnected(ports[r.value])
    ensures r.Some? ==> forall q :: n <= q < r.value ==> !IsConnected(ports[q])
    ensures r.None? <==> forall q :: n <= q <= maxPorts ==> !IsConnected(ports[q])
  {
    if n > maxPorts then None
    else if IsConnected(ports[n]) then Some(n)
    else FirstConnectedFrom(ports, n + 1, maxPorts)
  }

  /**
   * What `configure_port` does to a state in which nobody is addressing
   * and ports `n..=maxPorts` are NotConnected or WaitingAddressed: the
   * lowest connected port takes the addressing turn and is reset, every
   * other connected port is parked as WaitingAddressed, nothing else
   * changes and nothing is logged.
   */
  lemma {:induction false} ConfigureFromIdle(s: PortState, ports: seq<bv32>, n: nat, maxPorts: nat)
    requires |ports| == NUM_PORTS && 1 <= n && maxPorts < NUM_PORTS && s.addressing == 0
    requires forall q :: n <= q <= maxPorts ==> s.phases[q] in {NotConnected, WaitingAddressed}
    ensures var r := ConfigureFrom(s, ports, n, maxPorts);
      match FirstConnectedFrom(ports, n, maxPorts)
      case None => r == s
      case Some(p) =>
        && r.addressing == p && r.phases[p] == ResettingPort
        && r.writes == s.writes + [PortscWrite(p, PortResetValue(ports[p]))]
        && r.diagnostics == s.diagnostics
        && (forall q :: 0 <= q < NUM_PORTS && q != p ==>
              r.phases[q] == (if n <= q <= maxPorts && IsConnected(ports[q]) then WaitingAddressed else s.phases[q]))
    decreases maxPorts + 1 - n
  {
    if n <= maxPorts {
      if IsConnected(ports[n]) {
        var s' := ResetPortSpec(s, n, ports[n]).value;
        assert s'.addressing == n;
        ConfigureFromBusy(s', ports, n + 1, maxPorts);
      } else {
        ConfigureFromIdle(s, ports, n + 1, maxPorts);
      }
    }
  }

  /** With a port already addressing, `configure_port` only parks connected ports. */
  lemma {:induction false} ConfigureFromBusy(s: PortState, ports: seq<bv32>, n: nat, maxPorts: nat)
    requires |ports| == NUM_PORTS && 1 <= n && maxPorts < NUM_PORTS && s.addressing != 0
    ensures var r := ConfigureFrom(s, ports, n, maxPorts);
      && r.addressing == s.addressing && r.writes == s.writes && r.diagnostics == s.diagnostics
      && forall q :: 0 <= q < NUM_PORTS ==>
           r.phases[q] == (if n <= q <= maxPorts && IsConnected(ports[q]) then WaitingAddressed else s.phases[q])
    decreases maxPorts + 1 - n
  {
    if n <= maxPorts {
      var s' := if IsConnected(ports[n]) then ResetPortSpec(s, n, ports[n]).value else s;
      ConfigureFromBusy(s', ports, n + 1, maxPorts);
    }
  }

  /** `configure_port` keeps the invariant. */
  lemma {:induction false} ConfigureKeepsOneAtATime(s: PortState, ports: seq<bv32>, n: nat, maxPorts: nat)
    requires |ports| == NUM_PORTS && 1 <= n && maxPorts < NUM_PORTS && OneAtATime(s)
    ensures OneAtATime(ConfigureFrom(s, ports, n, maxPorts))
    decreases maxPorts + 1 - n
  {
    if n <= maxPorts {
      var s' := s;
      if IsConnected(ports[n]) {
        ResetPortKeepsOneAtATime(s, n, ports[n]);
        s' := ResetPortSpec(s, n, ports[n]).value;
      }
      ConfigureKeepsOneAtATime(s', ports, n + 1, maxPorts);
    }
  }

  /**
   * Default control endpoint max packet size by PORTSC port speed: 8 for
   * full and low speed (1, 2), 64 for high speed (3), 512 for SuperSpeed
   * (4); any other speed panics with UnknownXHCISpeedID.
   */
  function DefaultMaxPacket(speed: bv8): (r: Result<bv32>)
    ensures r.Ok? <==> 1 <= speed <= 4
    ensures r.Err? ==> r.code == UnknownXhciSpeedId
    ensures r.Ok? ==> r.value in {8, 64, 512}
    ensures r.Ok? ==> (r.value == 8 <==> speed <= 2) && (r.value == 512 <==> speed == 4)
  {
    if speed == 1 || speed == 2 then Ok(8)
    else if speed == 3 then Ok(64)
    else if speed == 4 then Ok(512)
    else Err(UnknownXhciSpeedId)
  }

  /**
   * The input slot context `address_deivce` writes into a zeroed context:
   * word 0 holds the speed (bits 20..23) and one context entry (bits
   * 27..31), word 1 the root hub port number.
   */
  function AddressingSlotContext(speed: bv8, port: PortNumber): (c: Context)
    requires speed < 16
    ensures (c[0] >> 20) & 0xf == speed as bv32 && c[0] >> 27 == 1 && c[0] & 0xfffff == 0
    ensures RootHubPortNum(c) as nat == port
    ensures forall i :: 2 <= i < 8 ==> c[i] == 0
  {
    var c := ZERO_CONTEXT[0 := ((speed as bv32) << 20) | (1 << 27)][1 := (port as bv32) << 16];
    RootHubPortRoundTrip(port as bv8, c);
    c
  }

  /**
   * The default control endpoint context `address_deivce` writes into a
   * zeroed context: words 1..3 only, with the dequeue pointer masked to 64
   * bytes.
   */
  function DefaultControlEndpoint(maxPacket: bv32, ring: bv64): (c: Context)
  {
    ZERO_CONTEXT[1 := (maxPacket << 16) | (4 << 3) | (3 << 1)]
                [2 := ((ring & 0xffff_ffc0) as bv32) | 1]
                [3 := (ring >> 32) as bv32]
  }

  /**
   * For a 64-byte aligned ring it is the endpoint context the configuration
   * walk builds: a control endpoint (type 4) with interval 0, error count 3
   * and dequeue cycle state 1.
   */
  lemma DefaultControlEndpointIsEndpointContext(maxPacket: bv32, ring: bv64)
    requires maxPacket < 0x1_0000 && ring & 0x3f == 0
    ensures DefaultControlEndpoint(maxPacket, ring) == EndpointContext(0, 4, maxPacket, ring)
  {
    AlignedLowWord(ring);
    var a := DefaultControlEndpoint(maxPacket, ring);
    var b := EndpointContext(0, 4, maxPacket, ring);
    assert a[0] == b[0] && a[1] == b[1] && a[2] == b[2] && a[3] == b[3];
    assert a[4..] == b[4..];
  }

  lemma AlignedLowWord(ring: bv64)
    requires ring & 0x3f == 0
    ensures (ring & 0xffff_ffc0) as bv32 == (ring & 0xffff_ffff) as bv32
  {
  }

  /** `max_scratchpad_buffers`: Hi (bits 21..25) over Lo (bits 27..31) of HCSPARAMS2. */
  function MaxScratchpadBuffers(p2: bv32): (n: bv32)
    ensures n < 1024
    ensures n & 0x1f == p2 >> 27 && n >> 5 == (p2 >> 21) & 0x1f
  {
    ((p2 >> 16) & (0x1f << 5)) | (p2 >> 27)
  }

  lemma AppendOneOne<T>(s: seq<T>, a: T, b: T)
    ensures s + [a] + [b] == s + [a, b]
  {
  }

  // ---- the controller ------------------------------------------------------

  /** A call of the keyboard or mouse handler function pointer. */
  datatype Report = MouseReport(buttons: bv8, dx: int, dy: int) | KeyboardReport(modifier: bv8, keys: seq<bv8>)

  class XhcController {
    /** `port_config_phase`. */
    const phases: array<ConfigPhase>
    var addressingPort: PortNumber
    /**
     * The word each port's PORTSC reads (index 0 unused). The hardware
     * sets it; the driver's methods only read it.
     */
    var ports: PortWords
    /** HCSPARAMS1, for `max_ports`. */
    const hcsParams1: bv32
    /** The address of doorbell register 0. */
    const doorbellBase: nat
    /** The Device Context Base Address Array. */
    var dcbaa: seq<bv64>
    const commandRing: ProducerRing
    const eventRing: EventRing
    /** The PORTSC and doorbell writes of the driver and its devices. */
    const mmio: MmioLog
    /** `SETUP_TRB_MAP`. */
    const setupMap: SetupTrbMap
    /** `DEVICES_MEM`: one optional device per slot 0..=MAX_SLOTS_EN. */
    var devices: seq<Option<XhciDevice>>
    var diagnostics: seq<Diagnostic>
    /** Calls of the keyboard and mouse handlers, oldest first. */
    var reports: seq<Report>
    /** The devices and everything they own. */
    ghost var Repr: set<object>

    ghost predicate Valid()
      reads this`dcbaa, this`devices, this`Repr, setupMap
    {
      Shape() && setupMap.Valid()
    }

    /**
     * The part of `Valid` that holds of the controller's own fields: the
     * table sizes, the rings, and the devices with their footprints.
     */
    ghost predicate Shape()
      reads this`dcbaa, this`devices, this`Repr
    {
      phases.Length == NUM_PORTS && |dcbaa| == MAX_SLOTS_EN + 1
      && |devices| == MAX_SLOTS_EN + 1 && doorbellBase > 0
      && commandRing.Valid() && eventRing.Valid()
      && (forall i :: 0 <= i < |devices| && devices[i].Some? ==> DeviceOk(devices[i].value, i))
      && this !in Repr && phases !in Repr && commandRing !in Repr
      && commandRing.table !in Repr && eventRing !in Repr && mmio !in Repr && setupMap !in Repr
    }

    /** The device in slot `slot` writes through this controller's log and owns only objects in `Repr`. */
    ghost predicate DeviceOk(d: XhciDevice, slot: nat)
      reads this`Repr
    {
      d.Valid() && d.mmio == mmio && d.slotId as nat == slot && d.doorbellAddress == doorbellBase + 4 * slot
      && d in Repr && d.Footprint <= Repr
    }

    /** The enumeration state as a value. */
    ghost function PortView(): PortState
      reads this, phases, mmio
      requires phases.Length == NUM_PORTS
    {
      PortState(phases[..], addressingPort, mmio.writes, diagnostics)
    }

    /**
     * The state `initialize` leaves (its register programming, BIOS
     * handoff and waits are not modelled): all ports NotConnected, nobody
     * addressing, both rings at index 0 with cycle true, no devices.
     */
    constructor (p1: bv32, doorbellAt: nat, commandRingAt: bv64, portWords: PortWords)
      requires commandRingAt & 0x3f == 0 && doorbellAt > 0
      ensures Valid() && OneAtATime(PortView())
      ensures PortView() == InitialPortState()
      ensures commandRing.index == 0 && commandRing.cycle && commandRing.pushed == []
      ensures eventRing.index == 0 && eventRing.cycle
      ensures forall i :: 0 <= i < |devices| ==> devices[i].None?
      ensures setupMap.entries == map[] && reports == [] && Repr == {}
      ensures ports == portWords && hcsParams1 == p1 && doorbellBase == doorbellAt
    {
      phases := new ConfigPhase[NUM_PORTS](_ => NotConnected);
      addressingPort := 0;
      ports := portWords;
      hcsParams1 := p1;
      doorbellBase := doorbellAt;
      dcbaa := seq(MAX_SLOTS_EN + 1, _ => 0);
      commandRing := new ProducerRing(commandRingAt);
      eventRing := new EventRing();
      mmio := new MmioLog();
      setupMap := new SetupTrbMap();
      var slots := DeviceMemInit();
      devices := slots;
      diagnostics := [];
      reports := [];
      Repr := {};
      new;
      InitialStateOneAtATime();
    }

    /** `reset_port(port)`, following `ResetPortSpec`; `ok` is false where it panics. */
    method ResetPort(port: PortNumber) returns (ok: bool)
      requires phases.Length == NUM_PORTS
      modifies this`addressingPort, this`diagnostics, phases, mmio
      ensures var r := ResetPortSpec(old(PortView()), port, ports[port]);
        ok == r.Some? && (ok ==> PortView() == r.value)
    {
      if addressingPort != 0 {
        phases[port] := WaitingAddressed;
        return true;
      }
      if port == 0 {
        return false;
      }
      if phases[port] == NotConnected || phases[port] == WaitingAddressed {
        addressingPort := port;
        phases[port] := ResettingPort;
        mmio.ResetPort(port, ports[port]);
      } else {
        diagnostics := diagnostics + [Error(InvalidPhase)];
      }
      ok := true;
    }

    /**
     * `enable_slot(port)`, following `EnableSlotSpec`; when the port is
     * enabled and its reset has completed, a No Op and an Enable Slot
     * command are queued, in that order.
     */
    method EnableSlot(port: PortNumber) returns (ok: bool)
      requires phases.Length == NUM_PORTS && commandRing.Valid()
      modifies this`diagnostics, phases, mmio, commandRing, commandRing.table
      ensures var r := EnableSlotSpec(old(PortView()), port, ports[port]);
        ok == r.Some? && (ok ==> PortView() == r.value)
      ensures ok && IsEnabled(ports[port]) && IsPortResetChanged(ports[port]) ==>
        commandRing.pushed == old(commandRing.pushed) + [NoOpCommandTrb(), EnableSlotTrb()]
        && (commandRing.index, commandRing.cycle) == Pushes(old(commandRing.index), old(commandRing.cycle), 2)
      ensures !(ok && IsEnabled(ports[port]) && IsPortResetChanged(ports[port])) ==>
        commandRing.pushed == old(commandRing.pushed) && commandRing.index == old(commandRing.index)
    {
      if port == 0 {
        return false;
      }
      var word := ports[port];
      if IsEnabled(word) && IsPortResetChanged(word) {
        mmio.ClearPortResetChanged(port, word);
        phases[port] := EnablingSlot;
        ghost var cleared := mmio.writes;
        QueueEnableSlot();
        AppendOneOne(old(mmio.writes), PortscWrite(port, ClearPortResetChangedValue(word)),
                     DoorbellWrite(0, DoorbellValue(0, 0)));
        assert phases[..] == old(phases[..])[port := EnablingSlot];
        assert mmio.writes == old(mmio.writes) + [PortscWrite(port, ClearPortResetChangedValue(word)),
                                                  DoorbellWrite(0, DoorbellValue(0, 0))];
        assert diagnostics == old(diagnostics) && addressingPort == old(addressingPort);
        assert PortView() == EnableSlotSpec(old(PortView()), port, word).value;
      } else {
        diagnostics := diagnostics + [Error(InvalidPhase)];
        assert PortView() == EnableSlotSpec(old(PortView()), port, word).value;
      }
      ok := true;
    }

    /** The command half of `enable_slot`: No Op and Enable Slot, then doorbell 0. */
    method QueueEnableSlot()
      requires commandRing.Valid()
      modifies mmio, commandRing, commandRing.table
      ensures commandRing.pushed == old(commandRing.pushed) + [NoOpCommandTrb(), EnableSlotTrb()]
      ensures (commandRing.index, commandRing.cycle) == Pushes(old(commandRing.index), old(commandRing.cycle), 2)
      ensures mmio.writes == old(mmio.writes) + [DoorbellWrite(0, DoorbellValue(0, 0))]
    {
      PushTwo(commandRing, NoOpCommandTrb(), EnableSlotTrb());
      mmio.Ring(0, 0, 0);
    }

    /** `configure_port`: `reset_port` on every connected port 1..=max_ports, in order. */
    method ConfigurePort()
      requires Valid()
      modifies this`addressingPort, this`diagnostics, phases, mmio
      ensures Valid()
      ensures PortView() == ConfigureFrom(old(PortView()), ports, 1, MaxPorts(hcsParams1) as nat)
      ensures old(OneAtATime(PortView())) ==> OneAtATime(PortView())
    {
      var maxPorts := MaxPorts(hcsParams1) as nat;
      var n := 1;
      while n <= maxPorts
        invariant 1 <= n <= maxPorts + 1
        invariant Valid()
        invariant ConfigureFrom(PortView(), ports, n, maxPorts) == ConfigureFrom(old(PortView()), ports, 1, maxPorts)
      {
        ghost var before := PortView();
        if IsConnected(ports[n]) {
          var _ := ResetPort(n);
          assert PortView() == ResetPortSpec(before, n, ports[n]).value;
        } else {
          assert PortView() == before;
        }
        assert ports[n] == ports[n];
        n := n + 1;
      }
      if old(OneAtATime(PortView())) {
        ConfigureKeepsOneAtATime(old(PortView()), ports, 1, maxPorts);
      }
    }
  
    /**
     * `*lock = Some(XhciDevice { .. })` and its DCBAA entry: a fresh device
     * in slot `slot`, rung through doorbell `slot`.
     */
    method InstallDevice(slot: bv8, mem: DeviceMemory) returns (dev: XhciDevice)
      requires Valid() && ValidMemory(mem) && slot as nat < |devices|
      modifies this`devices, this`Repr, this`dcbaa
      ensures Valid() && fresh(dev) && fresh(dev.Footprint) && dev.Valid()
      ensures devices == old(devices)[slot as nat := Some(dev)]
      ensures dcbaa == old(dcbaa)[slot as nat := mem.deviceContext]
      ensures Repr == old(Repr) + {dev} + dev.Footprint
      ensures dev.slotId == slot && dev.bufAddress == mem.buffer && dev.inputContextAddress == mem.inputContext
      ensures dev.deviceContextAddress == mem.deviceContext && dev.rings[0].base == mem.rings[0]
    {
      dev := new XhciDevice(slot, doorbellBase + 4 * slot as nat, mmio, mem);
      devices := devices[slot as nat := Some(dev)];
      Repr := Repr + {dev} + dev.Footprint;
      dcbaa := dcbaa[slot as nat := dev.deviceContextAddress];
    }

    /**
     * `address_deivce(slot, port)` with the device memory `mem` the
     * allocator returned. `ok` is false where it panics: slot beyond
     * DEVICES_MEM, port 0 (`port_sc`), or an unknown port speed. Otherwise
     * the slot holds a fresh device registered in the DCBAA, whose input
     * context adds the slot and endpoint 0 contexts, the port is
     * AddressingDevice, and an Address Device command is queued.
     */
    method AddressDevice(slot: bv8, port: PortNumber, mem: DeviceMemory) returns (ok: bool)
      requires Valid() && ValidMemory(mem)
      modifies this`devices, this`Repr, this`dcbaa, phases, mmio, commandRing, commandRing.table
      ensures Valid()
      ensures ok <==> slot as nat < |devices| && port != 0 && DefaultMaxPacket(PortSpeed(ports[port])).Ok?
      ensures ok ==> devices[slot as nat].Some?
      ensures ok ==>
        var dev := devices[slot as nat].value;
        && fresh(dev) && devices == old(devices)[slot as nat := Some(dev)]
        && dcbaa == old(dcbaa)[slot as nat := mem.deviceContext]
        && AddressingContexts(dev, port, ports[port], mem.rings[0])
      ensures ok ==> PortView() == AddressDeviceSpec(old(PortView()), port)
      ensures ok ==> commandRing.pushed == old(commandRing.pushed) + [AddressDeviceTrb(mem.inputContext, slot).value]
    {
      if slot as nat >= |devices| {
        return false;
      }
      var dev := InstallDevice(slot, mem);
      ok := AddressInstalled(dev, port);
      assert devices[slot as nat] == Some(dev);
    }

    /**
     * `address_deivce` after the device is installed: panics (`ok` false)
     * on port 0 or an unknown speed; otherwise writes the input context and
     * queues the Address Device command. The controller's own fields are
     * not touched.
     */
    method AddressInstalled(dev: XhciDevice, port: PortNumber) returns (ok: bool)
      requires Valid() && dev.Valid() && dev !in {mmio, commandRing}
      modifies dev`inputControl, dev`inputSlot, dev`inputEndpoints, phases, mmio, commandRing, commandRing.table
      ensures Valid()
      ensures ok <==> port != 0 && DefaultMaxPacket(PortSpeed(ports[port])).Ok?
      ensures ok ==> AddressingContexts(dev, port, ports[port], dev.rings[0].base)
      ensures ok ==> PortView() == AddressDeviceSpec(old(PortView()), port)
      ensures ok ==> commandRing.pushed == old(commandRing.pushed) + [AddressDeviceTrb(dev.inputContextAddress, dev.slotId).value]
    {
      if port == 0 {
        return false;
      }
      var maxPacket := WriteAddressingContexts(dev, port, ports[port]);
      if maxPacket.Err? {
        return false;
      }
      label Written:
      QueueAddressDevice(port, AddressDeviceTrb(dev.inputContextAddress, dev.slotId).value);
      assert unchanged@Written(dev);
      ok := true;
    }
  
    /** The tail of `address_deivce`: the phase, the Address Device command, doorbell 0. */
    method QueueAddressDevice(port: PortNumber, command: Trb)
      requires Valid()
      modifies phases, mmio, commandRing, commandRing.table
      ensures Valid()
      ensures PortView() == AddressDeviceSpec(old(PortView()), port)
      ensures commandRing.pushed == old(commandRing.pushed) + [command]
    {
      phases[port] := AddressingDevice;
      commandRing.Push(command);
      mmio.Ring(0, 0, 0);
    }
  }

  /**
   * The input context `address_deivce` leaves for a port whose PORTSC reads
   * `word`, endpoint 0's ring at `ring`: only A0 and A1 added, the slot
   * context for that port and speed, the default control endpoint.
   */
  ghost predicate AddressingContexts(dev: XhciDevice, port: PortNumber, word: bv32, ring: bv64)
    reads dev
    requires DefaultMaxPacket(PortSpeed(word)).Ok?
  {
    && dev.inputControl == ZERO_CONTEXT[1 := 3]
    && dev.inputSlot == AddressingSlotContext(PortSpeed(word), port)
    && dev.inputEndpoints[0] == DefaultControlEndpoint(DefaultMaxPacket(PortSpeed(word)).value, ring)
  }

  /**
   * The input control, slot and endpoint 0 context writes of `address_deivce` for a port
   * whose PORTSC reads `word`; the result is the max packet size, or the
   * UnknownXHCISpeedID panic after the slot context is written.
   */
  method WriteAddressingContexts(dev: XhciDevice, port: PortNumber, word: bv32) returns (maxPacket: Result<bv32>)
    requires dev.Valid()
    modifies dev`inputControl, dev`inputSlot, dev`inputEndpoints
    ensures maxPacket == DefaultMaxPacket(PortSpeed(word))
    ensures maxPacket.Ok? ==> AddressingContexts(dev, port, word, dev.rings[0].base)
    ensures maxPacket.Ok? ==> dev.inputEndpoints[1..] == old(dev.inputEndpoints)[1..]
  {
    // zeroed, then A0 (slot) and A1 (endpoint 0) set
    dev.inputControl := ZERO_CONTEXT[1 := 3];
    var speed := PortSpeed(word);
    dev.inputSlot := AddressingSlotContext(speed, port);
    maxPacket := DefaultMaxPacket(speed);
    if maxPacket.Err? {
      return;
    }
    dev.inputEndpoints := dev.inputEndpoints[0 := DefaultControlEndpoint(maxPacket.value, dev.rings[0].base)];
  }
}
