// kernel/src/usb/trb.rs, the `on_event` handlers, and the dispatch of
// `process_event` in kernel/src/usb/controller.rs. A Port Status Change
// event advances the port's enumeration phase; a Command Completion event
// addresses the device, starts its initialisation or selects the boot
// protocol; a Transfer event either delivers an interrupt-IN report to the
// keyboard or mouse handler and re-arms the transfer, or completes one of
// the control transfers the device issued. The configuration descriptor
// walk is specified on values (`WalkFrom`) and performed in place on the
// device by `ScanConfiguration`.
//
// The memory a handler dereferences is given as a parameter: the command
// TRB a completion event points to, the TRB a transfer event points to, and
// the device memory the allocator hands to `address_deivce`.

module Events {
  import opened Common
  import opened Trb
  import opened MemoryPool
  import opened Registers
  import opened Device
  import opened Controller

  // ---- the configuration descriptor walk -----------------------------------

  /** USB descriptor types (table 9-5 of USB 2.0). */
  const INTERFACE_DESCRIPTOR: bv8 := 4
  const ENDPOINT_DESCRIPTOR: bv8 := 5

  /** What the walk rewrites: the class table, input control word 1 (the add flags), the endpoint contexts. */
  datatype WalkState = WalkState(classes: ClassTable, addFlags: bv32, endpoints: EndpointContexts)

  /**
   * How the walk ends: past the total length, in an endless loop on a
   * descriptor of length 0, or in a panic.
   */
  datatype WalkOutcome = Finished(state: WalkState) | Hang | Panic

  /** The add flag of device context index `dci`. */
  function FlagBit(dci: bv5): bv32
  {
    1 << dci
  }

  /** Add flag `dci` is set. */
  predicate Flagged(addFlags: bv32, dci: bv5)
  {
    addFlags & FlagBit(dci) != 0
  }

  /**
   * The device context index of an endpoint address, `2 * number +
   * direction`, as a 5-bit index.
   */
  function EndpointDci(address: bv8): (dci: bv5)
    ensures dci as nat == Dci(address)
  {
    (((address & 0x7) as bv5) << 1) | (address >> 7) as bv5
  }

  /** What one descriptor asks of the walk. */
  datatype Step =
    | Skip
    | Interface(index: ClassIndex, driver: ClassDriver)
    | Endpoint(dci: bv5, context: Context)

  /** An endpoint step names one of the 15 transfer-ring DCIs 1..15. */
  predicate ValidStep(s: Step)
  {
    s.Endpoint? ==> 0 < s.dci < 16
  }

  /** Carries out a step on the walk state. */
  function Apply(st: WalkState, s: Step): WalkState
    requires ValidStep(s)
  {
    match s
    case Skip => st
    case Interface(index, driver) => st.(classes := st.classes[index := driver])
    case Endpoint(dci, context) =>
      st.(addFlags := st.addFlags | FlagBit(dci), endpoints := st.endpoints[dci as nat - 1 := context])
  }

  /**
   * The descriptor at offset `base` of the buffer: an interface descriptor
   * fills class entry bInterfaceNumber, an endpoint descriptor sets add
   * flag `dci` and fills endpoint context `dci - 1`, any other type is
   * skipped. None where the source panics: a descriptor shorter than the
   * bytes read from it (9 for an interface, 7 for an endpoint), an
   * interface number beyond the 15 class entries, or an endpoint whose
   * DCI is 0 (`dci - 1` underflows).
   */
  function Descriptor(buf: seq<bv8>, base: nat, rings: seq<bv64>): (r: Option<Step>)
    requires |buf| == BUF_LEN && base < 256 && |rings| == NUM_RINGS
    ensures r.Some? ==> ValidStep(r.value)
  {
    var length := buf[base] as nat;
    var ty := buf[base + 1];
    if ty == INTERFACE_DESCRIPTOR then
      var index := buf[base + 2] as nat;
      if length < 9 || index >= NUM_CLASSES then None
      else
        Some(Interface(index, ClassDriver(buf[base + 5] as bv16, buf[base + 6] as bv16, buf[base + 7] as bv16,
                                          buf[base + 8] as bv16)))
    else if ty == ENDPOINT_DESCRIPTOR then
      var address := buf[base + 2];
      var dci := EndpointDci(address);
      if length < 7 || dci == 0 then None
      else
        Some(Endpoint(dci, EndpointContext(buf[base + 6], EpType(address, buf[base + 3]),
                                           MaxPacketSize(buf[base + 4], buf[base + 5]), rings[dci as nat - 1])))
    else
      Some(Skip)
  }

  /** The walk from offset `base` while `base < max`, advancing by bLength. */
  function WalkFrom(buf: seq<bv8>, base: nat, max: nat, st: WalkState, rings: seq<bv64>): WalkOutcome
    requires |buf| == BUF_LEN && max < 256 && |rings| == NUM_RINGS
    decreases max - base
  {
    if base >= max then Finished(st)
    else
      match Descriptor(buf, base, rings)
      case None => Panic
      case Some(s) =>
        if buf[base] == 0 then Hang
        else WalkFrom(buf, base + buf[base] as nat, max, Apply(st, s), rings)
  }

  /** The dequeue addresses of a device's transfer rings. */
  function RingBases(rings: seq<ProducerRing>): (bases: seq<bv64>)
    ensures |bases| == |rings| && forall k :: 0 <= k < |rings| ==> bases[k] == rings[k].base
  {
    seq(|rings|, k requires 0 <= k < |rings| => rings[k].base)
  }

  /** The state after applying a run of steps in order. */
  function ApplyAll(st: WalkState, steps: seq<Step>): WalkState
    requires forall i :: 0 <= i < |steps| ==> ValidStep(steps[i])
    decreases |steps|
  {
    if steps == [] then st else ApplyAll(Apply(st, steps[0]), steps[1..])
  }

  /**
   * `b` keeps every add flag set in `a`, and every endpoint context in
   * which `b` differs from `a` has its add flag set in `b`.
   */
  ghost predicate Covers(a: WalkState, b: WalkState)
  {
    forall dci: bv5 ::
      && (Flagged(a.addFlags, dci) ==> Flagged(b.addFlags, dci))
      && (0 < dci && !Flagged(b.addFlags, dci) ==> b.endpoints[dci as nat - 1] == a.endpoints[dci as nat - 1])
  }

  lemma CoversTransitive(a: WalkState, b: WalkState, c: WalkState)
    requires Covers(a, b) && Covers(b, c)
    ensures Covers(a, c)
  {
  }

  lemma SetsFlag(flags: bv32, dci: bv5)
    ensures Flagged(flags | FlagBit(dci), dci)
  {
  }

  lemma KeepsFlag(flags: bv32, dci: bv5, other: bv5)
    ensures Flagged(flags, other) ==> Flagged(flags | FlagBit(dci), other)
  {
  }

  /** An endpoint step at `dci`, seen from add flag `other`. */
  lemma EndpointStepAt(st: WalkState, dci: bv5, context: Context, other: bv5)
    requires 0 < dci < 16
    ensures var next := Apply(st, Endpoint(dci, context));
      && (Flagged(st.addFlags, other) ==> Flagged(next.addFlags, other))
      && (0 < other && !Flagged(next.addFlags, other) ==> next.endpoints[other as nat - 1] == st.endpoints[other as nat - 1])
  {
    KeepsFlag(st.addFlags, dci, other);
    if other == dci {
      SetsFlag(st.addFlags, dci);
    }
  }

  /**
   * One step keeps every add flag, and the only endpoint context it
   * changes is that of the DCI whose flag it sets.
   */
  lemma ApplyCovers(st: WalkState, s: Step)
    requires ValidStep(s)
    ensures Covers(st, Apply(st, s))
  {
    if s.Endpoint? {
      forall other: bv5
        ensures Flagged(st.addFlags, other) ==> Flagged(Apply(st, s).addFlags, other)
        ensures 0 < other && !Flagged(Apply(st, s).addFlags, other)
                ==> Apply(st, s).endpoints[other as nat - 1] == st.endpoints[other as nat - 1]
      {
        EndpointStepAt(st, s.dci, s.context, other);
      }
    }
  }

  /** A run of steps keeps every add flag and flags every endpoint context it writes. */
  lemma {:induction false} ApplyAllCovers(st: WalkState, steps: seq<Step>)
    requires forall i :: 0 <= i < |steps| ==> ValidStep(steps[i])
    ensures Covers(st, ApplyAll(st, steps))
    decreases |steps|
  {
    if steps != [] {
      var next := Apply(st, steps[0]);
      ApplyCovers(st, steps[0]);
      ApplyAllCovers(next, steps[1..]);
      CoversTransitive(st, next, ApplyAll(st, steps));
    }
  }

  /** A finished walk applies, in order, the steps of the descriptors it passes. */
  lemma {:induction false} WalkSteps(buf: seq<bv8>, base: nat, max: nat, st: WalkState, rings: seq<bv64>)
    returns (steps: seq<Step>)
    requires |buf| == BUF_LEN && max < 256 && |rings| == NUM_RINGS
    requires WalkFrom(buf, base, max, st, rings).Finished?
    ensures forall i :: 0 <= i < |steps| ==> ValidStep(steps[i])
    ensures WalkFrom(buf, base, max, st, rings).state == ApplyAll(st, steps)
    decreases max - base
  {
    if base >= max {
      steps := [];
    } else {
      var s := Descriptor(buf, base, rings).value;
      var rest := WalkSteps(buf, base + buf[base] as nat, max, Apply(st, s), rings);
      steps := [s] + rest;
      assert steps[1..] == rest;
    }
  }

  /**
   * A finished walk keeps every add flag (A0, set before the walk, stays
   * set), and every endpoint context it changes has its add flag set: the
   * Configure Endpoint command that follows covers all contexts written.
   */
  lemma WalkCovers(buf: seq<bv8>, max: nat, st: WalkState, rings: seq<bv64>)
    requires |buf| == BUF_LEN && max < 256 && |rings| == NUM_RINGS
    requires WalkFrom(buf, 0, max, st, rings).Finished?
    ensures Covers(st, WalkFrom(buf, 0, max, st, rings).state)
  {
    var steps := WalkSteps(buf, 0, max, st, rings);
    ApplyAllCovers(st, steps);
  }

  /** A walk from `base < max` that passes the descriptor there goes on past it. */
  lemma WalkFromStep(buf: seq<bv8>, base: nat, max: nat, st: WalkState, rings: seq<bv64>)
    requires |buf| == BUF_LEN && max < 256 && |rings| == NUM_RINGS
    requires base < max && Descriptor(buf, base, rings).Some? && buf[base] != 0
    ensures WalkFrom(buf, base, max, st, rings)
         == WalkFrom(buf, base + buf[base] as nat, max, Apply(st, Descriptor(buf, base, rings).value), rings)
  {
  }

  /** The part of a device the walk rewrites. */
  function Held(dev: XhciDevice): WalkState
    reads dev
  {
    WalkState(dev.classes, dev.inputControl[1], dev.inputEndpoints)
  }

  /** Carries out one step on the device's fields. */
  method ApplyStep(dev: XhciDevice, s: Step)
    requires ValidStep(s)
    modifies dev`classes, dev`inputControl, dev`inputEndpoints
    ensures Held(dev) == Apply(old(Held(dev)), s)
    ensures dev.inputControl == old(dev.inputControl)[1 := dev.inputControl[1]]
  {
    var next := Apply(Held(dev), s);
    dev.classes := next.classes;
    dev.inputControl := dev.inputControl[1 := next.addFlags];
    dev.inputEndpoints := next.endpoints;
  }

  /**
   * The descriptor loop of the configuration branch, in place on the
   * device: from offset 0 while `base < buf[2]` (the low byte of
   * wTotalLength), each descriptor is applied and `base` advances by its
   * bLength. The result is the outcome of `WalkFrom`: Hang where the
   * source loops forever, Panic where it panics, otherwise the device
   * holds the final state and input control word 1 alone of the control
   * context has changed.
   */
  method ScanConfiguration(dev: XhciDevice) returns (r: WalkOutcome)
    requires dev.Valid()
    modifies dev`classes, dev`inputControl, dev`inputEndpoints
    ensures r == WalkFrom(dev.buf[..], 0, dev.buf[2] as nat, old(Held(dev)), RingBases(dev.rings))
    ensures r.Finished? ==> Held(dev) == r.state && dev.inputControl == old(dev.inputControl)[1 := r.state.addFlags]
  {
    var buf := dev.buf[..];
    var rings := RingBases(dev.rings);
    var max := buf[2] as nat;
    var base := 0;
    ghost var start := Held(dev);
    while base < max
      invariant dev.inputControl == old(dev.inputControl)[1 := dev.inputControl[1]]
      invariant WalkFrom(buf, base, max, Held(dev), rings) == WalkFrom(buf, 0, max, start, rings)
      decreases max - base
    {
      var step := Descriptor(buf, base, rings);
      if step.None? {
        return Panic;
      }
      if buf[base] == 0 {
        return Hang;
      }
      WalkFromStep(buf, base, max, Held(dev), rings);
      ApplyStep(dev, step.value);
      base := base + buf[base] as nat;
    }
    r := Finished(Held(dev));
  }

  /**
   * A boot keyboard's configuration: the configuration descriptor (total
   * length 34), interface 0 (class 3, subclass 1, protocol 1), its HID
   * descriptor, and interrupt-IN endpoint 1 (max packet 8, interval 10).
   */
  const BOOT_KEYBOARD_CONFIGURATION: seq<bv8> :=
    [9, 2, 0x22, 0, 1, 1, 0, 0xa0, 0x32,
     9, 4, 0, 0, 1, 3, 1, 1, 0,
     9, 0x21, 0x11, 1, 0, 1, 0x22, 0x3f, 0,
     7, 5, 0x81, 3, 8, 0, 0x0a]

  /** The bytes of it the walk reads. */
  lemma BootKeyboardBytes(buf: seq<bv8>)
    requires |buf| == BUF_LEN && buf[..34] == BOOT_KEYBOARD_CONFIGURATION
    ensures buf[0] == 9 && buf[1] == 2 && buf[2] == 0x22 && buf[9] == 9 && buf[10] == 4
    ensures buf[11] == 0 && buf[14] == 3 && buf[15] == 1 && buf[16] == 1 && buf[17] == 0
    ensures buf[18] == 9 && buf[19] == 0x21 && buf[27] == 7 && buf[28] == 5 && buf[29] == 0x81
    ensures buf[30] == 3 && buf[31] == 8 && buf[32] == 0 && buf[33] == 0xa
  {
    assert BOOT_KEYBOARD_CONFIGURATION[0] == buf[..34][0] == buf[0];
    assert BOOT_KEYBOARD_CONFIGURATION[1] == buf[..34][1] == buf[1];
    assert BOOT_KEYBOARD_CONFIGURATION[2] == buf[..34][2] == buf[2];
    assert BOOT_KEYBOARD_CONFIGURATION[9] == buf[..34][9] == buf[9];
    assert BOOT_KEYBOARD_CONFIGURATION[10] == buf[..34][10] == buf[10];
    assert BOOT_KEYBOARD_CONFIGURATION[11] == buf[..34][11] == buf[11];
    assert BOOT_KEYBOARD_CONFIGURATION[14] == buf[..34][14] == buf[14];
    assert BOOT_KEYBOARD_CONFIGURATION[15] == buf[..34][15] == buf[15];
    assert BOOT_KEYBOARD_CONFIGURATION[16] == buf[..34][16] == buf[16];
    assert BOOT_KEYBOARD_CONFIGURATION[17] == buf[..34][17] == buf[17];
    assert BOOT_KEYBOARD_CONFIGURATION[18] == buf[..34][18] == buf[18];
    assert BOOT_KEYBOARD_CONFIGURATION[19] == buf[..34][19] == buf[19];
    assert BOOT_KEYBOARD_CONFIGURATION[27] == buf[..34][27] == buf[27];
    assert BOOT_KEYBOARD_CONFIGURATION[28] == buf[..34][28] == buf[28];
    assert BOOT_KEYBOARD_CONFIGURATION[29] == buf[..34][29] == buf[29];
    assert BOOT_KEYBOARD_CONFIGURATION[30] == buf[..34][30] == buf[30];
    assert BOOT_KEYBOARD_CONFIGURATION[31] == buf[..34][31] == buf[31];
    assert BOOT_KEYBOARD_CONFIGURATION[32] == buf[..34][32] == buf[32];
    assert BOOT_KEYBOARD_CONFIGURATION[33] == buf[..34][33] == buf[33];
  }

  /** The steps of the four descriptors of a boot keyboard's configuration. */
  lemma BootKeyboardSteps(buf: seq<bv8>, rings: seq<bv64>)
    requires |buf| == BUF_LEN && |rings| == NUM_RINGS
    requires buf[..34] == BOOT_KEYBOARD_CONFIGURATION
    ensures buf[0] == 9 && buf[2] == 34 && buf[9] == 9 && buf[18] == 9 && buf[27] == 7
    ensures Descriptor(buf, 0, rings) == Some(Skip)
    ensures Descriptor(buf, 9, rings) == Some(Interface(0, ClassDriver(3, 1, 1, 0)))
    ensures Descriptor(buf, 18, rings) == Some(Skip)
    ensures Descriptor(buf, 27, rings) == Some(Endpoint(3, EndpointContext(10, 7, 8, rings[2])))
  {
    BootKeyboardBytes(buf);
    InterruptInStep(buf, 27, rings);
  }

  /** Endpoint 1 IN, interrupt, max packet 8, interval 10: add flag 3, context 2. */
  lemma InterruptInStep(buf: seq<bv8>, base: nat, rings: seq<bv64>)
    requires |buf| == BUF_LEN && base < 249 && |rings| == NUM_RINGS
    requires buf[base] == 7 && buf[base + 1] == 5 && buf[base + 2] == 0x81 && buf[base + 3] == 3
    requires buf[base + 4] == 8 && buf[base + 5] == 0 && buf[base + 6] == 10
    ensures Descriptor(buf, base, rings) == Some(Endpoint(3, EndpointContext(10, 7, 8, rings[2])))
  {
    assert EndpointDci(0x81) == 3;
    assert EpType(0x81, 3) == 7;
    assert MaxPacketSize(8, 0) == 8;
  }

  /**
   * Walking it fills class entry 0, sets add flag 3 (endpoint 1 IN) and
   * writes endpoint context 2 as an interrupt-IN endpoint (type 7) on
   * transfer ring 2; nothing else changes.
   */
  lemma BootKeyboardWalk(buf: seq<bv8>, st: WalkState, rings: seq<bv64>)
    requires |buf| == BUF_LEN && |rings| == NUM_RINGS
    requires buf[..34] == BOOT_KEYBOARD_CONFIGURATION
    ensures WalkFrom(buf, 0, buf[2] as nat, st, rings)
      == Finished(WalkState(st.classes[0 := ClassDriver(3, 1, 1, 0)], st.addFlags | 8,
                            st.endpoints[2 := EndpointContext(10, 7, 8, rings[2])]))
  {
    BootKeyboardSteps(buf, rings);
    var st1 := Apply(st, Interface(0, ClassDriver(3, 1, 1, 0)));
    var st2 := Apply(st1, Endpoint(3, EndpointContext(10, 7, 8, rings[2])));
    WalkFromStep(buf, 0, 34, st, rings);
    WalkFromStep(buf, 9, 34, st, rings);
    WalkFromStep(buf, 18, 34, st1, rings);
    WalkFromStep(buf, 27, 34, st1, rings);
    assert WalkFrom(buf, 34, 34, st2, rings) == Finished(st2);
  }
}
