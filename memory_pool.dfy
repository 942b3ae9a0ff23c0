// kernel/src/usb/memory_pool.rs: the 32-slot TRB rings of section 4.9 of the
// xHCI specification. A producer ring (the command ring `MemPoolCrTRB` and
// each transfer ring `MemPoolTrTRB`) writes TRBs with its cycle bit into
// slots 0..30 and keeps slot 31 for a Link TRB back to the start of the
// table; the event ring `MemPoolErTRB` is consumed by comparing each slot's
// cycle bit with the consumer's. The two producer types have the same
// `push` (they differ only in how they OR the cycle bit into the Link TRB,
// which `LinkCycleForms` shows to be the same word), so one class models
// both. Updating the event-ring dequeue register (`clean`) and the async
// `Stream` wrapper are not modelled.

module MemoryPool {
  import opened Common
  import opened Trb

  const TRB_BUF_LEN: nat := 32
  /** The slot a producer reserves for the Link TRB. */
  const LINK_SLOT: nat := TRB_BUF_LEN - 1

  /** A producer's index: a data slot, never the link slot. */
  type ProducerIndex = i: nat | i < LINK_SLOT

  /** A consumer's index: any slot of the table. */
  type ConsumerIndex = i: nat | i < TRB_BUF_LEN

  /** Producer position after one push: the next slot, wrapping at the link slot. */
  function Advance(index: nat, cycle: bool): (r: (nat, bool))
    requires index < LINK_SLOT
    ensures r.0 < LINK_SLOT
    ensures r.0 == (index + 1) % LINK_SLOT
    ensures r.1 <==> (if r.0 == 0 then !cycle else cycle)
  {
    if index + 1 == LINK_SLOT then (0, !cycle) else (index + 1, cycle)
  }

  /** Producer position after `k` pushes. */
  function Pushes(index: nat, cycle: bool, k: nat): (r: (nat, bool))
    requires index < LINK_SLOT
    ensures r.0 < LINK_SLOT
  {
    if k == 0 then (index, cycle)
    else
      var p := Pushes(index, cycle, k - 1);
      Advance(p.0, p.1)
  }

  /**
   * From a fresh ring, `k` pushes leave the producer at slot k mod 31, and
   * the cycle bit has toggled once per completed lap.
   */
  lemma {:induction false} PushesFromStart(cycle: bool, k: nat)
    ensures Pushes(0, cycle, k).0 == k % LINK_SLOT
    ensures Pushes(0, cycle, k).1 == (if (k / LINK_SLOT) % 2 == 0 then cycle else !cycle)
  {
    if k > 0 {
      PushesFromStart(cycle, k - 1);
      var j := k - 1;
      if j % LINK_SLOT + 1 == LINK_SLOT {
        assert k % LINK_SLOT == 0 && k / LINK_SLOT == j / LINK_SLOT + 1;
      } else {
        assert k % LINK_SLOT == j % LINK_SLOT + 1 && k / LINK_SLOT == j / LINK_SLOT;
      }
    }
  }

  /**
   * The command ring ORs the cycle bit into the Link TRB's word 3, the
   * transfer ring first clears bit 0; since the Link TRB is built with bit
   * 0 clear both write the same word.
   */
  lemma LinkCycleForms(ptr: bv64, cycle: bool)
    ensures LinkTrb(ptr).w3 | (if cycle then 1 else 0) == WithCycle(LinkTrb(ptr), cycle).w3
  {
  }

  class ProducerRing {
    /** The `TRBTable` (`#[repr(align(64))]`) and its physical address. */
    const table: array<Trb>
    const base: bv64
    var index: ProducerIndex
    var cycle: bool
    /** Every TRB handed to `push`, oldest first. */
    ghost var pushed: seq<Trb>

    ghost predicate Valid()
    {
      table.Length == TRB_BUF_LEN && base & 0x3f == 0
    }

    /** A zeroed table at a 64-byte aligned address, index 0, cycle true. */
    constructor (address: bv64)
      requires address & 0x3f == 0
      ensures Valid() && fresh(table)
      ensures base == address && index == 0 && cycle && pushed == []
      ensures forall i :: 0 <= i < TRB_BUF_LEN ==> table[i] == Trb(0, 0, 0, 0)
    {
      table := new Trb[TRB_BUF_LEN](_ => Trb(0, 0, 0, 0));
      base := address;
      index := 0;
      cycle := true;
      pushed := [];
    }

    /** The address of slot `i` (TRBs are 16 bytes). */
    function SlotAddress(i: nat): bv64
      requires i < TRB_BUF_LEN
    {
      base + (i as bv64) * 16
    }

    /** `MemPoolTrTRB::center`: the slot the next push writes. */
    function Center(): (p: bv64)
      reads this
      requires Valid()
      ensures p == SlotAddress(index) && p & 0xf == 0
    {
      SlotAddress(index)
    }

    /**
     * `push`: slot `index` receives the TRB with the ring's cycle bit; when
     * the index reaches the link slot, the Link TRB back to the table start
     * is written there with the same cycle bit, the index returns to 0 and
     * the cycle toggles. Nothing else in the table changes, and the link
     * slot never receives a data TRB.
     */
    method Push(t: Trb)
      requires Valid()
      modifies this, table
      ensures Valid()
      ensures (index, cycle) == Advance(old(index), old(cycle))
      ensures pushed == old(pushed) + [t]
      ensures table[old(index)] == WithCycle(t, old(cycle))
      ensures old(index) + 1 == LINK_SLOT ==> table[LINK_SLOT] == WithCycle(LinkTrb(base), old(cycle))
      ensures forall i :: 0 <= i < TRB_BUF_LEN && i != old(index) && (i != LINK_SLOT || old(index) + 1 != LINK_SLOT)
                ==> table[i] == old(table[i])
    {
      table[index] := WithCycle(t, cycle);
      pushed := pushed + [t];
      var next := index + 1;
      if next == LINK_SLOT {
        table[next] := WithCycle(LinkTrb(base), cycle);
        index := 0;
        cycle := !cycle;
      } else {
        index := next;
      }
    }
  }

  /** Two pushes in a row. */
  method PushTwo(ring: ProducerRing, first: Trb, second: Trb)
    requires ring.Valid()
    modifies ring, ring.table
    ensures ring.pushed == old(ring.pushed) + [first, second]
    ensures (ring.index, ring.cycle) == Pushes(old(ring.index), old(ring.cycle), 2)
  {
    ghost var start := (ring.index, ring.cycle);
    ring.Push(first);
    assert (ring.index, ring.cycle) == Pushes(start.0, start.1, 1);
    ring.Push(second);
  }

  /** Consumer position after taking one TRB: wraps after slot 31. */
  function ConsumerAdvance(index: nat, cycle: bool): (r: (nat, bool))
    requires index < TRB_BUF_LEN
    ensures r.0 < TRB_BUF_LEN
    ensures r.0 == (index + 1) % TRB_BUF_LEN
    ensures r.1 <==> (if r.0 == 0 then !cycle else cycle)
  {
    if index == TRB_BUF_LEN - 1 then (0, !cycle) else (index + 1, cycle)
  }

  class EventRing {
    const table: array<Trb>
    var index: ConsumerIndex
    var cycle: bool

    ghost predicate Valid()
    {
      table.Length == TRB_BUF_LEN
    }

    constructor ()
      ensures Valid() && fresh(table) && index == 0 && cycle
      ensures forall i :: 0 <= i < TRB_BUF_LEN ==> table[i] == Trb(0, 0, 0, 0)
    {
      table := new Trb[TRB_BUF_LEN](_ => Trb(0, 0, 0, 0));
      index := 0;
      cycle := true;
    }

    /**
     * `next_`: the TRB at `index` if its cycle bit matches the consumer's,
     * advancing past it; otherwise nothing, and the position is unchanged.
     * The table belongs to the controller and is only read.
     */
    method Next() returns (r: Option<Trb>)
      requires Valid()
      modifies this
      ensures Valid()
      ensures r.Some? <==> Cycle(table[old(index)]) == old(cycle)
      ensures r.Some? ==> r.value == table[old(index)]
      ensures r.Some? ==> (index, cycle) == ConsumerAdvance(old(index), old(cycle))
      ensures r.None? ==> index == old(index) && cycle == old(cycle)
    {
      var v := table[index];
      if Cycle(v) == cycle {
        if index == TRB_BUF_LEN - 1 {
          index := 0;
          cycle := !cycle;
        } else {
          index := index + 1;
        }
        r := Some(v);
      } else {
        r := None;
      }
    }
  }
}
