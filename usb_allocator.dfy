// kernel/src/usb/usb_allocator.rs: allocation from the kernel heap's free
// list for xHCI data structures, which must be aligned and must not cross a
// power-of-two boundary (a 64 KiB page, say). The walk is the one of
// `LinkedListAllocator::alloc` with one more rule: a start whose block would
// run past the next boundary moves to that boundary.
//
// The free list is the sequence of nodes of the Allocator module. Each
// operation exists as written and corrected (`asWritten`), see the two
// findings below; the allocator methods use the corrected walk.

module UsbAllocator {
  import opened Common
  import opened Allocator

  // ---- powers of two and boundaries ----------------------------------------

  /** `usize::is_power_of_two`. */
  predicate IsPowerOfTwo(x: nat)
    decreases x
  {
    x == 1 || (x >= 2 && x % 2 == 0 && IsPowerOfTwo(x / 2))
  }

  /** A power of two divides every larger power of two. */
  lemma {:induction false} PowerOfTwoDivides(a: nat, b: nat)
    requires IsPowerOfTwo(a) && IsPowerOfTwo(b) && a <= b
    ensures b % a == 0
    decreases a
  {
    if a == 1 {
      DivModUnique(b, 1, b, 0);
    } else {
      PowerOfTwoDivides(a / 2, b / 2);
      var q := (b / 2) / (a / 2);
      assert b / 2 == (a / 2) * q;
      assert b == a * q;
      MulMod(q, a);
    }
  }

  /** A multiple of a multiple of `a` is a multiple of `a`. */
  lemma MultipleOfMultiple(x: nat, b: nat, a: nat)
    requires a > 0 && b > 0 && x % b == 0 && b % a == 0
    ensures x % a == 0
  {
    var q1, q2 := x / b, b / a;
    assert x == b * q1 && b == a * q2;
    assert x == a * (q2 * q1);
    MulMod(q2 * q1, a);
  }

  /** Two addresses in the same `b`-window `[k*b, (k+1)*b)` have the same quotient. */
  lemma SameWindow(x: nat, y: nat, b: nat)
    requires b > 0 && x <= y < b * (x / b + 1)
    ensures y / b == x / b
  {
    var q := x / b;
    assert x == b * q + x % b;
    assert b * (q + 1) == b * q + b;
    DivModUnique(y, b, q, y - b * q);
  }

  /**
   * `next_boundary` as written: `head` rounded up to a multiple of
   * `boundary`, which is `head` itself when it lies on a boundary.
   */
  function NextBoundary(head: nat, boundary: nat): (r: nat)
    requires boundary > 0
    ensures r % boundary == 0 && head <= r < head + boundary
    ensures head % boundary == 0 <==> r == head
  {
    var q := head / boundary;
    assert head == boundary * q + head % boundary;
    if head % boundary == 0 then
      DivModUnique(head + boundary - 1, boundary, q, boundary - 1);
      MulMod(q, boundary);
      ((head + boundary - 1) / boundary) * boundary
    else
      DivModUnique(head + boundary - 1, boundary, q + 1, head % boundary - 1);
      MulMod(q + 1, boundary);
      ((head + boundary - 1) / boundary) * boundary
  }

  /**
   * The boundary the walk evidently means: the first one above `head`, so
   * that an aligned block starting on a boundary is taken from its start.
   */
  function BoundaryAbove(head: nat, boundary: nat): (r: nat)
    requires boundary > 0
    ensures r % boundary == 0 && head < r <= head + boundary
    ensures r == boundary * (head / boundary + 1)
  {
    var q := head / boundary;
    assert head == boundary * q + head % boundary;
    assert boundary * (q + 1) == boundary * q + boundary;
    MulMod(q + 1, boundary);
    boundary * (q + 1)
  }

  /** Off a boundary, both boundaries are the same. */
  lemma BoundaryAboveAgrees(head: nat, boundary: nat)
    requires boundary > 0 && head % boundary != 0
    ensures BoundaryAbove(head, boundary) == NextBoundary(head, boundary)
  {
    var written := NextBoundary(head, boundary);
    var fixed := BoundaryAbove(head, boundary);
    var q := head / boundary;
    assert head == boundary * q + head % boundary;
    assert fixed < head + boundary;
    if written <= fixed {
      MultiplesApart(written, fixed, boundary);
    } else {
      MultiplesApart(fixed, written, boundary);
    }
  }

  // ---- one block -----------------------------------------------------------

  /** Every block left by a carve can hold its node. */
  predicate Fits(xs: seq<Node>)
  {
    forall j :: 0 <= j < |xs| ==> xs[j].size >= LIST_SIZE
  }

  /**
   * One iteration of the loop of `alloc_with_boundary_unchecked` on a free
   * block `n`: the blocks that replace it and the address returned, or None
   * to go on. An aligned block whose first `size` bytes stay below the
   * next boundary is taken from its start (unlinked on an exact fit, split
   * otherwise); in every other case the start is the misaligned start of
   * `alloc`, moved to the next boundary when the block would cross it, and
   * the front part stays on the list. The corrected walk takes the next
   * boundary above `head`, starts misaligned blocks where a node still fits
   * in front, and passes over a block when a part left would be smaller
   * than a node.
   */
  function BoundaryCarve(n: Node, size: nat, align: nat, boundary: nat, asWritten: bool): (r: Option<(seq<Node>, nat)>)
    requires align > 0 && boundary > 0
  {
    var head := n.addr;
    var end := n.size + head;
    var res := head % align;
    var nb := if asWritten then NextBoundary(head, boundary) else BoundaryAbove(head, boundary);
    var carved :=
      if res == 0 && head + size <= nb then
        if head + size == end then Some(([], head))
        else if head + size + LIST_SIZE <= end then Some(([Node(head + size, n.size - size)], head))
        else None
      else
        var start :=
          if head + size <= nb then
            var s := if asWritten then MisalignedStart(head, align) else GapStart(head, align);
            if s + size > nb then nb else s
          else nb;
        if start + size == end then Some(([Node(head, n.size - size)], start))
        else if start + size + LIST_SIZE <= end then
          Some(([Node(head, start - head), Node(start + size, end - (start + size))], start))
        else None;
    if carved.Some? && !asWritten && !Fits(carved.value.0) then None else carved
  }

  /** Where the corrected carve can start a block: at `head`, a misaligned start, or the next boundary. */
  lemma BoundaryCarveStart(n: Node, size: nat, align: nat, boundary: nat)
    requires align > 0 && boundary > 0 && BoundaryCarve(n, size, align, boundary, false).Some?
    ensures var p := BoundaryCarve(n, size, align, boundary, false).value.1;
      var nb := BoundaryAbove(n.addr, boundary);
      || (p == n.addr && p % align == 0 && p + size <= nb)
      || (p == GapStart(n.addr, align) && p + size <= nb)
      || p == nb
  {
  }

  /**
   * The four outcomes of the corrected carve: the whole block, its tail,
   * its front, or its front and tail are left; each part can hold a node.
   */
  lemma BoundaryCarveShape(n: Node, size: nat, align: nat, boundary: nat)
    requires align > 0 && boundary > 0 && BoundaryCarve(n, size, align, boundary, false).Some?
    ensures var (xs, p) := BoundaryCarve(n, size, align, boundary, false).value;
      && n.addr <= p && p + size <= End(n) && Fits(xs)
      && (|| (xs == [] && p == n.addr && p + size == End(n))
          || (xs == [Node(p + size, End(n) - (p + size))] && p == n.addr)
          || (xs == [Node(n.addr, p - n.addr)] && p + size == End(n))
          || xs == [Node(n.addr, p - n.addr), Node(p + size, End(n) - (p + size))])
  {
  }

  /**
   * The parts the corrected carve leaves lie inside the block, clear of
   * the bytes handed out, can each hold a node, are in order, and hold
   * exactly `size` bytes fewer.
   */
  lemma BoundaryCarveTakes(n: Node, size: nat, align: nat, boundary: nat)
    requires align > 0 && boundary > 0 && BoundaryCarve(n, size, align, boundary, false).Some?
    ensures var (xs, p) := BoundaryCarve(n, size, align, boundary, false).value;
      && n.addr <= p && p + size <= End(n)
      && Total(xs) + size == n.size
      && (forall j :: 0 <= j < |xs| ==> n.addr <= xs[j].addr && End(xs[j]) <= End(n))
      && Apart(xs, p, size)
      && WellFormed(xs)
  {
    var (xs, p) := BoundaryCarve(n, size, align, boundary, false).value;
    BoundaryCarveShape(n, size, align, boundary);
    if |xs| == 1 {
      TotalOne(xs[0]);
    } else if |xs| == 2 {
      TotalTwo(xs[0], xs[1]);
    }
  }

  /**
   * The corrected carve returns an address that is a multiple of `align`
   * and whose first `request` bytes, for a request the rounded `size`
   * covers and the boundary holds, do not cross a multiple of `boundary`.
   */
  lemma BoundaryCarveWindow(n: Node, size: nat, request: nat, align: nat, boundary: nat)
    requires IsPowerOfTwo(align) && IsPowerOfTwo(boundary) && align <= boundary
    requires 0 < request <= size && request <= boundary
    requires BoundaryCarve(n, size, align, boundary, false).Some?
    ensures var p := BoundaryCarve(n, size, align, boundary, false).value.1;
      p % align == 0 && p / boundary == (p + request - 1) / boundary
  {
    var p := BoundaryCarve(n, size, align, boundary, false).value.1;
    var head := n.addr;
    var nb := BoundaryAbove(head, boundary);
    BoundaryCarveStart(n, size, align, boundary);
    if p == nb {
      PowerOfTwoDivides(align, boundary);
      MultipleOfMultiple(nb, boundary, align);
      var q := head / boundary + 1;
      DivModUnique(nb, boundary, q, 0);
      assert boundary * (q + 1) == nb + boundary;
      SameWindow(nb, p + request - 1, boundary);
    } else {
      SameWindow(head, p, boundary);
      SameWindow(head, p + request - 1, boundary);
    }
  }

  // ---- the walk ------------------------------------------------------------

  /** One iteration of the loop on block `k` of the list. */
  function BoundaryTakeAt(free: seq<Node>, k: nat, size: nat, align: nat, boundary: nat, asWritten: bool): Option<(seq<Node>, nat)>
    requires k < |free| && align > 0 && boundary > 0
  {
    match BoundaryCarve(free[k], size, align, boundary, asWritten)
    case Some(carved) => Some((free[..k] + carved.0 + free[k + 1..], carved.1))
    case None => None
  }

  /** The loop from block `k` on: the address returned and the new list. */
  function BoundaryAllocFrom(free: seq<Node>, k: nat, size: nat, align: nat, boundary: nat, asWritten: bool): (Option<nat>, seq<Node>)
    requires k <= |free| && align > 0 && boundary > 0
    decreases |free| - k
  {
    if k == |free| then (None, free)
    else
      match BoundaryTakeAt(free, k, size, align, boundary, asWritten)
      case Some(taken) => (Some(taken.1), taken.0)
      case None => BoundaryAllocFrom(free, k + 1, size, align, boundary, asWritten)
  }

  /**
   * `alloc_with_boundary_unchecked`: the size is rounded up to a node; a
   * boundary of 0 is the plain `alloc`, otherwise the walk above (an empty
   * list gives null).
   */
  function BoundaryAllocOn(free: seq<Node>, size: nat, align: nat, boundary: nat, asWritten: bool): (Option<nat>, seq<Node>)
    requires align > 0
  {
    if boundary == 0 then
      if asWritten then AllocOnAsWritten(free, RoundSize(size), align) else AllocOn(free, RoundSize(size), align)
    else BoundaryAllocFrom(free, 0, RoundSize(size), align, boundary, asWritten)
  }

  /** Rounding a size twice is rounding it once. */
  lemma RoundSizeIdempotent(size: nat)
    ensures RoundSize(RoundSize(size)) == RoundSize(size)
  {
  }

  /** A carve of block `k` takes `size` bytes at an aligned, non-crossing address inside it from the list. */
  lemma BoundaryTakeAtTakes(free: seq<Node>, k: nat, size: nat, request: nat, align: nat, boundary: nat)
    requires k < |free| && IsPowerOfTwo(align) && IsPowerOfTwo(boundary) && align <= boundary
    requires 0 < request <= size && request <= boundary
    requires BoundaryTakeAt(free, k, size, align, boundary, false).Some?
    ensures var (rest, p) := BoundaryTakeAt(free, k, size, align, boundary, false).value;
      && p % align == 0 && free[k].addr <= p && p + size <= End(free[k])
      && p / boundary == (p + request - 1) / boundary
      && Total(rest) + size == Total(free)
      && (WellFormed(free) ==> WellFormed(rest))
      && (WellFormed(free) ==> Apart(rest, p, size))
  {
    BoundaryTakeAtWindow(free, k, size, request, align, boundary);
    BoundaryTakeAtTotal(free, k, size, align, boundary);
    if WellFormed(free) {
      BoundaryTakeAtWellFormed(free, k, size, align, boundary);
      BoundaryTakeAtApart(free, k, size, align, boundary);
    }
  }

  /** The address part of `BoundaryTakeAtTakes`. */
  lemma BoundaryTakeAtWindow(free: seq<Node>, k: nat, size: nat, request: nat, align: nat, boundary: nat)
    requires k < |free| && IsPowerOfTwo(align) && IsPowerOfTwo(boundary) && align <= boundary
    requires 0 < request <= size && request <= boundary
    requires BoundaryTakeAt(free, k, size, align, boundary, false).Some?
    ensures var p := BoundaryTakeAt(free, k, size, align, boundary, false).value.1;
      && p % align == 0 && free[k].addr <= p && p + size <= End(free[k])
      && p / boundary == (p + request - 1) / boundary
  {
    BoundaryCarveWindow(free[k], size, request, align, boundary);
    BoundaryCarveTakes(free[k], size, align, boundary);
  }

  /** The free-bytes part of `BoundaryTakeAtTakes`. */
  lemma BoundaryTakeAtTotal(free: seq<Node>, k: nat, size: nat, align: nat, boundary: nat)
    requires k < |free| && IsPowerOfTwo(align) && IsPowerOfTwo(boundary) && align <= boundary
    requires BoundaryTakeAt(free, k, size, align, boundary, false).Some?
    ensures Total(BoundaryTakeAt(free, k, size, align, boundary, false).value.0) + size == Total(free)
  {
    var n := free[k];
    var (xs, p) := BoundaryCarve(n, size, align, boundary, false).value;
    BoundaryCarveTakes(n, size, align, boundary);
    assert free[k..k + 1] == [n];
    TotalOne(n);
    ReplaceRangeTotal(free, k, k + 1, xs);
  }

  /** The well-formedness part of `BoundaryTakeAtTakes`. */
  lemma BoundaryTakeAtWellFormed(free: seq<Node>, k: nat, size: nat, align: nat, boundary: nat)
    requires k < |free| && IsPowerOfTwo(align) && IsPowerOfTwo(boundary) && align <= boundary
    requires BoundaryTakeAt(free, k, size, align, boundary, false).Some? && WellFormed(free)
    ensures WellFormed(BoundaryTakeAt(free, k, size, align, boundary, false).value.0)
  {
    var n := free[k];
    var (xs, p) := BoundaryCarve(n, size, align, boundary, false).value;
    BoundaryCarveTakes(n, size, align, boundary);
    assert 0 < k ==> End(free[k - 1]) <= n.addr;
    ReplaceRangeWellFormed(free, k, k + 1, xs, n.addr, End(n));
  }

  /** The disjointness part of `BoundaryTakeAtTakes`. */
  lemma BoundaryTakeAtApart(free: seq<Node>, k: nat, size: nat, align: nat, boundary: nat)
    requires k < |free| && align > 0 && boundary > 0
    requires BoundaryTakeAt(free, k, size, align, boundary, false).Some? && WellFormed(free)
    ensures var (rest, p) := BoundaryTakeAt(free, k, size, align, boundary, false).value;
      Apart(rest, p, size)
  {
    var n := free[k];
    var (xs, p) := BoundaryCarve(n, size, align, boundary, false).value;
    BoundaryCarveTakes(n, size, align, boundary);
    ReplaceApart(free, k, xs, p, size);
  }

  /** The corrected walk from block `k`: see `BoundaryAllocProperties`. */
  lemma {:induction false} BoundaryAllocFromProperties(free: seq<Node>, k: nat, size: nat, request: nat, align: nat, boundary: nat)
    requires k <= |free| && IsPowerOfTwo(align) && IsPowerOfTwo(boundary) && align <= boundary
    requires 0 < request <= size && request <= boundary
    ensures var (p, rest) := BoundaryAllocFrom(free, k, size, align, boundary, false);
      && (p.None? ==> rest == free)
      && (p.Some? ==> p.value % align == 0 && Total(rest) + size == Total(free))
      && (p.Some? ==> p.value / boundary == (p.value + request - 1) / boundary)
      && (p.Some? ==> exists j :: k <= j < |free| && free[j].addr <= p.value && p.value + size <= End(free[j]))
      && (p.Some? && WellFormed(free) ==> WellFormed(rest))
      && (p.Some? && WellFormed(free) ==> Apart(rest, p.value, size))
    decreases |free| - k
  {
    if k < |free| {
      if BoundaryTakeAt(free, k, size, align, boundary, false).Some? {
        BoundaryTakeAtTakes(free, k, size, request, align, boundary);
      } else {
        BoundaryAllocFromProperties(free, k + 1, size, request, align, boundary);
      }
    }
  }

  /**
   * The corrected `alloc_with_boundary_unchecked`, for arguments the
   * source's safety comment allows: a block is returned only from a free
   * block, at a multiple of `align`, and its `size` requested bytes do not
   * cross a multiple of `boundary`; exactly the rounded size leaves the
   * list, which stays well formed and keeps no block overlapping the
   * bytes handed out; null leaves the list as it was.
   */
  lemma BoundaryAllocProperties(free: seq<Node>, size: nat, align: nat, boundary: nat)
    requires IsPowerOfTwo(align) && 0 < size
    requires boundary == 0 || (IsPowerOfTwo(boundary) && size <= boundary && align <= boundary)
    ensures var (p, rest) := BoundaryAllocOn(free, size, align, boundary, false);
      && (p.None? ==> rest == free)
      && (p.Some? ==> p.value % align == 0 && Total(rest) + RoundSize(size) == Total(free))
      && (p.Some? && boundary > 0 ==> p.value / boundary == (p.value + size - 1) / boundary)
      && (p.Some? ==> exists j :: 0 <= j < |free| && free[j].addr <= p.value && p.value + RoundSize(size) <= End(free[j]))
      && (p.Some? && WellFormed(free) ==> WellFormed(rest))
      && (p.Some? && WellFormed(free) ==> Apart(rest, p.value, RoundSize(size)))
  {
    if boundary == 0 {
      RoundSizeIdempotent(size);
      AllocOnProperties(free, RoundSize(size), align);
    } else {
      assert BoundaryAllocOn(free, size, align, boundary, false) == BoundaryAllocFrom(free, 0, RoundSize(size), align, boundary, false);
      BoundaryAllocFromProperties(free, 0, RoundSize(size), size, align, boundary);
    }
  }

  /** An empty list has nothing to give, with or without a boundary. */
  lemma BoundaryAllocEmpty(size: nat, align: nat, boundary: nat, asWritten: bool)
    requires align > 0
    ensures BoundaryAllocOn([], size, align, boundary, asWritten).0.None?
  {
  }

  /** With a boundary of 0 the walk is the plain `alloc` of the rounded size. */
  lemma BoundaryZeroIsAlloc(free: seq<Node>, size: nat, align: nat)
    requires align > 0
    ensures BoundaryAllocOn(free, size, align, 0, false) == AllocOn(free, size, align)
  {
    RoundSizeIdempotent(size);
    assert AllocOn(free, RoundSize(size), align) == AllocFrom(free, 0, RoundSize(size), align, false);
  }

  /**
   * As written, a free block that starts on a boundary is never taken from
   * its start by the aligned branch: `next_boundary` is the block's own
   * address. For 64 bytes aligned and bounded by 64 from the block at 64
   * of 64 bytes, the walk returns 64 but leaves a node of size 0 at 64, on
   * the block it returned; the corrected walk unlinks the block.
   */
  lemma BoundaryOnBoundaryAsWritten()
    ensures BoundaryAllocOn([Node(64, 64)], 64, 64, 64, true) == (Some(64), [Node(64, 0)])
    ensures !WellFormed([Node(64, 0)])
    ensures BoundaryAllocOn([Node(64, 64)], 64, 64, 64, false) == (Some(64), [])
  {
    var free := [Node(64, 64)];
    assert free[..0] == [] && free[1..] == [];
    assert NextBoundary(64, 64) == 64;
    assert BoundaryAbove(64, 64) == 128;
    assert BoundaryCarve(free[0], 64, 64, 64, true) == Some(([Node(64, 0)], 64));
    assert BoundaryTakeAt(free, 0, 64, 64, 64, true) == Some(([Node(64, 0)], 64)) by {
      assert free[..0] + [Node(64, 0)] + free[1..] == [Node(64, 0)];
    }
    assert [Node(64, 0)][0].size < LIST_SIZE;
    assert BoundaryCarve(free[0], 64, 64, 64, false) == Some(([], 64));
    assert BoundaryTakeAt(free, 0, 64, 64, 64, false) == Some(([], 64)) by {
      assert free[..0] + [] + free[1..] == [];
    }
  }

  /**
   * As written, moving the start up to the next boundary can leave a
   * front part shorter than a list node: from the block at 60 of 200
   * bytes, 16 bytes aligned to 4 and bounded by 64 start at 64 and keep
   * 4 bytes at 60, whose node overlaps the block returned. The corrected
   * carve passes over the block.
   */
  lemma BoundarySmallFrontAsWritten()
    ensures BoundaryCarve(Node(60, 200), 16, 4, 64, true) == Some(([Node(60, 4), Node(80, 180)], 64))
    ensures !WellFormed([Node(60, 4), Node(80, 180)])
    ensures BoundaryCarve(Node(60, 200), 16, 4, 64, false).None?
  {
    assert NextBoundary(60, 64) == 64 by {
      assert 60 % 64 != 0;
    }
    assert BoundaryAbove(60, 64) == 64 by {
      assert 60 / 64 == 0;
    }
    assert !Fits([Node(60, 4), Node(80, 180)]) by {
      assert [Node(60, 4), Node(80, 180)][0].size < LIST_SIZE;
    }
  }

  // ---- the checks of alloc_with_boundary -------------------------------------

  /**
   * The assertions `alloc_with_boundary` makes of its arguments: `align`
   * a power of two; `boundary` 0 or a power of two at least `size` and
   * `align`.
   */
  predicate ArgumentsValid(size: nat, align: nat, boundary: nat)
  {
    IsPowerOfTwo(align) && (boundary == 0 || (IsPowerOfTwo(boundary) && size <= boundary && align <= boundary))
  }

  /**
   * The assertions on the block returned: a multiple of `align` and, with
   * a boundary, not crossing one. As written, `us / boundary == (us +
   * size) / boundary` also rejects a block that ends exactly on a
   * boundary; the corrected test compares the block's first and last byte.
   */
  predicate ResultValid(us: nat, size: nat, align: nat, boundary: nat, asWritten: bool)
    requires align > 0
  {
    && us % align == 0
    && (boundary == 0 || size == 0
        || (if asWritten then us / boundary == (us + size) / boundary
            else us / boundary == (us + size - 1) / boundary))
  }

  /**
   * `alloc_with_boundary`: None where the source panics (an argument
   * assertion, "oom", or an assertion on the result); otherwise the block
   * and the new list.
   */
  function AllocWithBoundaryOn(free: seq<Node>, size: nat, align: nat, boundary: nat, asWritten: bool): (r: Option<(nat, seq<Node>)>)
    ensures r.Some? ==> ArgumentsValid(size, align, boundary)
    ensures r.Some? && align > 0 ==> ResultValid(r.value.0, size, align, boundary, asWritten)
  {
    if !ArgumentsValid(size, align, boundary) then None
    else
      assert align > 0;
      var (p, rest) := BoundaryAllocOn(free, size, align, boundary, asWritten);
      if p.None? || !ResultValid(p.value, size, align, boundary, asWritten) then None
      else Some((p.value, rest))
  }

  /**
   * With the corrected walk and test, `alloc_with_boundary` panics only on
   * invalid arguments or when no block fits: whenever the walk returns a
   * block, the result assertions hold of it.
   */
  lemma AllocWithBoundaryPanicsOnlyWhenOut(free: seq<Node>, size: nat, align: nat, boundary: nat)
    requires ArgumentsValid(size, align, boundary)
    ensures AllocWithBoundaryOn(free, size, align, boundary, false).None?
            <==> BoundaryAllocOn(free, size, align, boundary, false).0.None?
  {
    var (p, rest) := BoundaryAllocOn(free, size, align, boundary, false);
    if size > 0 {
      BoundaryAllocProperties(free, size, align, boundary);
    } else {
      BoundaryAllocProperties(free, 1, align, boundary);
      assert RoundSize(size) == RoundSize(1);
    }
  }

  /** As written, a request of exactly `boundary` bytes always fails the result assertion. */
  lemma FullBoundaryAlwaysPanics(us: nat, boundary: nat, align: nat)
    requires boundary > 0 && align > 0
    ensures !ResultValid(us, boundary, align, boundary, true)
  {
    var q := us / boundary;
    assert us == boundary * q + us % boundary;
    DivModUnique(us + boundary, boundary, q + 1, us % boundary);
  }

  /**
   * As written, 64 bytes aligned and bounded by 64 from the free block at
   * 16 of 4080 bytes panic, although the block the walk finds at 64 crosses
   * no boundary; the corrected test returns it.
   */
  lemma FullBoundaryExample()
    ensures AllocWithBoundaryOn([Node(16, 4080)], 64, 64, 64, true).None?
    ensures AllocWithBoundaryOn([Node(16, 4080)], 64, 64, 64, false) == Some((64, [Node(16, 48), Node(128, 3968)]))
  {
    var free := [Node(16, 4080)];
    var rest := [Node(16, 48), Node(128, 3968)];
    assert IsPowerOfTwo(64) by {
      assert IsPowerOfTwo(2) && IsPowerOfTwo(4) && IsPowerOfTwo(8) && IsPowerOfTwo(16) && IsPowerOfTwo(32);
    }
    assert free[..0] + rest + free[1..] == rest;
    assert NextBoundary(16, 64) == 64;
    assert BoundaryAbove(16, 64) == 64;
    assert BoundaryCarve(free[0], 64, 64, 64, true) == Some((rest, 64));
    assert BoundaryCarve(free[0], 64, 64, 64, false) == Some((rest, 64));
    assert BoundaryTakeAt(free, 0, 64, 64, 64, true) == Some((rest, 64));
    assert BoundaryTakeAt(free, 0, 64, 64, 64, false) == Some((rest, 64));
    FullBoundaryAlwaysPanics(64, 64, 64);
    assert 127 / 64 == 1;
  }

  // ---- the allocator methods -----------------------------------------------

  /**
   * `alloc_with_boundary_unchecked` on the heap, corrected: the walk over
   * the free list.
   */
  method AllocWithBoundaryUnchecked(heap: LinkedListAllocator, size: nat, align: nat, boundary: nat) returns (p: Option<nat>)
    requires align > 0
    modifies heap
    ensures (p, heap.free) == BoundaryAllocOn(old(heap.free), size, align, boundary, false)
  {
    var rounded := RoundSize(size);
    if boundary == 0 {
      p := heap.Alloc(rounded, align);
      return;
    }
    var k := 0;
    while k < |heap.free|
      invariant k <= |heap.free| && heap.free == old(heap.free)
      invariant BoundaryAllocFrom(heap.free, k, rounded, align, boundary, false)
                == BoundaryAllocOn(old(heap.free), size, align, boundary, false)
      decreases |heap.free| - k
    {
      var taken := BoundaryTakeAt(heap.free, k, rounded, align, boundary, false);
      if taken.Some? {
        heap.free := taken.value.0;
        return Some(taken.value.1);
      }
      k := k + 1;
    }
    p := None;
  }

  /**
   * `alloc_with_boundary`, corrected: `ok` is false where the source
   * panics (invalid arguments, or no block fits); otherwise `p` is the
   * block, aligned and within one boundary window.
   */
  method AllocWithBoundary(heap: LinkedListAllocator, size: nat, align: nat, boundary: nat) returns (p: nat, ok: bool)
    modifies heap
    ensures ok <==> AllocWithBoundaryOn(old(heap.free), size, align, boundary, false).Some?
    ensures ok ==> (p, heap.free) == AllocWithBoundaryOn(old(heap.free), size, align, boundary, false).value
  {
    p := 0;
    ok := ArgumentsValid(size, align, boundary);
    if !ok {
      return;
    }
    ghost var before := heap.free;
    var r := AllocWithBoundaryUnchecked(heap, size, align, boundary);
    AllocWithBoundaryPanicsOnlyWhenOut(before, size, align, boundary);
    ok := r.Some?;
    if ok {
      p := r.value;
      assert AllocWithBoundaryOn(before, size, align, boundary, false) == Some((p, heap.free));
    }
  }

  /**
   * `alloc_with_boundary_zeroed`: the block's first `size` bytes of `mem`
   * (the physical memory) become 0 and nothing else in memory changes.
   */
  method AllocWithBoundaryZeroed(heap: LinkedListAllocator, mem: array<bv8>, size: nat, align: nat, boundary: nat)
    returns (p: nat, ok: bool)
    modifies heap, mem
    ensures ok <==> AllocWithBoundaryOn(old(heap.free), size, align, boundary, false).Some?
    ensures ok ==> (p, heap.free) == AllocWithBoundaryOn(old(heap.free), size, align, boundary, false).value
    ensures ok && p + size <= mem.Length ==> forall i :: p <= i < p + size ==> mem[i] == 0
    ensures forall i :: 0 <= i < mem.Length && !(ok && p <= i < p + size) ==> mem[i] == old(mem[i])
  {
    p, ok := AllocWithBoundary(heap, size, align, boundary);
    if ok && p + size <= mem.Length {
      var i := p;
      while i < p + size
        modifies mem
        invariant p <= i <= p + size
        invariant forall j :: p <= j < i ==> mem[j] == 0
        invariant forall j :: 0 <= j < mem.Length && !(p <= j < i) ==> mem[j] == old(mem[j])
      {
        mem[i] := 0;
        i := i + 1;
      }
    }
  }
}
