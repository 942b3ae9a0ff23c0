// kernel/src/allocator.rs: the kernel heap. `LinkedListAllocator` keeps an
// address-ordered list of free blocks, each block holding its own `List`
// node (size, next) at its start; `alloc` walks the list for the first block
// that can hold the request and carves it, `dealloc` walks to the freed
// block's place and links it in, merging it with its neighbours.
// `SimplestAllocator` is a bump allocator.
//
// The list reached from `center` is modelled as the sequence of its nodes
// (address and size), in link order; a null `center` is the empty sequence.
// Addresses are naturals; `usize` overflow is not modelled.

module Allocator {
  import opened Common

  /** `size_of::<List>()`: a `usize` size and a next pointer. */
  const LIST_SIZE: nat := 16

  /** A free block: the node at `addr` heads `size` free bytes. */
  datatype Node = Node(addr: nat, size: nat)

  /** The first address past a free block. */
  function End(n: Node): nat
  {
    n.addr + n.size
  }

  /** Requests below `LIST_SIZE` are rounded up, so that a freed block can hold a node. */
  function RoundSize(size: nat): (r: nat)
    ensures r >= LIST_SIZE && r >= size
    ensures size >= LIST_SIZE ==> r == size
  {
    if size < LIST_SIZE then LIST_SIZE else size
  }

  // ---- alignment arithmetic ------------------------------------------------

  lemma Mono(a: int, k: int)
    requires a > 0 && k >= 1
    ensures a * k >= a
  {
  }

  /** `x % a` is the remainder of any quotient-remainder split of `x`. */
  lemma DivModUnique(x: int, a: int, d: int, r: int)
    requires a > 0 && 0 <= r < a && x == a * d + r
    ensures x % a == r && x / a == d
  {
    var d', r' := x / a, x % a;
    assert a * (d - d') == r' - r;
    if d - d' >= 1 {
      Mono(a, d - d');
    } else if d - d' <= -1 {
      Mono(a, d' - d);
    }
  }

  /** Multiples of `a` are 0 modulo `a`. */
  lemma MulMod(q: nat, a: nat)
    requires a > 0
    ensures (a * q) % a == 0
  {
    DivModUnique(a * q, a, q, 0);
  }

  /** Two multiples of `a` less than `a` apart are equal. */
  lemma MultiplesApart(m1: nat, m2: nat, a: nat)
    requires a > 0 && m1 % a == 0 && m2 % a == 0 && m1 <= m2 < m1 + a
    ensures m1 == m2
  {
    var q1 := m1 / a;
    assert m1 == a * q1;
    DivModUnique(m2, a, q1, m2 - m1);
  }

  /** The least multiple of `align` that is at least `x`. */
  function RoundUp(x: nat, align: nat): (r: nat)
    requires align > 0
    ensures r % align == 0 && x <= r < x + align
  {
    if x % align == 0 then x
    else
      MulMod(x / align + 1, align);
      x - x % align + align
  }

  /**
   * The start of a block carved from a misaligned free block at `head`,
   * as written: the next multiple of `align`, or the one after it when the
   * gap left in front would be shorter than `LIST_SIZE`.
   */
  function MisalignedStart(head: nat, align: nat): (r: nat)
    requires align > 0 && head % align != 0
    ensures r % align == 0 && head < r
  {
    var res := head % align;
    var next := RoundUp(head, align);
    assert next == head + align - res;
    if align - res >= LIST_SIZE then next
    else
      MulMod(next / align + 1, align);
      assert next + align == align * (next / align + 1);
      next + align
  }

  /**
   * The start of a block carved from a misaligned free block, corrected:
   * the least multiple of `align` that leaves room for a node in front.
   */
  function GapStart(head: nat, align: nat): (r: nat)
    requires align > 0
    ensures r % align == 0 && head + LIST_SIZE <= r < head + LIST_SIZE + align
  {
    RoundUp(head + LIST_SIZE, align)
  }

  /** For alignments of at least `LIST_SIZE` the correction changes nothing. */
  lemma GapStartAgrees(head: nat, align: nat)
    requires align >= LIST_SIZE && head % align != 0
    ensures GapStart(head, align) == MisalignedStart(head, align)
  {
    var written := MisalignedStart(head, align);
    var fixed := GapStart(head, align);
    var res := head % align;
    assert RoundUp(head, align) == head + align - res;
    if written <= fixed {
      MultiplesApart(written, fixed, align);
    } else {
      MultiplesApart(fixed, written, align);
    }
  }

  // ---- the free list -------------------------------------------------------

  /**
   * Every block can hold its node, and each block ends at or before the
   * next one starts: the blocks are in address order and do not overlap.
   */
  ghost predicate WellFormed(free: seq<Node>)
  {
    && (forall i :: 0 <= i < |free| ==> free[i].size >= LIST_SIZE)
    && (forall i, j {:trigger free[i], free[j]} :: 0 <= i && j == i + 1 && j < |free| ==> End(free[i]) <= free[j].addr)
  }

  /** The free bytes on the list. */
  function Total(free: seq<Node>): nat
    decreases |free|
  {
    if free == [] then 0 else free[0].size + Total(free[1..])
  }

  lemma {:induction false} TotalConcat(a: seq<Node>, b: seq<Node>)
    ensures Total(a + b) == Total(a) + Total(b)
    decreases |a|
  {
    if a == [] {
      assert a + b == b;
    } else {
      TotalConcat(a[1..], b);
      assert (a + b)[1..] == a[1..] + b;
    }
  }

  /** Blocks `lo .. hi-1` replaced by `xs`: the free bytes change by the difference. */
  lemma ReplaceRangeTotal(free: seq<Node>, lo: nat, hi: nat, xs: seq<Node>)
    requires lo <= hi <= |free|
    ensures Total(free[..lo] + xs + free[hi..]) + Total(free[lo..hi]) == Total(free) + Total(xs)
  {
    assert free == free[..lo] + free[lo..hi] + free[hi..];
    TotalConcat(free[..lo] + free[lo..hi], free[hi..]);
    TotalConcat(free[..lo], free[lo..hi]);
    TotalConcat(free[..lo] + xs, free[hi..]);
    TotalConcat(free[..lo], xs);
  }

  /**
   * Blocks `lo .. hi-1` replaced by a well-formed `xs` lying between the
   * blocks kept on either side: the list stays well formed.
   */
  lemma ReplaceRangeWellFormed(free: seq<Node>, lo: nat, hi: nat, xs: seq<Node>, lower: nat, upper: nat)
    requires lo <= hi <= |free| && WellFormed(free) && WellFormed(xs) && lower <= upper
    requires forall j :: 0 <= j < |xs| ==> lower <= xs[j].addr && End(xs[j]) <= upper
    requires 0 < lo ==> End(free[lo - 1]) <= lower
    requires hi < |free| ==> upper <= free[hi].addr
    ensures WellFormed(free[..lo] + xs + free[hi..])
  {
    var r := free[..lo] + xs + free[hi..];
    var m := lo + |xs|;
    forall i | 0 <= i < |r|
      ensures r[i].size >= LIST_SIZE
    {
      if i < lo {
        assert r[i] == free[i];
      } else if i < m {
        assert r[i] == xs[i - lo];
      } else {
        assert r[i] == free[i - m + hi];
      }
    }
    forall i, j | 0 <= i && j == i + 1 && j < |r|
      ensures End(r[i]) <= r[j].addr
    {
      ReplacedPair(free, lo, hi, xs, lower, upper, r, i);
    }
  }

  /** Neighbours `i` and `i + 1` of the list `ReplaceRangeWellFormed` builds are in order. */
  lemma ReplacedPair(free: seq<Node>, lo: nat, hi: nat, xs: seq<Node>, lower: nat, upper: nat, r: seq<Node>, i: nat)
    requires lo <= hi <= |free| && WellFormed(free) && WellFormed(xs) && lower <= upper
    requires forall j :: 0 <= j < |xs| ==> lower <= xs[j].addr && End(xs[j]) <= upper
    requires 0 < lo ==> End(free[lo - 1]) <= lower
    requires hi < |free| ==> upper <= free[hi].addr
    requires r == free[..lo] + xs + free[hi..] && i + 1 < |r|
    ensures End(r[i]) <= r[i + 1].addr
  {
    var m := lo + |xs|;
    if i + 1 < lo {
      assert r[i] == free[i] && r[i + 1] == free[i + 1];
    } else if i + 1 == lo {
      assert r[i] == free[i];
      if 0 < |xs| {
        assert r[i + 1] == xs[0];
      } else {
        assert r[i + 1] == free[hi];
      }
    } else if i + 1 < m {
      assert r[i] == xs[i - lo] && r[i + 1] == xs[i + 1 - lo];
    } else if i + 1 == m {
      assert r[i] == xs[i - lo] && r[i + 1] == free[hi];
    } else {
      assert r[i] == free[i - m + hi] && r[i + 1] == free[i + 1 - m + hi];
    }
  }

  /** In a well-formed list every block ends before any later block starts. */
  lemma {:induction false} Ordered(free: seq<Node>, i: nat, j: nat)
    requires WellFormed(free) && i < j < |free|
    ensures End(free[i]) <= free[j].addr
    decreases j - i
  {
    assert End(free[i]) <= free[i + 1].addr;
    if i + 1 < j {
      Ordered(free, i + 1, j);
    }
  }

  /** The `size` bytes at `p` overlap no block of `free`. */
  predicate Apart(free: seq<Node>, p: nat, size: nat)
  {
    forall i :: 0 <= i < |free| ==> End(free[i]) <= p || p + size <= free[i].addr
  }

  /**
   * Block `k` of a well-formed list, holding the `size` bytes at `p`, is
   * replaced by parts clear of those bytes: no block of the new list
   * overlaps them, since the blocks before `k` end before it and the
   * blocks after it start after it.
   */
  lemma ReplaceApart(free: seq<Node>, k: nat, xs: seq<Node>, p: nat, size: nat)
    requires WellFormed(free) && k < |free| && Apart(xs, p, size)
    requires free[k].addr <= p && p + size <= End(free[k])
    ensures Apart(free[..k] + xs + free[k + 1..], p, size)
  {
    var r := free[..k] + xs + free[k + 1..];
    forall i | 0 <= i < |r|
      ensures End(r[i]) <= p || p + size <= r[i].addr
    {
      if i < k {
        assert r[i] == free[i];
        Ordered(free, i, k);
      } else if i < k + |xs| {
        assert r[i] == xs[i - k];
      } else {
        assert r[i] == free[i - |xs| + 1];
        Ordered(free, k, i - |xs| + 1);
      }
    }
  }

  // ---- alloc ---------------------------------------------------------------

  /**
   * What one iteration of the loop of `alloc` makes of a free block `n`:
   * the blocks that replace it and the address returned, or None to go on
   * to the next block. An aligned block of exactly `size` bytes is
   * unlinked; an aligned block with room for a node after the request is
   * split, its remainder replacing it; a misaligned block keeps its front
   * part (shrunk in place) and, if the tail past the request can hold a
   * node, gets a new node there. `asWritten` selects the misaligned start
   * of the source (`MisalignedStart`) rather than the corrected one
   * (`GapStart`).
   */
  function Carve(n: Node, size: nat, align: nat, asWritten: bool): Option<(seq<Node>, nat)>
    requires align > 0
  {
    var head := n.addr;
    var end := n.size + head;
    var res := head % align;
    if res == 0 && head + size == end then
      Some(([], head))
    else if res == 0 && head + size + LIST_SIZE <= end then
      Some(([Node(head + size, n.size - size)], head))
    else if res != 0 then
      var start := if asWritten then MisalignedStart(head, align) else GapStart(head, align);
      if start + size == end then
        Some(([Node(head, n.size - size)], start))
      else if start + size + LIST_SIZE <= end then
        Some(([Node(head, start - head), Node(start + size, end - (start + size))], start))
      else
        None
    else
      None
  }

  /**
   * A carve returns an aligned address inside the block, and the blocks
   * left lie inside it and hold exactly `size` bytes fewer; with the
   * corrected start they can each hold a node.
   */
  lemma CarveTakes(n: Node, size: nat, align: nat, asWritten: bool)
    requires align > 0 && Carve(n, size, align, asWritten).Some?
    ensures var (xs, p) := Carve(n, size, align, asWritten).value;
      && p % align == 0 && n.addr <= p && p + size <= End(n)
      && Total(xs) + size == n.size
      && (forall j :: 0 <= j < |xs| ==> n.addr <= xs[j].addr && End(xs[j]) <= End(n))
      && Apart(xs, p, size)
      && (!asWritten && n.size >= LIST_SIZE ==> WellFormed(xs))
  {
    var (xs, p) := Carve(n, size, align, asWritten).value;
    if |xs| == 1 {
      assert Total(xs) == xs[0].size + Total([]);
    } else if |xs| == 2 {
      assert Total(xs) == xs[0].size + Total([xs[1]]);
      assert Total([xs[1]]) == xs[1].size + Total([]);
    }
  }

  /** One iteration of the loop of `alloc` on block `k` of the list. */
  function TakeAt(free: seq<Node>, k: nat, size: nat, align: nat, asWritten: bool): Option<(seq<Node>, nat)>
    requires k < |free| && align > 0
  {
    match Carve(free[k], size, align, asWritten)
    case Some(carved) => Some((free[..k] + carved.0 + free[k + 1..], carved.1))
    case None => None
  }

  /** The loop of `alloc` from block `k` on: the address returned and the new list. */
  function AllocFrom(free: seq<Node>, k: nat, size: nat, align: nat, asWritten: bool): (Option<nat>, seq<Node>)
    requires k <= |free| && align > 0
    decreases |free| - k
  {
    if k == |free| then (None, free)
    else
      match TakeAt(free, k, size, align, asWritten)
      case Some(taken) => (Some(taken.1), taken.0)
      case None => AllocFrom(free, k + 1, size, align, asWritten)
  }

  /** `alloc` with the corrected misaligned start: what the heap of this model does. */
  function AllocOn(free: seq<Node>, layoutSize: nat, align: nat): (Option<nat>, seq<Node>)
    requires align > 0
  {
    AllocFrom(free, 0, RoundSize(layoutSize), align, false)
  }

  /** `alloc` as written. */
  function AllocOnAsWritten(free: seq<Node>, layoutSize: nat, align: nat): (Option<nat>, seq<Node>)
    requires align > 0
  {
    AllocFrom(free, 0, RoundSize(layoutSize), align, true)
  }

  /** A carve of block `k` takes `size` bytes at an aligned address inside it from the list. */
  lemma TakeAtTakes(free: seq<Node>, k: nat, size: nat, align: nat, asWritten: bool)
    requires k < |free| && align > 0 && TakeAt(free, k, size, align, asWritten).Some?
    ensures var (rest, p) := TakeAt(free, k, size, align, asWritten).value;
      && p % align == 0 && free[k].addr <= p && p + size <= End(free[k])
      && Total(rest) + size == Total(free)
      && (!asWritten && WellFormed(free) ==> WellFormed(rest))
      && (WellFormed(free) ==> Apart(rest, p, size))
  {
    var n := free[k];
    var (xs, p) := Carve(n, size, align, asWritten).value;
    CarveTakes(n, size, align, asWritten);
    if WellFormed(free) {
      ReplaceApart(free, k, xs, p, size);
    }
    ReplaceRangeTotal(free, k, k + 1, xs);
    assert free[k..k + 1] == [n];
    TotalOne(n);
    if !asWritten && WellFormed(free) {
      assert 0 < k ==> End(free[k - 1]) <= n.addr;
      ReplaceRangeWellFormed(free, k, k + 1, xs, n.addr, End(n));
    }
  }

  /**
   * The search from block `k`: an address is returned only from a carve,
   * so it is aligned, lies inside a free block and takes exactly `size`
   * bytes from the list; with the corrected start the list stays well
   * formed; the bytes handed out overlap no block left on the list; with
   * no block that fits, the list is unchanged.
   */
  lemma {:induction false} AllocFromProperties(free: seq<Node>, k: nat, size: nat, align: nat, asWritten: bool)
    requires k <= |free| && align > 0
    ensures var (p, rest) := AllocFrom(free, k, size, align, asWritten);
      && (p.None? ==> rest == free)
      && (p.Some? ==> p.value % align == 0 && Total(rest) + size == Total(free))
      && (p.Some? ==> exists j :: k <= j < |free| && free[j].addr <= p.value && p.value + size <= End(free[j]))
      && (p.Some? && !asWritten && WellFormed(free) ==> WellFormed(rest))
      && (p.Some? && WellFormed(free) ==> Apart(rest, p.value, size))
    decreases |free| - k
  {
    if k < |free| {
      if TakeAt(free, k, size, align, asWritten).Some? {
        TakeAtTakes(free, k, size, align, asWritten);
      } else {
        AllocFromProperties(free, k + 1, size, align, asWritten);
      }
    }
  }

  /**
   * `alloc`: the address is a multiple of `align` inside one free block,
   * exactly `RoundSize(size)` bytes leave the list, the list stays well
   * formed and no block left on it overlaps the bytes handed out, and a
   * null result leaves the list as it was.
   */
  lemma AllocOnProperties(free: seq<Node>, layoutSize: nat, align: nat)
    requires align > 0
    ensures var (p, rest) := AllocOn(free, layoutSize, align);
      && (p.None? ==> rest == free)
      && (p.Some? ==> p.value % align == 0 && Total(rest) + RoundSize(layoutSize) == Total(free))
      && (p.Some? ==> exists j :: 0 <= j < |free| && free[j].addr <= p.value && p.value + RoundSize(layoutSize) <= End(free[j]))
      && (p.Some? && WellFormed(free) ==> WellFormed(rest))
      && (p.Some? && WellFormed(free) ==> Apart(rest, p.value, RoundSize(layoutSize)))
  {
    AllocFromProperties(free, 0, RoundSize(layoutSize), align, false);
  }

  /** An empty list has nothing to give. */
  lemma AllocOnEmpty(layoutSize: nat, align: nat)
    requires align > 0
    ensures AllocOn([], layoutSize, align) == (None, [])
  {
  }

  /**
   * As written, a misaligned block can keep a front part shorter than a
   * node: a block at 4 of 100 bytes asked for 16 bytes aligned to 8 keeps
   * 12 bytes at 4, whose 16-byte node overlaps the block returned at 16.
   */
  lemma AllocSmallGap()
    ensures AllocOnAsWritten([Node(4, 100)], 16, 8) == (Some(16), [Node(4, 12), Node(32, 72)])
    ensures WellFormed([Node(4, 100)]) && !WellFormed([Node(4, 12), Node(32, 72)])
    ensures AllocOn([Node(4, 100)], 16, 8) == (Some(24), [Node(4, 20), Node(40, 64)])
  {
    var free := [Node(4, 100)];
    assert free[..0] == [] && free[1..] == [];
    assert 4 % 8 == 4;
    assert MisalignedStart(4, 8) == 16 by {
      assert RoundUp(4, 8) == 8;
    }
    assert GapStart(4, 8) == 24 by {
      assert RoundUp(20, 8) == 24 by { assert 20 % 8 == 4; }
    }
    var written := [Node(4, 12), Node(32, 72)];
    assert Carve(free[0], 16, 8, true) == Some((written, 16));
    assert TakeAt(free, 0, 16, 8, true) == Some((written, 16)) by {
      assert free[..0] + written + free[1..] == written;
    }
    var fixed := [Node(4, 20), Node(40, 64)];
    assert Carve(free[0], 16, 8, false) == Some((fixed, 24));
    assert TakeAt(free, 0, 16, 8, false) == Some((fixed, 24)) by {
      assert free[..0] + fixed + free[1..] == fixed;
    }
    assert !(End(written[0]) <= written[1].addr) || written[0].size < LIST_SIZE;
  }

  // ---- dealloc -------------------------------------------------------------

  /** The walk of `dealloc`: the first block from `k` on whose address is not below `ptr`. */
  function WalkFrom(free: seq<Node>, ptr: nat, k: nat): (j: nat)
    requires k <= |free|
    ensures k <= j <= |free|
    ensures forall i :: k <= i < j ==> free[i].addr < ptr
    ensures j < |free| ==> ptr <= free[j].addr
    decreases |free| - k
  {
    if k < |free| && ptr > free[k].addr then WalkFrom(free, ptr, k + 1) else k
  }

  /** Freeing before the first block: linked in front, merged with the first block when adjacent. */
  function LinkFront(free: seq<Node>, ptr: nat, size: nat): seq<Node>
    requires free != []
  {
    if ptr + size == free[0].addr then [Node(ptr, free[0].size + size)] + free[1..]
    else [Node(ptr, size)] + free
  }

  /** Freeing past the last block: merged into it when adjacent, otherwise appended. */
  function LinkLast(free: seq<Node>, ptr: nat, size: nat): seq<Node>
    requires free != []
  {
    var prev := free[|free| - 1];
    if End(prev) == ptr then free[..|free| - 1] + [Node(prev.addr, prev.size + size)]
    else free + [Node(ptr, size)]
  }

  /**
   * Freeing between `prev` (block `k - 1`) and block `k`: the freed block
   * merges with block `k` when adjacent, and with `prev` when adjacent. As
   * written it is linked in only by a merge with `prev`: otherwise
   * `prev.next` still points at block `k`, and the list is as it was.
   */
  function LinkBetween(free: seq<Node>, k: nat, ptr: nat, size: nat, asWritten: bool): seq<Node>
    requires 0 < k < |free|
  {
    var prev := free[k - 1];
    var merged := ptr + size == free[k].addr;
    var node := if merged then Node(ptr, free[k].size + size) else Node(ptr, size);
    var rest := if merged then free[k + 1..] else free[k..];
    if End(prev) == ptr then free[..k - 1] + [Node(prev.addr, prev.size + node.size)] + rest
    else if asWritten then free
    else free[..k] + [node] + rest
  }

  /**
   * `dealloc` of the block at `ptr`: None where the source dereferences
   * the null `prev`, because the walk stops before the first block. As
   * written, that includes an empty list; the corrected version starts a
   * list from the freed block.
   */
  function DeallocOn(free: seq<Node>, ptr: nat, layoutSize: nat, asWritten: bool): Option<seq<Node>>
  {
    var size := RoundSize(layoutSize);
    if free != [] && ptr < free[0].addr then Some(LinkFront(free, ptr, size))
    else if free == [] && !asWritten then Some([Node(ptr, size)])
    else
      var k := WalkFrom(free, ptr, 0);
      if k == 0 then None
      else if k == |free| then Some(LinkLast(free, ptr, size))
      else Some(LinkBetween(free, k, ptr, size, asWritten))
  }

  /** `size` bytes at `ptr` overlap no free block. */
  ghost predicate Vacant(free: seq<Node>, ptr: nat, size: nat)
  {
    forall i :: 0 <= i < |free| ==> End(free[i]) <= ptr || ptr + size <= free[i].addr
  }

  lemma TotalOne(n: Node)
    ensures Total([n]) == n.size
  {
    assert Total([n]) == n.size + Total([]);
  }

  /**
   * Blocks `lo .. hi-1` of a well-formed list replaced by one block `x`
   * that fits between the blocks kept on either side, giving `r`: the
   * list stays well formed and the free bytes change by the difference
   * between `x` and the `removed` bytes of the blocks it replaces.
   */
  lemma ReplaceByOne(free: seq<Node>, lo: nat, hi: nat, x: Node, removed: nat, r: seq<Node>)
    requires lo <= hi <= |free| && WellFormed(free) && x.size >= LIST_SIZE
    requires 0 < lo ==> End(free[lo - 1]) <= x.addr
    requires hi < |free| ==> End(x) <= free[hi].addr
    requires Total(free[lo..hi]) == removed
    requires r == free[..lo] + [x] + free[hi..]
    ensures WellFormed(r) && Total(r) + removed == Total(free) + x.size
  {
    TotalOne(x);
    ReplaceRangeTotal(free, lo, hi, [x]);
    ReplaceRangeWellFormed(free, lo, hi, [x], x.addr, End(x));
  }

  /** The well-formedness half of `ReplaceByOne`. */
  lemma ReplaceOneWellFormed(free: seq<Node>, lo: nat, hi: nat, x: Node, r: seq<Node>)
    requires lo <= hi <= |free| && WellFormed(free) && x.size >= LIST_SIZE
    requires 0 < lo ==> End(free[lo - 1]) <= x.addr
    requires hi < |free| ==> End(x) <= free[hi].addr
    requires r == free[..lo] + [x] + free[hi..]
    ensures WellFormed(r)
  {
    ReplaceRangeWellFormed(free, lo, hi, [x], x.addr, End(x));
  }

  /** The free-bytes half of `ReplaceByOne`. */
  lemma ReplaceOneTotal(free: seq<Node>, lo: nat, hi: nat, x: Node, removed: nat, r: seq<Node>)
    requires lo <= hi <= |free| && Total(free[lo..hi]) == removed
    requires r == free[..lo] + [x] + free[hi..]
    ensures Total(r) + removed == Total(free) + x.size
  {
    TotalOne(x);
    ReplaceRangeTotal(free, lo, hi, [x]);
  }

  /** The blocks `lo .. lo` are none, and the block `lo .. lo+1` is block `lo`. */
  lemma TotalSlices(free: seq<Node>, lo: nat)
    requires lo < |free|
    ensures Total(free[lo..lo]) == 0 && Total(free[lo..lo + 1]) == free[lo].size
    ensures lo + 1 < |free| ==> Total(free[lo..lo + 2]) == free[lo].size + free[lo + 1].size
  {
    assert free[lo..lo] == [];
    assert free[lo..lo + 1] == [free[lo]];
    TotalOne(free[lo]);
    if lo + 1 < |free| {
      assert free[lo..lo + 2] == [free[lo], free[lo + 1]];
      TotalTwo(free[lo], free[lo + 1]);
    }
  }

  /** Freeing in front of the first block, without or with a merge. */
  lemma LinkFrontReturns(free: seq<Node>, ptr: nat, size: nat)
    requires free != [] && WellFormed(free) && size >= LIST_SIZE && ptr + size <= free[0].addr
    ensures WellFormed(LinkFront(free, ptr, size)) && Total(LinkFront(free, ptr, size)) == Total(free) + size
  {
    var r := LinkFront(free, ptr, size);
    if ptr + size == free[0].addr {
      var x := Node(ptr, free[0].size + size);
      assert r == free[..0] + [x] + free[1..];
      TotalSlices(free, 0);
      ReplaceByOne(free, 0, 1, x, free[0].size, r);
    } else {
      var x := Node(ptr, size);
      assert r == free[..0] + [x] + free[0..];
      TotalSlices(free, 0);
      ReplaceByOne(free, 0, 0, x, 0, r);
    }
  }

  /** The free bytes of a list with one more block at its end. */
  lemma TotalSnoc(front: seq<Node>, last: Node)
    ensures Total(front + [last]) == Total(front) + last.size
  {
    TotalConcat(front, [last]);
    TotalOne(last);
  }

  /** The free bytes of a list are those of all but its last block plus the last block's. */
  lemma TotalLast(s: seq<Node>)
    requires s != []
    ensures Total(s) == Total(s[..|s| - 1]) + s[|s| - 1].size
  {
    TotalSnoc(s[..|s| - 1], s[|s| - 1]);
    assert s[..|s| - 1] + [s[|s| - 1]] == s;
  }

  /** Freeing past the last block adds exactly the freed bytes. */
  lemma LinkLastTotal(free: seq<Node>, ptr: nat, size: nat)
    requires free != []
    ensures Total(LinkLast(free, ptr, size)) == Total(free) + size
  {
    var k := |free|;
    var prev := free[k - 1];
    if End(prev) == ptr {
      var x := Node(prev.addr, prev.size + size);
      var front := free[..k - 1];
      assert LinkLast(free, ptr, size) == front + [x];
      TotalSnoc(front, x);
      TotalLast(free);
    } else {
      var x := Node(ptr, size);
      assert LinkLast(free, ptr, size) == free + [x];
      TotalSnoc(free, x);
    }
  }

  /** Freeing past the last block, with or without a merge. */
  lemma LinkLastReturns(free: seq<Node>, ptr: nat, size: nat)
    requires free != [] && WellFormed(free) && size >= LIST_SIZE && End(free[|free| - 1]) <= ptr
    ensures WellFormed(LinkLast(free, ptr, size))
    ensures Total(LinkLast(free, ptr, size)) == Total(free) + size
  {
    if End(free[|free| - 1]) == ptr {
      LinkLastMergedWellFormed(free, ptr, size);
    } else {
      LinkLastApartWellFormed(free, ptr, size);
    }
    LinkLastTotal(free, ptr, size);
  }

  /** Freeing right past the last block: it grows. */
  lemma LinkLastMergedWellFormed(free: seq<Node>, ptr: nat, size: nat)
    requires free != [] && WellFormed(free) && size >= LIST_SIZE && End(free[|free| - 1]) == ptr
    ensures WellFormed(LinkLast(free, ptr, size))
  {
    var k := |free|;
    var prev := free[k - 1];
    var x := Node(prev.addr, prev.size + size);
    assert k - 1 > 0 ==> End(free[k - 2]) <= free[k - 1].addr;
    LinkLastMerged(free, ptr, size);
    TotalSlices(free, k - 1);
    ReplaceByOne(free, k - 1, k, x, prev.size, LinkLast(free, ptr, size));
  }

  /** Freeing further past the last block: a new last block. */
  lemma LinkLastApartWellFormed(free: seq<Node>, ptr: nat, size: nat)
    requires free != [] && WellFormed(free) && size >= LIST_SIZE && End(free[|free| - 1]) < ptr
    ensures WellFormed(LinkLast(free, ptr, size))
  {
    var k := |free|;
    var x := Node(ptr, size);
    LinkLastApart(free, ptr, size);
    assert free[k..k] == [];
    ReplaceByOne(free, k, k, x, 0, LinkLast(free, ptr, size));
  }

  /** `LinkLast` merging with the last block: a longer last block replaces it. */
  lemma LinkLastMerged(free: seq<Node>, ptr: nat, size: nat)
    requires free != [] && End(free[|free| - 1]) == ptr
    ensures var k := |free|;
      LinkLast(free, ptr, size) == free[..k - 1] + [Node(free[k - 1].addr, free[k - 1].size + size)] + free[k..]
  {
    assert free[|free|..] == [];
  }

  /** `LinkLast` apart from the last block: the freed block is appended. */
  lemma LinkLastApart(free: seq<Node>, ptr: nat, size: nat)
    requires free != [] && End(free[|free| - 1]) != ptr
    ensures LinkLast(free, ptr, size) == free[..|free|] + [Node(ptr, size)] + free[|free|..]
  {
    assert free[..|free|] == free && free[|free|..] == [];
  }

  /** `LinkBetween`, corrected, merging with block `k - 1` and block `k`: one block replaces both. */
  lemma ShapeBoth(free: seq<Node>, k: nat, ptr: nat, size: nat)
    requires 0 < k < |free| && End(free[k - 1]) == ptr && ptr + size == free[k].addr
    ensures LinkBetween(free, k, ptr, size, false)
      == free[..k - 1] + [Node(free[k - 1].addr, free[k - 1].size + free[k].size + size)] + free[k + 1..]
  {
  }

  /** `LinkBetween`, corrected, merging with block `k - 1` only: it grows. */
  lemma ShapePrev(free: seq<Node>, k: nat, ptr: nat, size: nat)
    requires 0 < k < |free| && End(free[k - 1]) == ptr && ptr + size != free[k].addr
    ensures LinkBetween(free, k, ptr, size, false) == free[..k - 1] + [Node(free[k - 1].addr, free[k - 1].size + size)] + free[k..]
  {
  }

  /** `LinkBetween`, corrected, merging with block `k` only: the freed block takes its place. */
  lemma ShapeNext(free: seq<Node>, k: nat, ptr: nat, size: nat)
    requires 0 < k < |free| && End(free[k - 1]) != ptr && ptr + size == free[k].addr
    ensures LinkBetween(free, k, ptr, size, false) == free[..k] + [Node(ptr, free[k].size + size)] + free[k + 1..]
  {
  }

  /** `LinkBetween`, corrected, with no merge: the freed block is inserted before block `k`. */
  lemma ShapeNeither(free: seq<Node>, k: nat, ptr: nat, size: nat)
    requires 0 < k < |free| && End(free[k - 1]) != ptr && ptr + size != free[k].addr
    ensures LinkBetween(free, k, ptr, size, false) == free[..k] + [Node(ptr, size)] + free[k..]
  {
  }

  /** Freeing between two blocks, merging with the block before it and the block after it. */
  lemma LinkBetweenMergesBoth(free: seq<Node>, k: nat, ptr: nat, size: nat)
    requires 0 < k < |free| && WellFormed(free) && size >= LIST_SIZE
    requires End(free[k - 1]) == ptr && ptr + size == free[k].addr
    ensures WellFormed(LinkBetween(free, k, ptr, size, false))
  {
    var prev := free[k - 1];
    var x := Node(prev.addr, prev.size + free[k].size + size);
    ShapeBoth(free, k, ptr, size);
    ReplaceOneWellFormed(free, k - 1, k + 1, x, LinkBetween(free, k, ptr, size, false));
  }

  /** Freeing between two blocks, merging with the block before it only. */
  lemma LinkBetweenMergesPrev(free: seq<Node>, k: nat, ptr: nat, size: nat)
    requires 0 < k < |free| && WellFormed(free) && size >= LIST_SIZE
    requires End(free[k - 1]) == ptr && ptr + size < free[k].addr
    ensures WellFormed(LinkBetween(free, k, ptr, size, false))
  {
    var prev := free[k - 1];
    var x := Node(prev.addr, prev.size + size);
    ShapePrev(free, k, ptr, size);
    ReplaceOneWellFormed(free, k - 1, k, x, LinkBetween(free, k, ptr, size, false));
  }

  /** Freeing between two blocks, merging with the block after it only. */
  lemma LinkBetweenMergesNext(free: seq<Node>, k: nat, ptr: nat, size: nat)
    requires 0 < k < |free| && WellFormed(free) && size >= LIST_SIZE
    requires End(free[k - 1]) < ptr && ptr + size == free[k].addr
    ensures WellFormed(LinkBetween(free, k, ptr, size, false))
  {
    var x := Node(ptr, free[k].size + size);
    assert k + 1 < |free| ==> End(x) <= free[k + 1].addr by {
      if k + 1 < |free| {
        assert End(free[k]) <= free[k + 1].addr;
      }
    }
    ShapeNext(free, k, ptr, size);
    ReplaceOneWellFormed(free, k, k + 1, x, LinkBetween(free, k, ptr, size, false));
  }

  /** Freeing between two blocks it touches neither of: a new block between them. */
  lemma LinkBetweenApart(free: seq<Node>, k: nat, ptr: nat, size: nat)
    requires 0 < k < |free| && WellFormed(free) && size >= LIST_SIZE
    requires End(free[k - 1]) < ptr && ptr + size < free[k].addr
    ensures WellFormed(LinkBetween(free, k, ptr, size, false))
  {
    ShapeNeither(free, k, ptr, size);
    ReplaceOneWellFormed(free, k, k, Node(ptr, size), LinkBetween(free, k, ptr, size, false));
  }

  /** Freeing between two blocks, merged or not, adds exactly the freed bytes. */
  lemma LinkBetweenTotal(free: seq<Node>, k: nat, ptr: nat, size: nat)
    requires 0 < k < |free|
    ensures Total(LinkBetween(free, k, ptr, size, false)) == Total(free) + size
  {
    if End(free[k - 1]) == ptr && ptr + size == free[k].addr {
      BothTotal(free, k, ptr, size);
    } else if End(free[k - 1]) == ptr {
      PrevTotal(free, k, ptr, size);
    } else if ptr + size == free[k].addr {
      NextTotal(free, k, ptr, size);
    } else {
      NeitherTotal(free, k, ptr, size);
    }
  }

  lemma BothTotal(free: seq<Node>, k: nat, ptr: nat, size: nat)
    requires 0 < k < |free| && End(free[k - 1]) == ptr && ptr + size == free[k].addr
    ensures Total(LinkBetween(free, k, ptr, size, false)) == Total(free) + size
  {
    var prev := free[k - 1];
    var r := LinkBetween(free, k, ptr, size, false);
    ShapeBoth(free, k, ptr, size);
    TotalAround(free, k);
    ReplaceOneTotal(free, k - 1, k + 1, Node(prev.addr, prev.size + free[k].size + size), prev.size + free[k].size, r);
  }

  lemma PrevTotal(free: seq<Node>, k: nat, ptr: nat, size: nat)
    requires 0 < k < |free| && End(free[k - 1]) == ptr && ptr + size != free[k].addr
    ensures Total(LinkBetween(free, k, ptr, size, false)) == Total(free) + size
  {
    var prev := free[k - 1];
    ShapePrev(free, k, ptr, size);
    assert free[k - 1..k] == [prev];
    TotalOne(prev);
    ReplaceOneTotal(free, k - 1, k, Node(prev.addr, prev.size + size), prev.size, LinkBetween(free, k, ptr, size, false));
  }

  lemma NextTotal(free: seq<Node>, k: nat, ptr: nat, size: nat)
    requires 0 < k < |free| && End(free[k - 1]) != ptr && ptr + size == free[k].addr
    ensures Total(LinkBetween(free, k, ptr, size, false)) == Total(free) + size
  {
    ShapeNext(free, k, ptr, size);
    assert free[k..k + 1] == [free[k]];
    TotalOne(free[k]);
    ReplaceOneTotal(free, k, k + 1, Node(ptr, free[k].size + size), free[k].size, LinkBetween(free, k, ptr, size, false));
  }

  lemma NeitherTotal(free: seq<Node>, k: nat, ptr: nat, size: nat)
    requires 0 < k < |free| && End(free[k - 1]) != ptr && ptr + size != free[k].addr
    ensures Total(LinkBetween(free, k, ptr, size, false)) == Total(free) + size
  {
    ShapeNeither(free, k, ptr, size);
    assert free[k..k] == [];
    ReplaceOneTotal(free, k, k, Node(ptr, size), 0, LinkBetween(free, k, ptr, size, false));
  }

  /** The blocks `k - 1 .. k + 1` are blocks `k - 1` and `k`. */
  lemma TotalAround(free: seq<Node>, k: nat)
    requires 0 < k < |free|
    ensures Total(free[k - 1..k + 1]) == free[k - 1].size + free[k].size
  {
    assert free[k - 1..k + 1] == [free[k - 1], free[k]];
    TotalTwo(free[k - 1], free[k]);
  }

  lemma TotalTwo(a: Node, b: Node)
    ensures Total([a, b]) == a.size + b.size
  {
    assert [a, b][1..] == [b];
    TotalOne(b);
  }

  /**
   * `dealloc`, corrected, of a block that overlaps no free block: the list
   * stays well formed and gains exactly `RoundSize(size)` bytes.
   */
  lemma DeallocOnReturnsBlock(free: seq<Node>, ptr: nat, layoutSize: nat)
    requires WellFormed(free) && Vacant(free, ptr, RoundSize(layoutSize))
    ensures var r := DeallocOn(free, ptr, layoutSize, false);
      r.Some? && WellFormed(r.value) && Total(r.value) == Total(free) + RoundSize(layoutSize)
  {
    var size := RoundSize(layoutSize);
    if free == [] {
      TotalOne(Node(ptr, size));
    } else if ptr < free[0].addr {
      LinkFrontReturns(free, ptr, size);
    } else {
      var k := WalkFrom(free, ptr, 0);
      if k == 0 {
        assert false;
      }
      assert free[k - 1].addr < ptr;
      if k == |free| {
        LinkLastReturns(free, ptr, size);
      } else {
        assert End(free[k]) > ptr;
        if End(free[k - 1]) == ptr && ptr + size == free[k].addr {
          LinkBetweenMergesBoth(free, k, ptr, size);
        } else if End(free[k - 1]) == ptr {
          LinkBetweenMergesPrev(free, k, ptr, size);
        } else if ptr + size == free[k].addr {
          LinkBetweenMergesNext(free, k, ptr, size);
        } else {
          LinkBetweenApart(free, k, ptr, size);
        }
        LinkBetweenTotal(free, k, ptr, size);
      }
    }
  }

  /**
   * As written, a block freed between two blocks it does not touch is
   * lost: with blocks at 0 and 64, freeing the 16 bytes at 32 leaves the
   * list as it was, 16 free bytes short.
   */
  lemma DeallocLosesBlock()
    ensures WellFormed([Node(0, 16), Node(64, 16)]) && Vacant([Node(0, 16), Node(64, 16)], 32, 16)
    ensures DeallocOn([Node(0, 16), Node(64, 16)], 32, 16, true) == Some([Node(0, 16), Node(64, 16)])
    ensures DeallocOn([Node(0, 16), Node(64, 16)], 32, 16, false) == Some([Node(0, 16), Node(32, 16), Node(64, 16)])
  {
    var free := [Node(0, 16), Node(64, 16)];
    assert WalkFrom(free, 32, 1) == 1;
    assert WalkFrom(free, 32, 0) == 1;
    assert free[..1] + [Node(32, 16)] + free[1..] == [Node(0, 16), Node(32, 16), Node(64, 16)];
  }

  /** As written, freeing into an empty list dereferences the null `prev`. */
  lemma DeallocOnEmptyAsWritten(ptr: nat, layoutSize: nat)
    ensures DeallocOn([], ptr, layoutSize, true).None?
    ensures DeallocOn([], ptr, layoutSize, false) == Some([Node(ptr, RoundSize(layoutSize))])
  {
  }

  // ---- the allocators ------------------------------------------------------

  class LinkedListAllocator {
    /** The nodes reached from `center`, in link order. */
    var free: seq<Node>

    /** `empty`: a null `center`. */
    constructor Empty()
      ensures free == []
    {
      free := [];
    }

    /** `init`: one block from `head` to `end`. */
    method Init(head: nat, end: nat)
      requires head <= end
      modifies this
      ensures free == [Node(head, end - head)]
    {
      free := [Node(head, end - head)];
    }

    /** `alloc`: the walk over the list, carving the first block that fits. */
    method Alloc(layoutSize: nat, align: nat) returns (p: Option<nat>)
      requires align > 0
      modifies this
      ensures (p, free) == AllocOn(old(free), layoutSize, align)
    {
      var size := RoundSize(layoutSize);
      var k := 0;
      while k < |free|
        invariant k <= |free| && free == old(free)
        invariant AllocFrom(free, k, size, align, false) == AllocOn(old(free), layoutSize, align)
        decreases |free| - k
      {
        var taken := TakeAt(free, k, size, align, false);
        if taken.Some? {
          free := taken.value.0;
          return Some(taken.value.1);
        }
        k := k + 1;
      }
      p := None;
    }

    /**
     * `dealloc`, corrected: None where the walk stops before the first
     * block (the block freed is at the first block's address), which the
     * source answers by dereferencing null.
     */
    method Dealloc(ptr: nat, layoutSize: nat) returns (ok: bool)
      modifies this
      ensures var r := DeallocOn(old(free), ptr, layoutSize, false);
        ok == r.Some? && free == if ok then r.value else old(free)
    {
      var size := RoundSize(layoutSize);
      ok := true;
      if free == [] {
        free := [Node(ptr, size)];
        return;
      }
      if ptr < free[0].addr {
        if ptr + size == free[0].addr {
          free := [Node(ptr, free[0].size + size)] + free[1..];
        } else {
          free := [Node(ptr, size)] + free;
        }
        return;
      }
      var k := 0;
      while k < |free| && ptr > free[k].addr
        invariant k <= |free| && WalkFrom(free, ptr, k) == WalkFrom(free, ptr, 0)
        decreases |free| - k
      {
        k := k + 1;
      }
      if k == 0 {
        return false;
      }
      LinkAfter(k, ptr, size);
    }

    /** The end of `dealloc` once the walk stopped at block `k`: linked after block `k - 1`. */
    method LinkAfter(k: nat, ptr: nat, size: nat)
      requires 0 < k <= |free|
      modifies this
      ensures free == if k == |old(free)| then LinkLast(old(free), ptr, size) else LinkBetween(old(free), k, ptr, size, false)
    {
      var prev := free[k - 1];
      if k == |free| {
        if End(prev) == ptr {
          free := free[..k - 1] + [Node(prev.addr, prev.size + size)];
        } else {
          free := free + [Node(ptr, size)];
        }
        return;
      }
      var node := Node(ptr, size);
      var rest := free[k..];
      if ptr + size == free[k].addr {
        node := Node(ptr, free[k].size + size);
        rest := free[k + 1..];
      }
      if End(prev) == ptr {
        free := free[..k - 1] + [Node(prev.addr, prev.size + node.size)] + rest;
      } else {
        free := free[..k] + [node] + rest;
      }
    }
  }

  /**
   * `SimplestAllocator::alloc` on `head` and `end`: the block starts at
   * `head` rounded up to `align`, and `head` moves past it even when the
   * block does not fit below `end` and null is returned.
   */
  function Bump(head: nat, end: nat, size: nat, align: nat): (r: (nat, Option<nat>))
    requires align > 0
    ensures var (next, p) := r;
      && (p.Some? <==> next <= end)
      && (p.Some? ==> p.value % align == 0 && head <= p.value < head + align && p.value + size == next)
      && next >= head + size
  {
    var start := RoundUp(head, align);
    var next := start + size;
    (next, if next > end then None else Some(start))
  }

  /** Two bump allocations in a row hand out blocks that do not overlap. */
  lemma BumpDisjoint(head: nat, end: nat, size1: nat, align1: nat, size2: nat, align2: nat)
    requires align1 > 0 && align2 > 0
    ensures var (next, p1) := Bump(head, end, size1, align1);
      var (_, p2) := Bump(next, end, size2, align2);
      p1.Some? && p2.Some? ==> p1.value + size1 <= p2.value
  {
  }

  class SimplestAllocator {
    var head: nat
    var end: nat

    /** `empty`. */
    constructor Empty()
      ensures head == 0 && end == 0
    {
      head := 0;
      end := 0;
    }

    /** `init`. */
    method Init(head': nat, end': nat)
      modifies this
      ensures head == head' && end == end'
    {
      head := head';
      end := end';
    }

    /** `alloc`. */
    method Alloc(size: nat, align: nat) returns (p: Option<nat>)
      requires align > 0
      modifies this`head
      ensures (head, p) == Bump(old(head), end, size, align)
    {
      var start := if head % align == 0 then head else head - head % align + align;
      head := start + size;
      if head > end {
        p := None;
      } else {
        p := Some(start);
      }
    }

    /** `dealloc`: a bump allocator never takes memory back. */
    method Dealloc(ptr: nat, size: nat, align: nat)
      ensures head == old(head) && end == old(end)
    {
    }
  }
}
