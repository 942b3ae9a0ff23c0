// kernel/src/memory_manager.rs: the bitmap physical-frame manager. One bit
// per 4 KiB frame of the first 32 GiB, 64 frames to a map line; `allocate`
// is a first-fit search between `range_begin` and `range_end`.
//
// Frame IDs are naturals. An index past the map panics in the source; the
// methods require their frames to lie inside the map instead.

module MemoryManager {
  import opened Common

  const KIB: nat := 1024
  const MIB: nat := 1024 * KIB
  const GIB: nat := 1024 * MIB
  const BYTES_PER_FRAME: nat := 4 * KIB
  const MAX_PHYSICAL_MEMORY_BYTES: nat := 32 * GIB
  const FRAME_COUNT: nat := MAX_PHYSICAL_MEMORY_BYTES / BYTES_PER_FRAME
  /** Bits of a `usize` map line. */
  const BITS_PER_MAPLINE: nat := 64
  const MAP_LINES: nat := FRAME_COUNT / BITS_PER_MAPLINE

  /** 32 GiB of 4 KiB frames is 2^23 frames, 2^17 map lines. */
  lemma FrameCountValue()
    ensures FRAME_COUNT == 8388608 && MAP_LINES == 131072 && MAP_LINES * BITS_PER_MAPLINE == FRAME_COUNT
  {
  }

  // ---- one map line --------------------------------------------------------

  /** Bit `k` of a map line. */
  predicate LineBit(w: bv64, k: bv6)
  {
    w & (1 << k) != 0
  }

  /** Sets (`|= 1 << k`) or clears (`&= !(1 << k)`) bit `k` of a map line. */
  function SetLineBit(w: bv64, k: bv6, taken: bool): (r: bv64)
    ensures LineBit(r, k) == taken
  {
    if taken then w | (1 << k) else w & !(1 << k)
  }

  /** Setting or clearing bit `k` of a line leaves its other bits as they were. */
  lemma SetLineBitKeepsOthers(w: bv64, k: bv6, j: bv6, taken: bool)
    requires j != k
    ensures LineBit(SetLineBit(w, k, taken), j) == LineBit(w, j)
  {
    if taken {
      SetKeepsOthers(w, k, j);
    } else {
      ClearKeepsOthers(w, k, j);
    }
  }

  lemma SetKeepsOthers(w: bv64, k: bv6, j: bv6)
    requires j != k
    ensures LineBit(w | (1 << k), j) == LineBit(w, j)
  {
  }

  lemma ClearKeepsOthers(w: bv64, k: bv6, j: bv6)
    requires j != k
    ensures LineBit(w & !(1 << k), j) == LineBit(w, j)
  {
  }

  /** The bit of frame `f` within its line, `f % BITS_PER_MAPLINE`. */
  function BitIndex(f: nat): (k: bv6)
    ensures k as nat == f % BITS_PER_MAPLINE
  {
    (f % BITS_PER_MAPLINE) as bv6
  }

  /** Two frames of one line with different bit indices are different frames, and conversely. */
  lemma SameLineSameBit(f: nat, g: nat)
    requires f / BITS_PER_MAPLINE == g / BITS_PER_MAPLINE
    ensures BitIndex(f) == BitIndex(g) <==> f == g
  {
    assert BitIndex(f) as nat == f % BITS_PER_MAPLINE;
    assert BitIndex(g) as nat == g % BITS_PER_MAPLINE;
  }

  // ---- the map as a sequence of frame bits ---------------------------------

  /** `v` with frames `s .. s+n-1` set to `allocated`. */
  function Marked(v: seq<bool>, s: nat, n: nat, taken: bool): (r: seq<bool>)
    ensures |r| == |v|
    ensures forall f :: 0 <= f < |v| ==> r[f] == if s <= f < s + n then taken else v[f]
  {
    seq(|v|, f requires 0 <= f < |v| => if s <= f < s + n then taken else v[f])
  }

  /**
   * Frees after an allocation: clearing frames that were all clear before
   * they were set gives back the map they were set in.
   */
  lemma MarkThenFree(v: seq<bool>, s: nat, n: nat)
    requires forall f :: s <= f < s + n && f < |v| ==> !v[f]
    ensures Marked(Marked(v, s, n, true), s, n, false) == v
  {
    var w := Marked(Marked(v, s, n, true), s, n, false);
    forall f | 0 <= f < |v|
      ensures w[f] == v[f]
    {
    }
  }

  /** Marking one more frame extends a run by one. */
  lemma MarkedStep(v: seq<bool>, s: nat, i: nat, taken: bool)
    requires s + i < |v|
    ensures Marked(v, s, i + 1, taken) == Marked(v, s, i, taken)[s + i := taken]
  {
  }

  /** Frames `s .. s+n-1` are clear, and lie in `[begin, end)`. */
  ghost predicate Fits(v: seq<bool>, begin: nat, end: nat, s: nat, n: nat)
    requires end <= |v|
  {
    begin <= s && s + n <= end && forall f :: s <= f < s + n ==> !v[f]
  }

  /**
   * The search of `allocate` from candidate `start` with `i` frames of it
   * already seen clear: the candidate is taken once `n` frames are clear,
   * the search fails when it reaches `end`, and a set frame at `start + i`
   * moves the candidate just past it.
   */
  function FirstFitFrom(v: seq<bool>, start: nat, i: nat, end: nat, n: nat): Result<nat>
    requires end <= |v| && i <= n
    decreases end - start, n - i
  {
    if i == n then Ok(start)
    else if start + i >= end then Err(NoEnoughMemory)
    else if v[start + i] then FirstFitFrom(v, start + i + 1, 0, end, n)
    else FirstFitFrom(v, start, i + 1, end, n)
  }

  /** What `allocate(n)` answers on map `v` with range `[begin, end)`. */
  function FirstFit(v: seq<bool>, begin: nat, end: nat, n: nat): Result<nat>
    requires end <= |v|
  {
    FirstFitFrom(v, begin, 0, end, n)
  }

  /**
   * The search from a candidate whose first `i` frames are clear finds the
   * lowest fitting start at or after the candidate, and fails only when
   * there is none.
   */
  lemma {:induction false} FirstFitFromIsLowest(v: seq<bool>, begin: nat, start: nat, i: nat, end: nat, n: nat)
    requires end <= |v| && i <= n && 0 < n && begin <= start
    requires forall f :: start <= f < start + i ==> f < end && !v[f]
    ensures var r := FirstFitFrom(v, start, i, end, n);
      && (r.Ok? ==> Fits(v, begin, end, r.value, n) && forall s :: start <= s < r.value ==> !Fits(v, begin, end, s, n))
      && (r.Err? ==> r.code == NoEnoughMemory && forall s :: start <= s ==> !Fits(v, begin, end, s, n))
    decreases end - start, n - i
  {
    if i == n {
      var last := start + n - 1;
      assert start <= last < start + i && !v[last];
    } else if start + i >= end {
      forall s | start <= s
        ensures !Fits(v, begin, end, s, n)
      {
        assert s + n > end;
      }
    } else if v[start + i] {
      FirstFitFromIsLowest(v, begin, start + i + 1, 0, end, n);
      forall s | start <= s < start + i + 1
        ensures !Fits(v, begin, end, s, n)
      {
        if s + n <= end {
          assert s <= start + i < s + n;
        }
      }
    } else {
      FirstFitFromIsLowest(v, begin, start, i + 1, end, n);
    }
  }

  /**
   * `allocate(n)` for `n > 0` answers the lowest start in `[begin, end)`
   * whose `n` frames are all clear, and NoEnoughMemory exactly when there
   * is no such start.
   */
  lemma FirstFitIsLowest(v: seq<bool>, begin: nat, end: nat, n: nat)
    requires end <= |v| && 0 < n
    ensures var r := FirstFit(v, begin, end, n);
      && (r.Ok? ==> Fits(v, begin, end, r.value, n) && forall s :: begin <= s < r.value ==> !Fits(v, begin, end, s, n))
      && (r.Err? <==> forall s :: !Fits(v, begin, end, s, n))
      && (r.Err? ==> r.code == NoEnoughMemory)
  {
    FirstFitFromIsLowest(v, begin, begin, 0, end, n);
  }

  /** `allocate(0)` answers `range_begin`, wherever the range lies. */
  lemma FirstFitOfNothing(v: seq<bool>, begin: nat, end: nat)
    requires end <= |v|
    ensures FirstFit(v, begin, end, 0) == Ok(begin)
  {
  }

  // ---- the map lines as frame bits ------------------------------------------

  /** The frame bits of a map: frame `f` is bit `f % 64` of line `f / 64`. */
  function MapView(lines: seq<bv64>): (v: seq<bool>)
    requires |lines| == MAP_LINES
    ensures |v| == FRAME_COUNT
  {
    seq(FRAME_COUNT, f requires 0 <= f < FRAME_COUNT => LineBit(lines[f / BITS_PER_MAPLINE], BitIndex(f)))
  }

  /** `set_bit` on the lines: frame `f` alone changes, to `taken`. */
  lemma MapViewSet(lines: seq<bv64>, f: nat, taken: bool)
    requires |lines| == MAP_LINES && f < FRAME_COUNT
    ensures var line := f / BITS_PER_MAPLINE;
      MapView(lines[line := SetLineBit(lines[line], BitIndex(f), taken)]) == MapView(lines)[f := taken]
  {
    var line := f / BITS_PER_MAPLINE;
    var after := lines[line := SetLineBit(lines[line], BitIndex(f), taken)];
    forall g | 0 <= g < FRAME_COUNT
      ensures MapView(after)[g] == MapView(lines)[f := taken][g]
    {
      if g / BITS_PER_MAPLINE == line {
        SameLineSameBit(f, g);
        if g != f {
          SetLineBitKeepsOthers(lines[line], BitIndex(f), BitIndex(g), taken);
        }
      }
    }
  }

  // ---- the manager ---------------------------------------------------------

  class BitmapMemoryManager {
    const allocMap: array<bv64>
    var rangeBegin: nat
    var rangeEnd: nat

    ghost predicate Valid()
    {
      allocMap.Length == MAP_LINES
    }

    /** `new`: every frame clear, the range the whole map. */
    constructor ()
      ensures Valid() && fresh(allocMap)
      ensures View() == seq(FRAME_COUNT, f => false)
      ensures rangeBegin == 0 && rangeEnd == FRAME_COUNT
    {
      allocMap := new bv64[MAP_LINES](_ => 0);
      rangeBegin := 0;
      rangeEnd := FRAME_COUNT;
      new;
      assert forall f :: 0 <= f < FRAME_COUNT ==> !View()[f];
    }

    /** `get_bit`: bit `f % 64` of line `f / 64`. */
    function GetBit(f: nat): bool
      requires Valid() && f < FRAME_COUNT
      reads allocMap
    {
      LineBit(allocMap[f / BITS_PER_MAPLINE], BitIndex(f))
    }

    /** The map, frame by frame. */
    ghost function View(): (v: seq<bool>)
      requires Valid()
      reads allocMap
      ensures |v| == FRAME_COUNT
    {
      seq(FRAME_COUNT, f requires 0 <= f < FRAME_COUNT reads allocMap => GetBit(f))
    }

    /** The map read frame by frame is the frame bits of its lines. */
    lemma ViewIsMapView()
      requires Valid()
      ensures View() == MapView(allocMap[..])
    {
      forall f | 0 <= f < FRAME_COUNT
        ensures View()[f] == MapView(allocMap[..])[f]
      {
      }
    }

    /** `set_bit`: frame `f` alone changes, to `allocated`. */
    method SetBit(f: nat, taken: bool)
      requires Valid() && f < FRAME_COUNT
      modifies allocMap
      ensures View() == old(View())[f := taken]
    {
      var line := f / BITS_PER_MAPLINE;
      ViewIsMapView();
      MapViewSet(allocMap[..], f, taken);
      allocMap[line] := SetLineBit(allocMap[line], BitIndex(f), taken);
      ViewIsMapView();
    }

    /** `set_memory_range`: only the range changes. */
    method SetMemoryRange(begin: nat, end: nat)
      modifies this`rangeBegin, this`rangeEnd
      ensures rangeBegin == begin && rangeEnd == end
    {
      rangeBegin := begin;
      rangeEnd := end;
    }

    /** `mark_allocated`: exactly frames `start .. start+n-1` become set. */
    method MarkAllocated(start: nat, n: nat)
      requires Valid() && (n == 0 || start + n <= FRAME_COUNT)
      modifies allocMap
      ensures View() == Marked(old(View()), start, n, true)
    {
      for i := 0 to n
        invariant View() == Marked(old(View()), start, i, true)
      {
        SetBit(start + i, true);
        MarkedStep(old(View()), start, i, true);
      }
    }

    /**
     * `allocate`: the first-fit search, then the frames found are marked.
     * The map changes only on success, and then exactly on the frames
     * returned.
     */
    method Allocate(n: nat) returns (r: Result<nat>)
      requires Valid() && rangeEnd <= FRAME_COUNT
      modifies allocMap
      ensures r == FirstFit(old(View()), rangeBegin, rangeEnd, n)
      ensures r.Ok? ==> View() == Marked(old(View()), r.value, n, true)
      ensures r.Err? ==> View() == old(View())
    {
      r := Search(n);
      if r.Ok? {
        if 0 < n {
          FirstFitIsLowest(View(), rangeBegin, rangeEnd, n);
        }
        MarkAllocated(r.value, n);
      }
    }

    /** The loop of `allocate`: the first-fit search, reading the map only. */
    method Search(n: nat) returns (r: Result<nat>)
      requires Valid() && rangeEnd <= FRAME_COUNT
      ensures r == FirstFit(View(), rangeBegin, rangeEnd, n)
    {
      ghost var v := View();
      var start := rangeBegin;
      while true
        invariant FirstFitFrom(v, start, 0, rangeEnd, n) == FirstFit(v, rangeBegin, rangeEnd, n)
        decreases rangeEnd - start
      {
        var i, outOfRange := Probe(start, n);
        if outOfRange {
          return Err(NoEnoughMemory);
        }
        if i == n {
          return Ok(start);
        }
        start := start + i + 1;
      }
    }

    /**
     * One pass of the inner loop of `allocate` on candidate `start`: the
     * number `i` of clear frames before the first set one (or `n`), or that
     * the pass reached `range_end`. Either way the search goes on as from
     * the candidate.
     */
    method Probe(start: nat, n: nat) returns (i: nat, outOfRange: bool)
      requires Valid() && rangeEnd <= FRAME_COUNT
      ensures i <= n && (!outOfRange && i < n ==> start + i < rangeEnd)
      ensures FirstFitFrom(View(), start, 0, rangeEnd, n)
           == if outOfRange then Err(NoEnoughMemory)
              else if i == n then Ok(start)
              else FirstFitFrom(View(), start + i + 1, 0, rangeEnd, n)
    {
      i := 0;
      outOfRange := false;
      while i < n
        invariant i <= n
        invariant FirstFitFrom(View(), start, i, rangeEnd, n) == FirstFitFrom(View(), start, 0, rangeEnd, n)
        decreases n - i
      {
        if start + i >= rangeEnd {
          outOfRange := true;
          return;
        }
        if GetBit(start + i) {
          return;
        }
        i := i + 1;
      }
    }

    /** `free`: exactly frames `start .. start+n-1` become clear; always Ok. */
    method Free(start: nat, n: nat) returns (r: Result<()>)
      requires Valid() && (n == 0 || start + n <= FRAME_COUNT)
      modifies allocMap
      ensures r.Ok?
      ensures View() == Marked(old(View()), start, n, false)
    {
      for i := 0 to n
        invariant View() == Marked(old(View()), start, i, false)
      {
        SetBit(start + i, false);
        MarkedStep(old(View()), start, i, false);
      }
      r := Ok(());
    }
  }

  /** `free` after a successful `allocate` of the same frames gives back the map as it was. */
  method AllocateThenFree(m: BitmapMemoryManager, n: nat) returns (r: Result<nat>)
    requires m.Valid() && m.rangeEnd <= FRAME_COUNT
    modifies m.allocMap
    ensures r.Ok? ==> m.View() == old(m.View())
  {
    ghost var v := m.View();
    r := m.Allocate(n);
    if r.Ok? {
      if 0 < n {
        FirstFitIsLowest(v, m.rangeBegin, m.rangeEnd, n);
      }
      var _ := m.Free(r.value, n);
      MarkThenFree(v, r.value, n);
    }
  }
}
