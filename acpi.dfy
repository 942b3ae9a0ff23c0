// kernel/src/acpi.rs: finding the FADT through the RSDP and the XSDT
// (sections 5.2.5.3, 5.2.6 and 5.2.8 of the ACPI specification).
// Physical memory is a total function from address to byte; a table is
// read from it in place, multi-byte fields little-endian. A byte is a
// natural below 256 and `wrapping_add` is addition modulo 256.

module Acpi {
  import opened Common

  type Byte = x: nat | x < 256

  type Memory = nat -> Byte

  /** "RSD PTR ", "XSDT" and "FACP" as bytes. */
  const RSDP_SIGNATURE: seq<Byte> := [0x52, 0x53, 0x44, 0x20, 0x50, 0x54, 0x52, 0x20]
  const XSDT_SIGNATURE: seq<Byte> := [0x58, 0x53, 0x44, 0x54]
  const FADT_SIGNATURE: seq<Byte> := [0x46, 0x41, 0x43, 0x50]

  /** `size_of::<RSDP>()` and `size_of::<DescriptionHeader>()` (packed). */
  const RSDP_SIZE: nat := 36
  const HEADER_SIZE: nat := 36

  function Bytes(mem: Memory, addr: nat, n: nat): (s: seq<Byte>)
    ensures |s| == n && forall i :: 0 <= i < n ==> s[i] == mem(addr + i)
  {
    seq(n, i requires 0 <= i < n => mem(addr + i))
  }

  function ReadU32(mem: Memory, addr: nat): nat
  {
    mem(addr) as nat + 0x100 * mem(addr + 1) as nat + 0x1_0000 * mem(addr + 2) as nat + 0x100_0000 * mem(addr + 3) as nat
  }

  function ReadU64(mem: Memory, addr: nat): nat
  {
    ReadU32(mem, addr) + 0x1_0000_0000 * ReadU32(mem, addr + 4)
  }

  // ---- checksums -------------------------------------------------------------

  /** `u8::wrapping_add`. */
  function WrappingAdd(a: Byte, b: Byte): Byte
  {
    if a + b >= 256 then a + b - 256 else a + b
  }

  lemma WrappingAddMod(a: Byte, b: Byte)
    ensures WrappingAdd(a, b) == (a + b) % 256
  {
  }

  /** The wrapping byte sum of `size` bytes from `ptr`. */
  function Sum(mem: Memory, ptr: nat, size: nat): Byte
    decreases size
  {
    if size == 0 then 0 else WrappingAdd(Sum(mem, ptr, size - 1), mem(ptr + size - 1))
  }

  /** The plain integer sum of the same bytes. */
  function IntSum(mem: Memory, ptr: nat, size: nat): nat
    decreases size
  {
    if size == 0 then 0 else IntSum(mem, ptr, size - 1) + mem(ptr + size - 1)
  }

  lemma ModAdd(x: nat, y: nat)
    ensures (x % 256 + y) % 256 == (x + y) % 256
  {
    var q := x / 256;
    assert x == 256 * q + x % 256;
    assert x + y == 256 * q + (x % 256 + y);
  }

  /** The wrapping sum is the integer sum modulo 256. */
  lemma {:induction false} SumIsModular(mem: Memory, ptr: nat, size: nat)
    ensures Sum(mem, ptr, size) == IntSum(mem, ptr, size) % 256
    decreases size
  {
    if size > 0 {
      SumIsModular(mem, ptr, size - 1);
      WrappingAddMod(Sum(mem, ptr, size - 1), mem(ptr + size - 1));
      ModAdd(IntSum(mem, ptr, size - 1), mem(ptr + size - 1));
    }
  }

  lemma {:induction false} IntSumSplit(mem: Memory, ptr: nat, m: nat, n: nat)
    ensures IntSum(mem, ptr, m + n) == IntSum(mem, ptr, m) + IntSum(mem, ptr + m, n)
    decreases n
  {
    if n > 0 {
      IntSumSplit(mem, ptr, m, n - 1);
      assert ptr + (m + n) - 1 == (ptr + m) + n - 1;
    }
  }

  /** A sum splits at any point of the range. */
  lemma SumSplit(mem: Memory, ptr: nat, m: nat, n: nat)
    ensures Sum(mem, ptr, m + n) == WrappingAdd(Sum(mem, ptr, m), Sum(mem, ptr + m, n))
  {
    var a, b := IntSum(mem, ptr, m), IntSum(mem, ptr + m, n);
    IntSumSplit(mem, ptr, m, n);
    SumIsModular(mem, ptr, m + n);
    SumIsModular(mem, ptr, m);
    SumIsModular(mem, ptr + m, n);
    WrappingAddMod(Sum(mem, ptr, m), Sum(mem, ptr + m, n));
    ModAdd(a, b % 256);
    ModAdd(b, a);
  }

  /** `sum_bytes_unchecked`: the loop adding each byte with wrap-around. */
  method SumBytesUnchecked(mem: Memory, ptr: nat, size: nat) returns (sum: Byte)
    ensures sum == Sum(mem, ptr, size)
  {
    sum := 0;
    var i := 0;
    while i < size
      invariant i <= size && sum == Sum(mem, ptr, i)
    {
      sum := WrappingAdd(sum, mem(ptr + i));
      i := i + 1;
    }
  }

  /**
   * `sum_bytes` over an object of `objectSize` bytes: None where the
   * source panics because `size` runs past the object.
   */
  function SumBytes(mem: Memory, ptr: nat, objectSize: nat, size: nat): (r: Option<Byte>)
    ensures r.None? <==> objectSize < size
    ensures r.Some? ==> r.value == IntSum(mem, ptr, size) % 256
  {
    SumIsModular(mem, ptr, size);
    if objectSize < size then None else Some(Sum(mem, ptr, size))
  }

  // ---- RSDP ------------------------------------------------------------------

  function RsdpRevision(mem: Memory, rsdp: nat): Byte { mem(rsdp + 15) }
  function XsdtAddress(mem: Memory, rsdp: nat): nat { ReadU64(mem, rsdp + 24) }

  /**
   * `RSDP::is_valid`: the signature, revision 2, and both checksums (the
   * ACPI 1.0 part, 20 bytes, and the whole 36-byte structure) zero.
   */
  predicate RsdpValid(mem: Memory, rsdp: nat)
  {
    && Bytes(mem, rsdp, 8) == RSDP_SIGNATURE
    && RsdpRevision(mem, rsdp) == 2
    && SumBytes(mem, rsdp, RSDP_SIZE, 20) == Some(0)
    && SumBytes(mem, rsdp, RSDP_SIZE, 36) == Some(0)
  }

  /**
   * Both checksums together say that the ACPI 2.0 extension (bytes 20..35)
   * also sums to zero, so neither check is redundant: each one is about a
   * part the other does not fix.
   */
  lemma RsdpExtensionSumsToZero(mem: Memory, rsdp: nat)
    requires RsdpValid(mem, rsdp)
    ensures Sum(mem, rsdp + 20, 16) == 0
  {
    assert Sum(mem, rsdp, 20) == 0 && Sum(mem, rsdp, 36) == 0;
    SumSplit(mem, rsdp, 20, 16);
  }

  // ---- description headers -------------------------------------------------

  function HeaderLength(mem: Memory, header: nat): nat { ReadU32(mem, header + 4) }

  /**
   * `DescriptionHeader::is_valid`: the signature matches and the `length`
   * bytes of the table sum to zero.
   */
  predicate HeaderValid(mem: Memory, header: nat, signature: seq<Byte>)
  {
    Bytes(mem, header, 4) == signature && Sum(mem, header, HeaderLength(mem, header)) == 0
  }

  /** A valid table's bytes add up to a multiple of 256. */
  lemma HeaderValidChecksum(mem: Memory, header: nat, signature: seq<Byte>)
    requires HeaderValid(mem, header, signature)
    ensures IntSum(mem, header, HeaderLength(mem, header)) % 256 == 0
  {
    SumIsModular(mem, header, HeaderLength(mem, header));
  }

  /**
   * `XSDT::entry`: the 8-byte pointer `idx` after the header; None where
   * the source panics, at an index not below the table's `length` (a
   * byte count).
   */
  function Entry(mem: Memory, xsdt: nat, idx: nat): (r: Option<nat>)
    ensures r.Some? <==> idx < HeaderLength(mem, xsdt)
    ensures r.Some? ==> r.value == ReadU64(mem, EntryAddress(xsdt, idx))
  {
    if idx >= HeaderLength(mem, xsdt) then None else Some(ReadU64(mem, EntryAddress(xsdt, idx)))
  }

  function EntryAddress(xsdt: nat, idx: nat): nat { xsdt + HEADER_SIZE + 8 * idx }

  /**
   * The number of entries `get_fadt` visits: as written the table's byte
   * length; corrected, the number of 8-byte pointers after the header.
   */
  function EntryCount(mem: Memory, xsdt: nat, asWritten: bool): (n: nat)
    ensures n <= HeaderLength(mem, xsdt)
  {
    var length := HeaderLength(mem, xsdt);
    if asWritten then length
    else if length < HEADER_SIZE then 0
    else (length - HEADER_SIZE) / 8
  }

  /** Every pointer the corrected walk reads lies inside the XSDT. */
  lemma CorrectedEntriesInTable(mem: Memory, xsdt: nat, idx: nat)
    requires idx < EntryCount(mem, xsdt, false)
    ensures xsdt <= EntryAddress(xsdt, idx) && EntryAddress(xsdt, idx) + 8 <= xsdt + HeaderLength(mem, xsdt)
  {
    var length := HeaderLength(mem, xsdt);
    var q := (length - HEADER_SIZE) / 8;
    assert length - HEADER_SIZE == 8 * q + (length - HEADER_SIZE) % 8;
    assert 8 * idx + 8 <= 8 * q;
  }

  /**
   * As written, the walk of a valid XSDT reads past its end: the last
   * index visited, `length - 1`, addresses a pointer beyond the table.
   */
  lemma AsWrittenReadsPastTable(mem: Memory, xsdt: nat)
    requires HeaderLength(mem, xsdt) >= HEADER_SIZE
    ensures var last := HeaderLength(mem, xsdt) - 1;
      last < EntryCount(mem, xsdt, true) && Entry(mem, xsdt, last).Some?
      && EntryAddress(xsdt, last) >= xsdt + HeaderLength(mem, xsdt)
  {
  }

  /** Entry `j` of the XSDT points at a valid FACP table. */
  predicate FacpAt(mem: Memory, xsdt: nat, j: nat)
  {
    j < HeaderLength(mem, xsdt) && HeaderValid(mem, Entry(mem, xsdt, j).value, FADT_SIGNATURE)
  }

  /** `FacpAt` as a test on indexes, for the search below. */
  function FacpTest(mem: Memory, xsdt: nat): nat -> bool
  {
    (j: nat) => FacpAt(mem, xsdt, j)
  }

  /** The first index from `i` below `count` passing `p`. */
  function FirstIndex(p: nat -> bool, i: nat, count: nat): Option<nat>
    decreases count - i
  {
    if i >= count then None
    else if p(i) then Some(i)
    else FirstIndex(p, i + 1, count)
  }

  /**
   * The search finds an index exactly when one from `i` below `count`
   * passes, and what it finds is the first one that does.
   */
  lemma {:induction false} FirstIndexSpec(p: nat -> bool, i: nat, count: nat)
    ensures var r := FirstIndex(p, i, count);
      && (r.None? <==> forall j :: i <= j < count ==> !p(j))
      && (r.Some? ==> i <= r.value < count && p(r.value) && forall k :: i <= k < r.value ==> !p(k))
    decreases count - i
  {
    if i < count && !p(i) {
      FirstIndexSpec(p, i + 1, count);
      var r := FirstIndex(p, i, count);
      if r.None? {
        forall j | i <= j < count
          ensures !p(j)
        {
          if j > i {
            assert i + 1 <= j < count;
          }
        }
      }
    }
  }

  /**
   * The loop of `get_fadt` over entries `0..count`: the pointer held by the
   * first entry that points at a valid FACP table.
   */
  function FadtFrom(mem: Memory, xsdt: nat, count: nat): (r: Option<nat>)
    requires count <= HeaderLength(mem, xsdt)
  {
    match FirstIndex(FacpTest(mem, xsdt), 0, count)
    case None => None
    case Some(j) => if j < HeaderLength(mem, xsdt) then Entry(mem, xsdt, j) else None
  }

  /**
   * `get_fadt`: None unless the RSDP and the XSDT it points to are valid;
   * then the first entry pointing at a valid FACP table.
   */
  function GetFadtOn(mem: Memory, rsdp: nat, asWritten: bool): Option<nat>
  {
    if !RsdpValid(mem, rsdp) then None
    else
      var xsdt := XsdtAddress(mem, rsdp);
      if !HeaderValid(mem, xsdt, XSDT_SIGNATURE) then None
      else FadtFrom(mem, xsdt, EntryCount(mem, xsdt, asWritten))
  }

  /**
   * The corrected `get_fadt` returns a valid FACP table named by one of
   * the XSDT's own entries, the first such; and None only when no entry
   * names one.
   */
  lemma GetFadtProperties(mem: Memory, rsdp: nat)
    ensures var r := GetFadtOn(mem, rsdp, false);
      var xsdt := XsdtAddress(mem, rsdp);
      r.Some? ==> && RsdpValid(mem, rsdp) && HeaderValid(mem, xsdt, XSDT_SIGNATURE)
                  && HeaderValid(mem, r.value, FADT_SIGNATURE)
                  && exists j :: 0 <= j < EntryCount(mem, xsdt, false) && r.value == Entry(mem, xsdt, j).value
                                 && forall k :: 0 <= k < j ==> !FacpAt(mem, xsdt, k)
    ensures var r := GetFadtOn(mem, rsdp, false);
      var xsdt := XsdtAddress(mem, rsdp);
      RsdpValid(mem, rsdp) && HeaderValid(mem, xsdt, XSDT_SIGNATURE) ==>
        (r.None? <==> forall j :: 0 <= j < EntryCount(mem, xsdt, false) ==> !FacpAt(mem, xsdt, j))
  {
    var xsdt := XsdtAddress(mem, rsdp);
    if RsdpValid(mem, rsdp) && HeaderValid(mem, xsdt, XSDT_SIGNATURE) {
      var count := EntryCount(mem, xsdt, false);
      var p := FacpTest(mem, xsdt);
      FirstIndexSpec(p, 0, count);
      var f := FirstIndex(p, 0, count);
      if f.Some? {
        var j := f.value;
        assert FacpAt(mem, xsdt, j);
        forall k | 0 <= k < j
          ensures !FacpAt(mem, xsdt, k)
        {
          assert !p(k);
        }
      } else {
        forall j | 0 <= j < count
          ensures !FacpAt(mem, xsdt, j)
        {
          assert !p(j);
        }
      }
    }
  }

  /** The loop of `get_fadt` over entries `0..count`. */
  method FindFadt(mem: Memory, xsdt: nat, count: nat) returns (r: Option<nat>)
    requires count <= HeaderLength(mem, xsdt)
    ensures r == FadtFrom(mem, xsdt, count)
  {
    ghost var p := FacpTest(mem, xsdt);
    var i := 0;
    while i < count
      invariant i <= count
      invariant FirstIndex(p, i, count) == FirstIndex(p, 0, count)
    {
      if FacpAt(mem, xsdt, i) {
        assert p(i);
        return Entry(mem, xsdt, i);
      }
      assert !p(i);
      i := i + 1;
    }
    return None;
  }

  /** `get_fadt`, with the corrected entry count. */
  method GetFadt(mem: Memory, rsdp: nat) returns (r: Option<nat>)
    ensures r == GetFadtOn(mem, rsdp, false)
  {
    if !RsdpValid(mem, rsdp) {
      return None;
    }
    var xsdt := XsdtAddress(mem, rsdp);
    if !HeaderValid(mem, xsdt, XSDT_SIGNATURE) {
      return None;
    }
    r := FindFadt(mem, xsdt, EntryCount(mem, xsdt, false));
  }
}
