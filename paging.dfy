// kernel/src/paging.rs: the identity page tables of section 4.5 of the
// Intel SDM, volume 3A — one PML4 entry, 64 page-directory-pointer entries
// and 64 page directories of 2 MiB pages, mapping the first 64 GiB of
// virtual memory onto the same physical addresses. Loading CR3 is a machine
// instruction and is not modelled; the link-time addresses of the PDP table
// and of the page directories are parameters (each is 4 KiB aligned, as
// `repr(align(4096))` requires).

module Paging {
  import opened Common
  import Allocator

  const ENTRIES: nat := 512
  const PAGE_DIRECTORY_COUNT: nat := 64

  const PAGE_SIZE_4K: nat := 4096
  const PAGE_SIZE_2M: nat := 512 * PAGE_SIZE_4K
  const PAGE_SIZE_1G: nat := 512 * PAGE_SIZE_2M

  /** Present and writable. */
  const TABLE_FLAGS: nat := 0x3
  /** Present, writable and a 2 MiB page. */
  const PAGE_FLAGS: nat := 0x83

  /**
   * `addr | flags` for an address aligned beyond the flag bits: the flags
   * land in bits the address leaves clear, so the OR is an addition.
   */
  function WithFlags(addr: nat, flags: nat): nat
    requires addr % PAGE_SIZE_4K == 0 && flags < PAGE_SIZE_4K
  {
    addr + flags
  }

  /** The physical address of page directory `i`: each is 512 eight-byte entries. */
  function DirectoryAddress(dirAddr: nat, i: nat): nat
  {
    dirAddr + PAGE_SIZE_4K * i
  }

  /** Page-directory entry `[i][j]`: the 2 MiB page at `i` GiB plus `j` times 2 MiB. */
  function PdEntry(i: nat, j: nat): nat
  {
    MultipleOf4K(i, j);
    WithFlags(i * PAGE_SIZE_1G + j * PAGE_SIZE_2M, PAGE_FLAGS)
  }

  lemma MultipleOf4K(i: nat, j: nat)
    ensures (i * PAGE_SIZE_1G + j * PAGE_SIZE_2M) % PAGE_SIZE_4K == 0
  {
    assert i * PAGE_SIZE_1G + j * PAGE_SIZE_2M == PAGE_SIZE_4K * (i * 262144 + j * 512);
  }

  // ---- the walk the MMU does ------------------------------------------------

  /** The low twelve bits of an entry. */
  function Flags(e: nat): nat { e % PAGE_SIZE_4K }
  predicate Present(e: nat) { Flags(e) % 2 == 1 }
  predicate LargePage(e: nat) { (Flags(e) / 128) % 2 == 1 }
  /** The 4 KiB-aligned table an entry points at. */
  function TableAddress(e: nat): nat { e - e % PAGE_SIZE_4K }
  /** The 2 MiB frame a large-page entry maps. */
  function FrameAddress(e: nat): nat { e - e % PAGE_SIZE_2M }

  /** Entries `[i][j]` of page directory `i < 64`. */
  ghost predicate DirectoryFilled(dir: array2<nat>, i: nat)
    requires dir.Length0 == PAGE_DIRECTORY_COUNT && dir.Length1 == ENTRIES && i < PAGE_DIRECTORY_COUNT
    reads dir
  {
    forall j :: 0 <= j < ENTRIES ==> dir[i, j] == PdEntry(i, j)
  }

  /** The tables as `setup_identity_page_table` leaves them. */
  ghost predicate IdentityTables(pml4: array<nat>, pdp: array<nat>, dir: array2<nat>, pdpAddr: nat, dirAddr: nat)
    requires pml4.Length == ENTRIES && pdp.Length == ENTRIES
    requires dir.Length0 == PAGE_DIRECTORY_COUNT && dir.Length1 == ENTRIES
    requires pdpAddr % PAGE_SIZE_4K == 0 && dirAddr % PAGE_SIZE_4K == 0
    reads pml4, pdp, dir
  {
    && pml4[0] == WithFlags(pdpAddr, TABLE_FLAGS)
    && (forall i :: 0 <= i < PAGE_DIRECTORY_COUNT ==> pdp[i] == WithFlags(DirectoryAddress(dirAddr, i), TABLE_FLAGS))
    && (forall i :: 0 <= i < PAGE_DIRECTORY_COUNT ==> DirectoryFilled(dir, i))
  }

  /**
   * The MMU's walk for a virtual address: PML4 entry (bits 39..47), PDP
   * entry (bits 30..38), page-directory entry (bits 21..29) and the offset
   * in the 2 MiB page (bits 0..20). None when an entry is not present, is
   * not a large page at the last level, or points at a table other than
   * the ones given.
   */
  ghost function Translate(pml4: array<nat>, pdp: array<nat>, dir: array2<nat>, pdpAddr: nat, dirAddr: nat, va: nat): Option<nat>
    requires pml4.Length == ENTRIES && pdp.Length == ENTRIES
    requires dir.Length0 == PAGE_DIRECTORY_COUNT && dir.Length1 == ENTRIES
    reads pml4, pdp, dir
  {
    var e4 := pml4[(va / (ENTRIES * PAGE_SIZE_1G)) % ENTRIES];
    if !Present(e4) || TableAddress(e4) != pdpAddr then None
    else
      var e3 := pdp[(va / PAGE_SIZE_1G) % ENTRIES];
      var t := TableAddress(e3);
      if !Present(e3) || t < dirAddr || (t - dirAddr) % PAGE_SIZE_4K != 0
         || (t - dirAddr) / PAGE_SIZE_4K >= PAGE_DIRECTORY_COUNT then None
      else
        var e2 := dir[(t - dirAddr) / PAGE_SIZE_4K, (va / PAGE_SIZE_2M) % ENTRIES];
        if !Present(e2) || !LargePage(e2) then None
        else Some(FrameAddress(e2) + va % PAGE_SIZE_2M)
  }

  lemma AlignedPlus(a: nat, f: nat, m: nat)
    requires m > 0 && a % m == 0 && f < m
    ensures (a + f) % m == f && (a + f) - (a + f) % m == a
  {
    var q := a / m;
    assert a == m * q;
    Allocator.DivModUnique(a + f, m, q, f);
  }

  /** The indexes of an address below 64 GiB. */
  lemma Indexes(va: nat)
    requires va < PAGE_DIRECTORY_COUNT * PAGE_SIZE_1G
    ensures va / (ENTRIES * PAGE_SIZE_1G) == 0
    ensures (va / PAGE_SIZE_1G) % ENTRIES == va / PAGE_SIZE_1G < PAGE_DIRECTORY_COUNT
    ensures va / PAGE_SIZE_1G * PAGE_SIZE_1G + (va / PAGE_SIZE_2M) % ENTRIES * PAGE_SIZE_2M + va % PAGE_SIZE_2M == va
  {
    var i := va / PAGE_SIZE_1G;
    var r := va % PAGE_SIZE_1G;
    assert va == i * PAGE_SIZE_1G + r;
    var j := r / PAGE_SIZE_2M;
    var s := r % PAGE_SIZE_2M;
    assert r == j * PAGE_SIZE_2M + s;
    assert j < ENTRIES;
    assert va == (i * ENTRIES + j) * PAGE_SIZE_2M + s;
    assert va / PAGE_SIZE_2M == i * ENTRIES + j by {
      DivOf(va, PAGE_SIZE_2M, i * ENTRIES + j, s);
    }
    assert (i * ENTRIES + j) % ENTRIES == j by {
      ModOf(i * ENTRIES + j, ENTRIES, i, j);
    }
    assert va % PAGE_SIZE_2M == s by {
      ModOf(va, PAGE_SIZE_2M, i * ENTRIES + j, s);
    }
  }

  lemma DivOf(x: nat, m: nat, q: nat, r: nat)
    requires m > 0 && r < m && x == q * m + r
    ensures x / m == q
  {
    Allocator.DivModUnique(x, m, q, r);
  }

  lemma ModOf(x: nat, m: nat, q: nat, r: nat)
    requires m > 0 && r < m && x == q * m + r
    ensures x % m == r
  {
    Allocator.DivModUnique(x, m, q, r);
  }

  /**
   * The tables map every address below 64 GiB to itself: the walk finds
   * present entries all the way down to a 2 MiB page whose frame, plus the
   * offset within the page, is the address.
   */
  lemma IdentityMapped(pml4: array<nat>, pdp: array<nat>, dir: array2<nat>, pdpAddr: nat, dirAddr: nat, va: nat)
    requires pml4.Length == ENTRIES && pdp.Length == ENTRIES
    requires dir.Length0 == PAGE_DIRECTORY_COUNT && dir.Length1 == ENTRIES
    requires pdpAddr % PAGE_SIZE_4K == 0 && dirAddr % PAGE_SIZE_4K == 0
    requires IdentityTables(pml4, pdp, dir, pdpAddr, dirAddr)
    requires va < PAGE_DIRECTORY_COUNT * PAGE_SIZE_1G
    ensures Translate(pml4, pdp, dir, pdpAddr, dirAddr, va) == Some(va)
  {
    Indexes(va);
    var i := va / PAGE_SIZE_1G;
    var j := (va / PAGE_SIZE_2M) % ENTRIES;
    AlignedPlus(pdpAddr, TABLE_FLAGS, PAGE_SIZE_4K);
    var d := DirectoryAddress(dirAddr, i);
    assert d % PAGE_SIZE_4K == 0 by {
      ModOf(d, PAGE_SIZE_4K, dirAddr / PAGE_SIZE_4K + i, 0);
    }
    AlignedPlus(d, TABLE_FLAGS, PAGE_SIZE_4K);
    assert (d - dirAddr) / PAGE_SIZE_4K == i;
    var a := i * PAGE_SIZE_1G + j * PAGE_SIZE_2M;
    assert DirectoryFilled(dir, i);
    assert dir[i, j] == a + PAGE_FLAGS;
    MultipleOf4K(i, j);
    AlignedPlus(a, PAGE_FLAGS, PAGE_SIZE_4K);
    assert a % PAGE_SIZE_2M == 0 by {
      ModOf(a, PAGE_SIZE_2M, i * ENTRIES + j, 0);
    }
    AlignedPlus(a, PAGE_FLAGS, PAGE_SIZE_2M);
  }

  // ---- setup_identity_page_table --------------------------------------------

  /** The inner loop: fill page directory `i` with its 512 large pages. */
  method FillDirectory(dir: array2<nat>, i: nat)
    requires dir.Length0 == PAGE_DIRECTORY_COUNT && dir.Length1 == ENTRIES && i < PAGE_DIRECTORY_COUNT
    modifies dir
    ensures DirectoryFilled(dir, i)
    ensures forall k, j :: 0 <= k < PAGE_DIRECTORY_COUNT && k != i && 0 <= j < ENTRIES ==> dir[k, j] == old(dir[k, j])
  {
    for j := 0 to ENTRIES
      invariant forall l :: 0 <= l < j ==> dir[i, l] == PdEntry(i, l)
      invariant forall k, l :: 0 <= k < PAGE_DIRECTORY_COUNT && k != i && 0 <= l < ENTRIES ==> dir[k, l] == old(dir[k, l])
    {
      dir[i, j] := PdEntry(i, j);
    }
  }

  /**
   * `setup_identity_page_table`: PML4 entry 0 points at the PDP table,
   * PDP entries 0..63 at the page directories, and every page-directory
   * entry maps its own 2 MiB of the first 64 GiB. The other PML4 and PDP
   * entries are left as they were.
   */
  method SetupIdentityPageTable(pml4: array<nat>, pdp: array<nat>, dir: array2<nat>, pdpAddr: nat, dirAddr: nat)
    requires pml4.Length == ENTRIES && pdp.Length == ENTRIES
    requires dir.Length0 == PAGE_DIRECTORY_COUNT && dir.Length1 == ENTRIES
    requires pdpAddr % PAGE_SIZE_4K == 0 && dirAddr % PAGE_SIZE_4K == 0
    requires pml4 != pdp
    modifies pml4, pdp, dir
    ensures IdentityTables(pml4, pdp, dir, pdpAddr, dirAddr)
    ensures forall k :: 1 <= k < ENTRIES ==> pml4[k] == old(pml4[k])
    ensures forall k :: PAGE_DIRECTORY_COUNT <= k < ENTRIES ==> pdp[k] == old(pdp[k])
  {
    pml4[0] := WithFlags(pdpAddr, TABLE_FLAGS);
    for i := 0 to PAGE_DIRECTORY_COUNT
      invariant pml4[0] == WithFlags(pdpAddr, TABLE_FLAGS)
      invariant forall k :: 1 <= k < ENTRIES ==> pml4[k] == old(pml4[k])
      invariant forall k :: 0 <= k < i ==> pdp[k] == WithFlags(DirectoryAddress(dirAddr, k), TABLE_FLAGS)
      invariant forall k :: PAGE_DIRECTORY_COUNT <= k < ENTRIES ==> pdp[k] == old(pdp[k])
      invariant forall k :: 0 <= k < i ==> DirectoryFilled(dir, k)
    {
      var d := DirectoryAddress(dirAddr, i);
      assert d % PAGE_SIZE_4K == 0 by {
        ModOf(d, PAGE_SIZE_4K, dirAddr / PAGE_SIZE_4K + i, 0);
      }
      pdp[i] := WithFlags(d, TABLE_FLAGS);
      label before:
      FillDirectory(dir, i);
      forall k | 0 <= k < i
        ensures DirectoryFilled(dir, k)
      {
        assert old@before(DirectoryFilled(dir, k));
        assert forall j :: 0 <= j < ENTRIES ==> dir[k, j] == old@before(dir[k, j]);
      }
    }
  }
}
