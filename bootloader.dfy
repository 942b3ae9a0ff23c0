// bootloader/src/main.rs: the UEFI boot loader's kernel loading. The kernel
// file has already been read into memory and parsed as ELF64; the model
// takes its bytes, its program headers and the sections the loader looks up.
// `load_kernel` sizes the image from the LOAD headers, allocates whole pages
// filled with zero, copies each LOAD segment's file bytes to its virtual
// address, applies the R_X86_64_RELATIVE relocations of `.rela.dyn` and
// `.rela.plt`, and reads the entry point from the image. `main` maps the GOP
// pixel format. The UEFI services (file access, page allocation, the memory
// map, exiting boot services) are not modelled: the addresses they hand out
// are parameters.

module Bootloader {
  import opened Common

  type Byte = b: nat | b < 256

  const PAGE_SIZE: nat := 4096
  /** Size of an `Rela` record (r_offset, r_info, r_addend: three 8-byte words). */
  const RELA_SIZE: nat := 24
  const R_X86_64_RELATIVE: nat := 8
  /** Offset of `e_entry` in the ELF64 header. */
  const ENTRY_OFFSET: nat := 24
  const U64: nat := 0x1_0000_0000_0000_0000
  const U32: nat := 0x1_0000_0000

  /** A program header: whether it is PT_LOAD, and its file offset, address and sizes. */
  datatype ProgramHeader = ProgramHeader(load: bool, offset: nat, vaddr: nat, filesz: nat, memsz: nat)

  /** A section header, as far as the loader uses it. */
  datatype Section = Section(offset: nat, size: nat, entsize: nat)

  /** A relocation record: the three raw words. */
  datatype Rela = Rela(offset: nat, info: nat, addend: nat)

  // Little-endian words

  function Pow256(n: nat): nat
  {
    if n == 0 then 1 else 256 * Pow256(n - 1)
  }

  /** The value of bytes read as a little-endian number. */
  function LeValue(s: seq<Byte>): nat
  {
    if s == [] then 0 else s[0] + 256 * LeValue(s[1..])
  }

  /** The n little-endian bytes of v (modulo 256^n). */
  function LeBytes(v: nat, n: nat): (s: seq<Byte>)
    ensures |s| == n
  {
    if n == 0 then [] else [v % 256] + LeBytes(v / 256, n - 1)
  }

  /** n bytes hold a value below 256^n. */
  lemma {:induction false} LeValueBound(s: seq<Byte>)
    ensures LeValue(s) < Pow256(|s|)
  {
    if s != [] {
      LeValueBound(s[1..]);
    }
  }

  /** Writing a value as bytes and reading it back gives the value, when it fits. */
  lemma {:induction false} LeRoundTrip(v: nat, n: nat)
    requires v < Pow256(n)
    ensures LeValue(LeBytes(v, n)) == v
  {
    if n > 0 {
      assert v / 256 < Pow256(n - 1);
      LeRoundTrip(v / 256, n - 1);
      assert LeBytes(v, n)[1..] == LeBytes(v / 256, n - 1);
    }
  }

  /** Reading bytes as a value and writing it back gives the bytes. */
  lemma {:induction false} LeBytesOfValue(s: seq<Byte>)
    ensures LeBytes(LeValue(s), |s|) == s
  {
    if s != [] {
      LeBytesOfValue(s[1..]);
      var v := LeValue(s);
      assert v % 256 == s[0] && v / 256 == LeValue(s[1..]);
    }
  }

  /** The 8-byte word at offset o. */
  function ReadU64(img: seq<Byte>, o: nat): nat
    requires o + 8 <= |img|
  {
    LeValue(img[o..o + 8])
  }

  /** `img` with the 8-byte word at offset o replaced by v. */
  function Patch(img: seq<Byte>, o: nat, v: nat): (r: seq<Byte>)
    requires o + 8 <= |img|
    ensures |r| == |img|
  {
    img[..o] + LeBytes(v, 8) + img[o + 8..]
  }

  /** A patched word reads back as the value stored, and no other byte changes. */
  lemma PatchReadsBack(img: seq<Byte>, o: nat, v: nat)
    requires o + 8 <= |img| && v < U64
    ensures ReadU64(Patch(img, o, v), o) == v
    ensures forall p :: 0 <= p < |img| && !(o <= p < o + 8) ==> Patch(img, o, v)[p] == img[p]
  {
    assert Pow256(8) == U64;
    assert Patch(img, o, v)[o..o + 8] == LeBytes(v, 8);
    LeRoundTrip(v, 8);
  }

  // The span of the LOAD segments (lines 78-93)

  function End(h: ProgramHeader): nat
  {
    h.vaddr + h.memsz
  }

  /** `last` after the headers `hs`: the largest end of a LOAD segment, 0 if there is none. */
  function LastEnd(hs: seq<ProgramHeader>): nat
  {
    if hs == [] then 0
    else
      var last := LastEnd(hs[..|hs| - 1]);
      var h := hs[|hs| - 1];
      if h.load && End(h) > last then End(h) else last
  }

  /** `last` bounds every LOAD segment, and is 0 or the end of one of them. */
  lemma {:induction false} LastIsMax(hs: seq<ProgramHeader>)
    ensures forall i :: 0 <= i < |hs| && hs[i].load ==> End(hs[i]) <= LastEnd(hs)
    ensures LastEnd(hs) == 0 || exists i :: 0 <= i < |hs| && hs[i].load && End(hs[i]) == LastEnd(hs)
  {
    if hs != [] {
      var pre := hs[..|hs| - 1];
      LastIsMax(pre);
      if LastEnd(hs) != 0 && LastEnd(hs) == LastEnd(pre) {
        var i :| 0 <= i < |pre| && pre[i].load && End(pre[i]) == LastEnd(pre);
        assert hs[i] == pre[i];
      }
      forall i | 0 <= i < |hs| && hs[i].load ensures End(hs[i]) <= LastEnd(hs) {
        if i < |pre| {
          assert hs[i] == pre[i];
        }
      }
    }
  }

  /** Without a LOAD header `last` stays 0. */
  lemma {:induction false} NoLoadNoSpan(hs: seq<ProgramHeader>)
    requires forall i :: 0 <= i < |hs| ==> !hs[i].load
    ensures LastEnd(hs) == 0
  {
    if hs != [] {
      NoLoadNoSpan(hs[..|hs| - 1]);
    }
  }

  /** The loop over the program headers that computes `last`. */
  method LastLoadEnd(hs: seq<ProgramHeader>) returns (last: nat)
    ensures last == LastEnd(hs)
  {
    last := 0;
    for i := 0 to |hs|
      invariant last == LastEnd(hs[..i])
    {
      assert hs[..i + 1][..i] == hs[..i];
      var h := hs[i];
      if h.load {
        last := if last < h.vaddr + h.memsz then h.vaddr + h.memsz else last;
      }
    }
    assert hs[..|hs|] == hs;
  }

  // The image (lines 95-102)

  /** `last.div_ceil(PAGE_SIZE)`: the number of pages allocated. */
  function Pages(last: nat): nat
  {
    (last + PAGE_SIZE - 1) / PAGE_SIZE
  }

  /** `kernel_ptr_len`: the length of the image. */
  function ImageLen(last: nat): nat
  {
    Pages(last) * PAGE_SIZE
  }

  /** The image is whole pages, holds `last` bytes, and has less than a page to spare. */
  lemma ImageCovers(last: nat)
    ensures ImageLen(last) % PAGE_SIZE == 0
    ensures last <= ImageLen(last) < last + PAGE_SIZE
  {
  }

  /** The zero-filled image of `write_bytes(0, kernel_ptr_len)`. */
  function ZeroImage(n: nat): (r: seq<Byte>)
    ensures |r| == n && forall p :: 0 <= p < n ==> r[p] == 0
  {
    seq(n, _ => 0)
  }

  // Copying the segments (lines 104-112)

  /** The file range of a LOAD segment fits in the file and its target range in an image of `len` bytes. */
  predicate CopyFits(len: nat, fileLen: nat, hs: seq<ProgramHeader>)
  {
    forall i :: 0 <= i < |hs| && hs[i].load ==>
      hs[i].vaddr + hs[i].filesz <= len && hs[i].offset + hs[i].filesz <= fileLen
  }

  /** One `copy_from_slice`: the segment's file bytes at its address. */
  function CopySegment(img: seq<Byte>, file: seq<Byte>, h: ProgramHeader): (r: seq<Byte>)
    requires h.vaddr + h.filesz <= |img| && h.offset + h.filesz <= |file|
    ensures |r| == |img|
  {
    img[..h.vaddr] + file[h.offset..h.offset + h.filesz] + img[h.vaddr + h.filesz..]
  }

  /** The image after the copy loop over `hs`: LOAD headers are copied in order, others skipped. */
  function LoadSegments(img: seq<Byte>, file: seq<Byte>, hs: seq<ProgramHeader>): (r: seq<Byte>)
    requires CopyFits(|img|, |file|, hs)
    ensures |r| == |img|
    decreases hs
  {
    if hs == [] then img
    else
      var next := if hs[0].load then CopySegment(img, file, hs[0]) else img;
      LoadSegments(next, file, hs[1..])
  }

  /** Address p lies outside the file range of every LOAD header. */
  predicate Outside(hs: seq<ProgramHeader>, p: nat)
  {
    forall i :: 0 <= i < |hs| && hs[i].load ==> !(hs[i].vaddr <= p < hs[i].vaddr + hs[i].filesz)
  }

  /** A byte outside every LOAD segment's file range keeps its value. */
  lemma {:induction false} CopyUntouched(img: seq<Byte>, file: seq<Byte>, hs: seq<ProgramHeader>, p: nat)
    requires CopyFits(|img|, |file|, hs) && p < |img| && Outside(hs, p)
    ensures LoadSegments(img, file, hs)[p] == img[p]
    decreases hs
  {
    if hs != [] {
      var next := if hs[0].load then CopySegment(img, file, hs[0]) else img;
      assert LoadSegments(img, file, hs) == LoadSegments(next, file, hs[1..]);
      assert next[p] == img[p];
      assert Outside(hs[1..], p) by {
        forall j | 0 <= j < |hs[1..]| && hs[1..][j].load
          ensures !(hs[1..][j].vaddr <= p < hs[1..][j].vaddr + hs[1..][j].filesz)
        {
          assert hs[1..][j] == hs[j + 1];
        }
      }
      CopyUntouched(next, file, hs[1..], p);
    }
  }

  /** The file ranges of the LOAD segments do not overlap in the image. */
  predicate Disjoint(hs: seq<ProgramHeader>)
  {
    forall i, j :: 0 <= i < j < |hs| && hs[i].load && hs[j].load ==>
      hs[i].vaddr + hs[i].filesz <= hs[j].vaddr || hs[j].vaddr + hs[j].filesz <= hs[i].vaddr
  }

  /** With disjoint segments each one's file bytes end up at its address. */
  lemma {:induction false} CopyLands(img: seq<Byte>, file: seq<Byte>, hs: seq<ProgramHeader>, i: nat, k: nat)
    requires CopyFits(|img|, |file|, hs) && Disjoint(hs)
    requires i < |hs| && hs[i].load && k < hs[i].filesz
    ensures LoadSegments(img, file, hs)[hs[i].vaddr + k] == file[hs[i].offset + k]
    decreases hs
  {
    if i == 0 {
      CopyLandsFirst(img, file, hs, k);
    } else {
      var next := if hs[0].load then CopySegment(img, file, hs[0]) else img;
      assert LoadSegments(img, file, hs) == LoadSegments(next, file, hs[1..]);
      DisjointTail(hs);
      assert hs[1..][i - 1] == hs[i];
      CopyLands(next, file, hs[1..], i - 1, k);
    }
  }

  /** The first segment's bytes: copied first, and no later segment overwrites them. */
  lemma CopyLandsFirst(img: seq<Byte>, file: seq<Byte>, hs: seq<ProgramHeader>, k: nat)
    requires CopyFits(|img|, |file|, hs) && Disjoint(hs)
    requires hs != [] && hs[0].load && k < hs[0].filesz
    ensures LoadSegments(img, file, hs)[hs[0].vaddr + k] == file[hs[0].offset + k]
  {
    var next := CopySegment(img, file, hs[0]);
    assert LoadSegments(img, file, hs) == LoadSegments(next, file, hs[1..]);
    var p := hs[0].vaddr + k;
    assert next[p] == file[hs[0].offset + k];
    FirstOutsideRest(hs, p);
    CopyUntouched(next, file, hs[1..], p);
  }

  lemma DisjointTail(hs: seq<ProgramHeader>)
    requires Disjoint(hs) && hs != []
    ensures Disjoint(hs[1..])
  {
    forall a, b | 0 <= a < b < |hs[1..]| && hs[1..][a].load && hs[1..][b].load
      ensures hs[1..][a].vaddr + hs[1..][a].filesz <= hs[1..][b].vaddr || hs[1..][b].vaddr + hs[1..][b].filesz <= hs[1..][a].vaddr
    {
      assert hs[1..][a] == hs[a + 1] && hs[1..][b] == hs[b + 1];
    }
  }

  /** An address in the first segment's file range is outside every later one. */
  lemma FirstOutsideRest(hs: seq<ProgramHeader>, p: nat)
    requires Disjoint(hs) && hs != [] && hs[0].load && hs[0].vaddr <= p < hs[0].vaddr + hs[0].filesz
    ensures Outside(hs[1..], p)
  {
    forall j | 0 <= j < |hs[1..]| && hs[1..][j].load
      ensures !(hs[1..][j].vaddr <= p < hs[1..][j].vaddr + hs[1..][j].filesz)
    {
      assert hs[1..][j] == hs[j + 1];
    }
  }

  /**
   * On the zero-filled image, bytes of a segment past its file size (up to
   * its memory size) that no segment's file range covers stay zero.
   */
  lemma BssZero(file: seq<Byte>, hs: seq<ProgramHeader>, p: nat)
    requires CopyFits(ImageLen(LastEnd(hs)), |file|, hs)
    requires exists i :: 0 <= i < |hs| && hs[i].load && hs[i].vaddr + hs[i].filesz <= p < End(hs[i])
    requires Outside(hs, p)
    ensures p < ImageLen(LastEnd(hs))
    ensures LoadSegments(ZeroImage(ImageLen(LastEnd(hs))), file, hs)[p] == 0
  {
    LastIsMax(hs);
    CopyUntouched(ZeroImage(ImageLen(LastEnd(hs))), file, hs, p);
  }

  /** A LOAD header whose file size is at most its memory size always fits the image. */
  lemma SegmentsFitImage(file: seq<Byte>, hs: seq<ProgramHeader>)
    requires forall i :: 0 <= i < |hs| && hs[i].load ==> hs[i].filesz <= hs[i].memsz && hs[i].offset + hs[i].filesz <= |file|
    ensures CopyFits(ImageLen(LastEnd(hs)), |file|, hs)
  {
    LastIsMax(hs);
  }

  // Relocation (lines 114-142)

  /** `sec.size() / sec.entsize()`: the number of records. */
  function Count(sec: Section): nat
    requires sec.entsize > 0
  {
    sec.size / sec.entsize
  }

  /** The source indexes the file at the section offset and then reads Count records of RELA_SIZE bytes. */
  predicate Readable(file: seq<Byte>, sec: Section)
  {
    sec.entsize > 0 && sec.offset < |file| && sec.offset + RELA_SIZE * Count(sec) <= |file|
  }

  /** The record at offset o of the file. */
  function ReadRela(file: seq<Byte>, o: nat): Rela
    requires o + RELA_SIZE <= |file|
  {
    Rela(ReadU64(file, o), ReadU64(file, o + 8), ReadU64(file, o + 16))
  }

  /** The records of a section. */
  function Relas(file: seq<Byte>, sec: Section): (rs: seq<Rela>)
    requires Readable(file, sec)
    ensures |rs| == Count(sec)
  {
    seq(Count(sec), j requires 0 <= j < Count(sec) => ReadRela(file, sec.offset + RELA_SIZE * j))
  }

  /** `r_info & 0xffffffff`. */
  function Type(r: Rela): nat
  {
    r.info % U32
  }

  /** The value stored: the image base advanced by the addend, as a 64-bit address. */
  function Relocated(base: nat, r: Rela): (v: nat)
    ensures v < U64
  {
    (base + r.addend) % U64
  }

  /** The outcome of a relocation pass: the patched image, or the panic on an unsupported type. */
  datatype Patched = Patched(image: seq<Byte>) | Unsupported(ty: nat)

  /** Every RELATIVE record up to the first unsupported one targets a word inside the image. */
  predicate SafeRelas(len: nat, rs: seq<Rela>)
  {
    forall i :: 0 <= i < |rs| && (forall j :: 0 <= j < i ==> Type(rs[j]) == R_X86_64_RELATIVE) ==>
      Type(rs[i]) != R_X86_64_RELATIVE || rs[i].offset + 8 <= len
  }

  /** Past a RELATIVE record the rest of the records are safe too, and the record's own word is in range. */
  lemma SafeTail(len: nat, rs: seq<Rela>)
    requires SafeRelas(len, rs) && rs != [] && Type(rs[0]) == R_X86_64_RELATIVE
    ensures rs[0].offset + 8 <= len && SafeRelas(len, rs[1..])
  {
    forall i | 0 <= i < |rs[1..]| && (forall j :: 0 <= j < i ==> Type(rs[1..][j]) == R_X86_64_RELATIVE)
      ensures Type(rs[1..][i]) != R_X86_64_RELATIVE || rs[1..][i].offset + 8 <= len
    {
      assert forall j :: 0 <= j < i + 1 ==> Type(rs[j]) == R_X86_64_RELATIVE by {
        forall j | 0 <= j < i + 1 ensures Type(rs[j]) == R_X86_64_RELATIVE {
          if j > 0 {
            assert rs[j] == rs[1..][j - 1];
          }
        }
      }
    }
  }

  /** The records applied in order; the first type other than 8 stops with a panic. */
  function Relocate(img: seq<Byte>, base: nat, rs: seq<Rela>): (r: Patched)
    requires SafeRelas(|img|, rs)
    ensures r.Patched? ==> |r.image| == |img|
    decreases rs
  {
    if rs == [] then Patched(img)
    else if Type(rs[0]) != R_X86_64_RELATIVE then Unsupported(Type(rs[0]))
    else
      SafeTail(|img|, rs);
      Relocate(Patch(img, rs[0].offset, Relocated(base, rs[0])), base, rs[1..])
  }

  /** The pass panics exactly when some record has another type, and reports the first such type. */
  lemma {:induction false} RelocateOutcome(img: seq<Byte>, base: nat, rs: seq<Rela>)
    requires SafeRelas(|img|, rs)
    ensures Relocate(img, base, rs).Unsupported? <==> exists i :: 0 <= i < |rs| && Type(rs[i]) != R_X86_64_RELATIVE
    ensures Relocate(img, base, rs).Unsupported? ==>
      exists i :: 0 <= i < |rs| && Type(rs[i]) == Relocate(img, base, rs).ty &&
        (forall j :: 0 <= j < i ==> Type(rs[j]) == R_X86_64_RELATIVE)
    decreases rs
  {
    if rs != [] && Type(rs[0]) == R_X86_64_RELATIVE {
      var next := Patch(img, rs[0].offset, Relocated(base, rs[0]));
      RelocateOutcome(next, base, rs[1..]);
      if exists i :: 0 <= i < |rs| && Type(rs[i]) != R_X86_64_RELATIVE {
        var i :| 0 <= i < |rs| && Type(rs[i]) != R_X86_64_RELATIVE;
        assert rs[1..][i - 1] == rs[i];
      }
      if Relocate(img, base, rs).Unsupported? {
        var i :| 0 <= i < |rs[1..]| && Type(rs[1..][i]) == Relocate(img, base, rs).ty &&
          (forall j :: 0 <= j < i ==> Type(rs[1..][j]) == R_X86_64_RELATIVE);
        assert rs[i + 1] == rs[1..][i];
        forall j | 0 <= j < i + 1 ensures Type(rs[j]) == R_X86_64_RELATIVE {
          if j > 0 {
            assert rs[j] == rs[1..][j - 1];
          }
        }
      }
    }
  }

  /**
   * The last record patching a word decides it: after a pass that does not
   * panic, a RELATIVE record whose word no later record touches reads back
   * as base plus its addend.
   */
  lemma {:induction false} RelocateStores(img: seq<Byte>, base: nat, rs: seq<Rela>, i: nat)
    requires SafeRelas(|img|, rs) && Relocate(img, base, rs).Patched?
    requires i < |rs| && rs[i].offset + 8 <= |img|
    requires forall j :: i < j < |rs| ==> rs[j].offset + 8 <= rs[i].offset || rs[i].offset + 8 <= rs[j].offset
    ensures ReadU64(Relocate(img, base, rs).image, rs[i].offset) == Relocated(base, rs[i])
    decreases rs
  {
    var next := Patch(img, rs[0].offset, Relocated(base, rs[0]));
    assert Relocate(img, base, rs) == Relocate(next, base, rs[1..]);
    if i == 0 {
      PatchReadsBack(img, rs[0].offset, Relocated(base, rs[0]));
      RelocateKeeps(next, base, rs[1..], rs[0].offset);
    } else {
      assert rs[1..][i - 1] == rs[i];
      RelocateStores(next, base, rs[1..], i - 1);
    }
  }

  /** A word that no record touches is left as it was. */
  lemma {:induction false} RelocateKeeps(img: seq<Byte>, base: nat, rs: seq<Rela>, o: nat)
    requires SafeRelas(|img|, rs) && Relocate(img, base, rs).Patched? && o + 8 <= |img|
    requires forall j :: 0 <= j < |rs| ==> rs[j].offset + 8 <= o || o + 8 <= rs[j].offset
    ensures ReadU64(Relocate(img, base, rs).image, o) == ReadU64(img, o)
    decreases rs
  {
    if rs != [] {
      var next := Patch(img, rs[0].offset, Relocated(base, rs[0]));
      PatchReadsBack(img, rs[0].offset, Relocated(base, rs[0]));
      assert next[o..o + 8] == img[o..o + 8];
      RelocateKeeps(next, base, rs[1..], o);
    }
  }

  /** `[rela_dyn_section, rela_plt_section]`: each present section's pass in turn; a missing one is skipped. */
  predicate SectionsReadable(file: seq<Byte>, len: nat, secs: seq<Option<Section>>)
  {
    forall i :: 0 <= i < |secs| && secs[i].Some? ==>
      Readable(file, secs[i].value) && SafeRelas(len, Relas(file, secs[i].value))
  }

  function RelocateAll(img: seq<Byte>, base: nat, file: seq<Byte>, secs: seq<Option<Section>>): (r: Patched)
    requires SectionsReadable(file, |img|, secs)
    ensures r.Patched? ==> |r.image| == |img|
    decreases secs
  {
    if secs == [] then Patched(img)
    else if secs[0].None? then RelocateAll(img, base, file, secs[1..])
    else
      match Relocate(img, base, Relas(file, secs[0].value))
      case Unsupported(ty) => Unsupported(ty)
      case Patched(next) => RelocateAll(next, base, file, secs[1..])
  }

  /** Missing sections change nothing. */
  lemma {:induction false} MissingSkipped(img: seq<Byte>, base: nat, file: seq<Byte>, secs: seq<Option<Section>>)
    requires forall i :: 0 <= i < |secs| ==> secs[i].None?
    ensures RelocateAll(img, base, file, secs) == Patched(img)
  {
    if secs != [] {
      MissingSkipped(img, base, file, secs[1..]);
    }
  }

  /** Writes the 8-byte word v at offset o: the store through `*to`. */
  method WriteU64(image: array<Byte>, o: nat, v: nat)
    requires o + 8 <= image.Length
    modifies image
    ensures image[..] == Patch(old(image[..]), o, v)
  {
    var bytes := LeBytes(v, 8);
    for k := 0 to 8
      invariant forall p :: 0 <= p < image.Length && !(o <= p < o + k) ==> image[p] == old(image[p])
      invariant forall p :: o <= p < o + k ==> image[p] == bytes[p - o]
    {
      image[o + k] := bytes[k];
    }
    assert image[..] == Patch(old(image[..]), o, v);
  }

  /** The loop over one section's records. */
  method RelocateSection(image: array<Byte>, file: seq<Byte>, base: nat, sec: Section) returns (r: Patched)
    requires Readable(file, sec) && SafeRelas(image.Length, Relas(file, sec))
    modifies image
    ensures r == Relocate(old(image[..]), base, Relas(file, sec))
    ensures r.Patched? ==> r.image == image[..]
  {
    ghost var rs := Relas(file, sec);
    var count := sec.size / sec.entsize;
    for i := 0 to count
      invariant SafeRelas(image.Length, rs[i..])
      invariant Relocate(old(image[..]), base, rs) == Relocate(image[..], base, rs[i..])
    {
      var rela := ReadRela(file, sec.offset + RELA_SIZE * i);
      assert rela == rs[i..][0];
      assert rs[i..][1..] == rs[i + 1..];
      var ty := rela.info % U32;
      if ty != R_X86_64_RELATIVE {
        return Unsupported(ty);
      }
      SafeTail(image.Length, rs[i..]);
      WriteU64(image, rela.offset, (base + rela.addend) % U64);
    }
    assert rs[count..] == [];
    r := Patched(image[..]);
  }

  /** The loop over `[rela_dyn_section, rela_plt_section]`. */
  method RelocateSections(image: array<Byte>, file: seq<Byte>, base: nat, secs: seq<Option<Section>>) returns (r: Patched)
    requires SectionsReadable(file, image.Length, secs)
    modifies image
    ensures r == RelocateAll(old(image[..]), base, file, secs)
    ensures r.Patched? ==> r.image == image[..]
  {
    for i := 0 to |secs|
      invariant RelocateAll(old(image[..]), base, file, secs) == RelocateAll(image[..], base, file, secs[i..])
    {
      assert secs[i..][1..] == secs[i + 1..];
      if secs[i].None? {
        continue;
      }
      var p := RelocateSection(image, file, base, secs[i].value);
      if p.Unsupported? {
        return p;
      }
    }
    assert secs[|secs|..] == [];
    r := Patched(image[..]);
  }

  // The symbol tables and the entry point (lines 144-158)

  /** `(symtab_section, symtab_num)`: the table's address in the file buffer and its entry count, (0, 0) without one. */
  function SymbolTable(bufferAddr: nat, s: Option<Section>): (r: (nat, nat))
    requires s.Some? ==> s.value.entsize > 0
    ensures s.None? ==> r == (0, 0)
    ensures s.Some? ==> r.0 == bufferAddr + s.value.offset
    ensures s.Some? ==> r.1 * s.value.entsize <= s.value.size < (r.1 + 1) * s.value.entsize
  {
    if s.Some? then (bufferAddr + s.value.offset, s.value.size / s.value.entsize) else (0, 0)
  }

  /** `strtab_section`: the string table's address in the file buffer, 0 without one. */
  function StringTable(bufferAddr: nat, s: Option<Section>): (r: nat)
    ensures s.None? ==> r == 0
    ensures s.Some? ==> r == bufferAddr + s.value.offset
  {
    if s.Some? then bufferAddr + s.value.offset else 0
  }

  /** `entry_point`: the image's `e_entry` word plus the image base. */
  function EntryPoint(img: seq<Byte>, base: nat): (e: nat)
    requires ENTRY_OFFSET + 8 <= |img|
    ensures base <= e < base + U64
  {
    LeValueBound(img[ENTRY_OFFSET..ENTRY_OFFSET + 8]);
    assert Pow256(8) == U64;
    ReadU64(img, ENTRY_OFFSET) + base
  }

  /**
   * When a LOAD segment maps the start of the file at address 0 and covers
   * the ELF header's `e_entry`, the copied image holds the file's `e_entry`.
   */
  lemma EntryFromHeader(file: seq<Byte>, hs: seq<ProgramHeader>, i: nat)
    requires CopyFits(ImageLen(LastEnd(hs)), |file|, hs) && Disjoint(hs)
    requires i < |hs| && hs[i].load && hs[i].offset == 0 && hs[i].vaddr == 0 && hs[i].filesz >= ENTRY_OFFSET + 8
    ensures ENTRY_OFFSET + 8 <= ImageLen(LastEnd(hs)) && ENTRY_OFFSET + 8 <= |file|
    ensures ReadU64(LoadSegments(ZeroImage(ImageLen(LastEnd(hs))), file, hs), ENTRY_OFFSET) == ReadU64(file, ENTRY_OFFSET)
  {
    var img := LoadSegments(ZeroImage(ImageLen(LastEnd(hs))), file, hs);
    assert img[ENTRY_OFFSET..ENTRY_OFFSET + 8] == file[ENTRY_OFFSET..ENTRY_OFFSET + 8] by {
      forall p | ENTRY_OFFSET <= p < ENTRY_OFFSET + 8 ensures img[p] == file[p] {
        CopyLands(ZeroImage(ImageLen(LastEnd(hs))), file, hs, i, p);
      }
    }
  }

  // load_kernel as a whole

  /** What `load_kernel` returns (with the image), or the relocation panic. */
  datatype Loaded =
    | Loaded(image: seq<Byte>, entry: nat, base: nat, symtab: nat, symtabNum: nat, strtab: nat)
    | RelocationPanic(ty: nat)

  /** What the source needs of the parsed file: in-range copies and relocations, a nonzero entry size, a header word. */
  predicate Loadable(file: seq<Byte>, hs: seq<ProgramHeader>, secs: seq<Option<Section>>, symtab: Option<Section>)
  {
    var len := ImageLen(LastEnd(hs));
    && CopyFits(len, |file|, hs)
    && SectionsReadable(file, len, secs)
    && ENTRY_OFFSET + 8 <= len
    && (symtab.Some? ==> symtab.value.entsize > 0)
  }

  function LoadSpec(file: seq<Byte>, hs: seq<ProgramHeader>, secs: seq<Option<Section>>,
                    symtab: Option<Section>, strtab: Option<Section>, base: nat, bufferAddr: nat): (r: Loaded)
    requires Loadable(file, hs, secs, symtab)
    ensures r.Loaded? ==> |r.image| == ImageLen(LastEnd(hs)) && r.base == base
  {
    var img := LoadSegments(ZeroImage(ImageLen(LastEnd(hs))), file, hs);
    match RelocateAll(img, base, file, secs)
    case Unsupported(ty) => RelocationPanic(ty)
    case Patched(done) =>
      var (sym, num) := SymbolTable(bufferAddr, symtab);
      Loaded(done, EntryPoint(done, base), base, sym, num, StringTable(bufferAddr, strtab))
  }

  /**
   * `load_kernel` after the file is read and parsed: `base` is the address
   * `allocate_pages` returns and `bufferAddr` that of the file buffer.
   */
  method LoadKernel(file: seq<Byte>, hs: seq<ProgramHeader>, relaDyn: Option<Section>, relaPlt: Option<Section>,
                    symtab: Option<Section>, strtab: Option<Section>, base: nat, bufferAddr: nat) returns (r: Loaded)
    requires Loadable(file, hs, [relaDyn, relaPlt], symtab)
    ensures r == LoadSpec(file, hs, [relaDyn, relaPlt], symtab, strtab, base, bufferAddr)
  {
    var last := LastLoadEnd(hs);
    var len := (last + PAGE_SIZE - 1) / PAGE_SIZE * PAGE_SIZE;
    assert len == ImageLen(LastEnd(hs));
    var image := new Byte[len](_ => 0);
    assert image[..] == ZeroImage(len);
    CopySegments(image, file, hs);
    ghost var copied := image[..];
    assert copied == LoadSegments(ZeroImage(ImageLen(LastEnd(hs))), file, hs);
    var p := RelocateSections(image, file, base, [relaDyn, relaPlt]);
    assert p == RelocateAll(copied, base, file, [relaDyn, relaPlt]);
    if p.Unsupported? {
      return RelocationPanic(p.ty);
    }
    var symtabSection: nat, symtabNum: nat := 0, 0;
    if symtab.Some? {
      symtabSection, symtabNum := bufferAddr + symtab.value.offset, Count(symtab.value);
    }
    var strtabSection: nat := 0;
    if strtab.Some? {
      strtabSection := bufferAddr + strtab.value.offset;
    }
    var entry := ReadU64(image[..], ENTRY_OFFSET) + base;
    r := Loaded(image[..], entry, base, symtabSection, symtabNum, strtabSection);
  }

  /** The copy loop over the program headers. */
  method CopySegments(image: array<Byte>, file: seq<Byte>, hs: seq<ProgramHeader>)
    requires CopyFits(image.Length, |file|, hs)
    modifies image
    ensures image[..] == LoadSegments(old(image[..]), file, hs)
  {
    for i := 0 to |hs|
      invariant CopyFits(image.Length, |file|, hs[i..])
      invariant LoadSegments(old(image[..]), file, hs) == LoadSegments(image[..], file, hs[i..])
    {
      assert hs[i..][1..] == hs[i + 1..];
      if hs[i].load {
        CopyBytes(image, file, hs[i]);
      }
    }
    assert hs[|hs|..] == [];
  }

  /** `copy_from_slice` of one segment. */
  method CopyBytes(image: array<Byte>, file: seq<Byte>, h: ProgramHeader)
    requires h.vaddr + h.filesz <= image.Length && h.offset + h.filesz <= |file|
    modifies image
    ensures image[..] == CopySegment(old(image[..]), file, h)
  {
    for k := 0 to h.filesz
      invariant forall p :: 0 <= p < image.Length && !(h.vaddr <= p < h.vaddr + k) ==> image[p] == old(image[p])
      invariant forall p :: h.vaddr <= p < h.vaddr + k ==> image[p] == file[h.offset + p - h.vaddr]
    {
      image[h.vaddr + k] := file[h.offset + k];
    }
    assert image[..] == CopySegment(old(image[..]), file, h);
  }

  // main: the pixel format (lines 211-220)

  /** GOP pixel format 0 is RGB and 1 is BGR; any other value makes `unwrap` panic (None). */
  function PixelFormatOf(n: nat): (r: Option<PixelFormat>)
    ensures r.Some? <==> n <= 1
    ensures r == Some(Rgb) <==> n == 0
    ensures r == Some(Bgr) <==> n == 1
  {
    if n == 0 then Some(Rgb) else if n == 1 then Some(Bgr) else None
  }
}
