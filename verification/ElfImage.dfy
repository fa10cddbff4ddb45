// loader_map_elf of prekernel/shared/src/entry.c: the segments of an ELF file copied into a fresh image.
module ElfImage {
  import opened Arithmetic
  import opened Bytes
  import opened Options
  import opened Rounding

  datatype SegmentType = Load | Dynamic | ProgramHeaders | OtherType

  datatype Phdr = Phdr(ptype: SegmentType, write: bool, exec: bool, offset: nat, paddr: nat, filesz: nat, memsz: nat)

  // The file header, as far as it is looked at: the four tests in order, and the program headers.
  datatype Header = Header(identOk: bool, machineOk: bool, typeOk: bool, phentsizeOk: bool, phdrs: seq<Phdr>)

  // Outside stands for a copy that leaves the allocation.
  datatype Result =
    | BadHeader
    | WriteExec
    | NoMemory
    | Outside
    | Mapped(image: seq<byte>, dynamic: Option<nat>, phdr: Option<nat>)

  predicate HeaderOk(h: Header) {
    h.identOk && h.machineOk && h.typeOk && h.phentsizeOk
  }

  predicate HasWriteExec(phdrs: seq<Phdr>) {
    exists i :: 0 <= i < |phdrs| && phdrs[i].write && phdrs[i].exec
  }

  // The fields are 64-bit words.
  predicate InWords(phdrs: seq<Phdr>) {
    forall i :: 0 <= i < |phdrs| ==> phdrs[i].paddr < WORDS && phdrs[i].memsz < WORDS
  }

  // The end of a memory range as the loader computes it, modulo 2^64
  function RangeEnd(p: Phdr): (r: nat)
    ensures r < WORDS
  {
    (p.paddr + p.memsz) % WORDS
  }

  // The largest end of a loadable segment
  function LastRpa(phdrs: seq<Phdr>): (r: nat)
    ensures r < WORDS
  {
    if phdrs == [] then 0
    else
      var n := |phdrs| - 1;
      var before := LastRpa(phdrs[..n]);
      if phdrs[n].ptype == Load && RangeEnd(phdrs[n]) > before then RangeEnd(phdrs[n]) else before
  }

  // What the allocator is asked for
  function Asked(phdrs: seq<Phdr>): nat {
    NextAligned(LastRpa(phdrs), PAGE)
  }

  // The file bytes of the segments are in the file; the loader does not test it.
  predicate InFile(phdrs: seq<Phdr>, file: seq<byte>) {
    forall i :: 0 <= i < |phdrs| && phdrs[i].ptype == Load ==> phdrs[i].offset + phdrs[i].filesz <= |file|
  }

  // All copies stay inside an allocation of this size.
  predicate WritesInside(phdrs: seq<Phdr>, size: nat) {
    forall i :: 0 <= i < |phdrs| && phdrs[i].ptype == Load ==> Fit(phdrs[i].paddr, phdrs[i].filesz, size)
  }

  predicate SegmentsFit(phdrs: seq<Phdr>, file: seq<byte>, size: nat) {
    forall i :: 0 <= i < |phdrs| && phdrs[i].ptype == Load ==> SegmentFits(phdrs[i], file, size)
  }

  predicate SegmentFits(p: Phdr, file: seq<byte>, size: nat) {
    p.offset + p.filesz <= |file| && Fit(p.paddr, p.filesz, size)
  }

  // As the ELF format has it, the file size is at most the memory size.
  predicate FileWithinMemory(phdrs: seq<Phdr>) {
    forall i :: 0 <= i < |phdrs| && phdrs[i].ptype == Load ==> phdrs[i].filesz <= phdrs[i].memsz
  }

  predicate RangesInside(phdrs: seq<Phdr>, size: nat) {
    forall i :: 0 <= i < |phdrs| && phdrs[i].ptype == Load ==> phdrs[i].paddr + phdrs[i].memsz <= size
  }

  // The end of every memory range can be rounded up to a page below 2^64.
  predicate EndsBelow(phdrs: seq<Phdr>) {
    forall i :: 0 <= i < |phdrs| && phdrs[i].ptype == Load ==> phdrs[i].paddr + phdrs[i].memsz + PAGE - 1 < WORDS
  }

  lemma AskedIs(phdrs: seq<Phdr>)
    ensures Asked(phdrs) == if LastRpa(phdrs) + PAGE - 1 < WORDS then AlignUp(LastRpa(phdrs), PAGE) else 0
    ensures LastRpa(phdrs) + PAGE - 1 < WORDS ==> LastRpa(phdrs) <= Asked(phdrs)
    ensures LastRpa(phdrs) + PAGE - 1 >= WORDS ==> Asked(phdrs) == 0
    ensures Asked(phdrs) < WORDS
  {
    hide LastRpa, NextAligned, PowerOfTwo;
    SmallPowers();
    NextAlignedIs(LastRpa(phdrs), PAGE);
  }

  lemma {:induction false} LastRpaIsAbove(phdrs: seq<Phdr>, i: nat)
    requires i < |phdrs| && phdrs[i].ptype == Load
    ensures RangeEnd(phdrs[i]) <= LastRpa(phdrs)
    decreases |phdrs|
  {
    hide RangeEnd;
    var n := |phdrs| - 1;
    if i < n {
      LastRpaIsAbove(phdrs[..n], i);
    }
  }

  lemma {:induction false} LastRpaIsReached(phdrs: seq<Phdr>) returns (i: nat)
    ensures LastRpa(phdrs) == 0 || (i < |phdrs| && phdrs[i].ptype == Load && RangeEnd(phdrs[i]) == LastRpa(phdrs))
    decreases |phdrs|
  {
    hide RangeEnd;
    i := 0;
    if phdrs != [] {
      var n := |phdrs| - 1;
      i := LastRpaIsReached(phdrs[..n]);
      if phdrs[n].ptype == Load && RangeEnd(phdrs[n]) == LastRpa(phdrs) {
        i := n;
      }
    }
  }

  // What is asked for is the least number of whole pages that holds every end, taken modulo 2^64, or
  // nothing if there is none below 2^64.
  lemma AskedIsLeast(phdrs: seq<Phdr>, size: nat)
    requires size < WORDS && size % PAGE == 0
    ensures (forall i :: 0 <= i < |phdrs| && phdrs[i].ptype == Load ==>
               (phdrs[i].paddr + phdrs[i].memsz) % WORDS <= size) ==>
      Asked(phdrs) <= size
    ensures Asked(phdrs) > 0 ==>
      forall i :: 0 <= i < |phdrs| && phdrs[i].ptype == Load ==>
        (phdrs[i].paddr + phdrs[i].memsz) % WORDS <= Asked(phdrs)
  {
    hide LastRpa, Asked, AlignUp;
    AskedIs(phdrs);
    AlignUpIsNext(LastRpa(phdrs), PAGE);
    assert Aligned(size, PAGE);
    var top := LastRpaIsReached(phdrs);
    forall i | 0 <= i < |phdrs| && phdrs[i].ptype == Load
      ensures RangeEnd(phdrs[i]) <= LastRpa(phdrs)
    {
      LastRpaIsAbove(phdrs, i);
    }
  }

  lemma RangeEndIs(p: Phdr)
    requires p.paddr < WORDS && p.memsz < WORDS
    ensures RangeEnd(p) == if p.paddr + p.memsz < WORDS then p.paddr + p.memsz else p.paddr + p.memsz - WORDS
  {
  }

  // The allocation holds the memory ranges of all segments if and only if none of them ends so close
  // to 2^64, or beyond it, that its rounded end wraps around.
  lemma RangesInsideIff(phdrs: seq<Phdr>)
    requires InWords(phdrs)
    ensures RangesInside(phdrs, Asked(phdrs)) <==> EndsBelow(phdrs)
  {
    hide LastRpa, Asked, RangeEnd;
    AskedIs(phdrs);
    var top := LastRpaIsReached(phdrs);
    if LastRpa(phdrs) > 0 {
      RangeEndIs(phdrs[top]);
    }
    forall i | 0 <= i < |phdrs| && phdrs[i].ptype == Load
      ensures EndsBelow(phdrs) ==> phdrs[i].paddr + phdrs[i].memsz <= Asked(phdrs)
      ensures phdrs[i].paddr + phdrs[i].memsz <= Asked(phdrs) ==> phdrs[i].paddr + phdrs[i].memsz + PAGE - 1 < WORDS
    {
      LastRpaIsAbove(phdrs, i);
      RangeEndIs(phdrs[i]);
      AskedRoom(phdrs);
    }
  }

  // A rounded end leaves room for less than a page more.
  lemma AskedRoom(phdrs: seq<Phdr>)
    ensures Asked(phdrs) + PAGE <= WORDS
  {
    hide LastRpa, PowerOfTwo, And;
    SmallPowers();
    WordsIsPower();
    NextAlignedIs(LastRpa(phdrs), PAGE);
    AlignUpIsNext(LastRpa(phdrs), PAGE);
  }

  // A segment's copy stays inside if and only if the largest end can be rounded up and, when the
  // segment's own range wraps around, what is copied happens to fit. Other segments need no test.
  predicate CopyFits(phdrs: seq<Phdr>, p: Phdr) {
    && LastRpa(phdrs) + PAGE - 1 < WORDS
    && (p.paddr + p.memsz >= WORDS ==> p.paddr + p.filesz <= Asked(phdrs))
  }

  lemma WritesInsideIff(phdrs: seq<Phdr>)
    requires InWords(phdrs) && FileWithinMemory(phdrs)
    ensures WritesInside(phdrs, Asked(phdrs)) <==>
      forall i :: 0 <= i < |phdrs| && phdrs[i].ptype == Load && phdrs[i].filesz > 0 ==> CopyFits(phdrs, phdrs[i])
  {
    hide LastRpa, Asked, RangeEnd;
    AskedIs(phdrs);
    forall i | 0 <= i < |phdrs| && phdrs[i].ptype == Load && phdrs[i].filesz > 0
      ensures Fit(phdrs[i].paddr, phdrs[i].filesz, Asked(phdrs)) <==> CopyFits(phdrs, phdrs[i])
    {
      LastRpaIsAbove(phdrs, i);
      RangeEndIs(phdrs[i]);
    }
  }

  lemma EndsBelowIsEnough(phdrs: seq<Phdr>)
    requires InWords(phdrs) && FileWithinMemory(phdrs) && EndsBelow(phdrs)
    ensures WritesInside(phdrs, Asked(phdrs))
  {
    RangesInsideIff(phdrs);
  }

  // One page at the very end of the address space: nothing is asked for, and a page is written.
  lemma LastPageOutside() returns (phdrs: seq<Phdr>)
    ensures InWords(phdrs) && FileWithinMemory(phdrs) && DisjointMemory(phdrs)
    ensures Asked(phdrs) == 0 && !WritesInside(phdrs, Asked(phdrs))
  {
    var p := Phdr(Load, true, false, 0, WORDS - PAGE, PAGE, PAGE);
    phdrs := [p];
    assert phdrs[..0] == [];
    assert RangeEnd(p) == 0;
    assert LastRpa(phdrs) == 0;
    var zero := 0;
    SmallPowers();
    NextAlignedIs(zero, PAGE);
    AlignUpIsNext(zero, PAGE);
    assert Aligned(zero, PAGE);
    assert phdrs[0] == p && !Fit(p.paddr, p.filesz, 0);
  }

  // Segment p puts file bytes at byte x of the image.
  predicate Writes(p: Phdr, x: nat) {
    p.ptype == Load && p.paddr <= x < p.paddr + p.filesz
  }

  // The file byte that segment p puts at x
  function FileByte(p: Phdr, file: seq<byte>, x: nat): byte
    requires Writes(p, x) && p.offset + p.filesz <= |file|
  {
    file[p.offset + x - p.paddr]
  }

  function LastOf(phdrs: seq<Phdr>, t: SegmentType): Option<nat> {
    if phdrs == [] then None
    else
      var n := |phdrs| - 1;
      if phdrs[n].ptype == t then Some(phdrs[n].paddr) else LastOf(phdrs[..n], t)
  }

  // r is the address in the last header of this type, if there is one.
  predicate InLast(phdrs: seq<Phdr>, t: SegmentType, r: Option<nat>) {
    if r == None then forall i :: 0 <= i < |phdrs| ==> phdrs[i].ptype != t
    else exists i :: 0 <= i < |phdrs| && phdrs[i].ptype == t && r == Some(phdrs[i].paddr)
                     && forall j :: i < j < |phdrs| ==> phdrs[j].ptype != t
  }

  lemma {:induction false} LastOfIs(phdrs: seq<Phdr>, t: SegmentType)
    ensures InLast(phdrs, t, LastOf(phdrs, t))
    decreases |phdrs|
  {
    if phdrs != [] {
      var n := |phdrs| - 1;
      if phdrs[n].ptype != t {
        LastOfIs(phdrs[..n], t);
        assert forall i :: 0 <= i < n ==> phdrs[..n][i] == phdrs[i];
      }
    }
  }

  // Copying one segment into the image
  function Copied(p: Phdr, file: seq<byte>, image: seq<byte>): (r: seq<byte>)
    requires p.ptype == Load ==> SegmentFits(p, file, |image|)
    ensures |r| == |image|
    ensures forall x: nat :: x < |image| ==> r[x] == if Writes(p, x) then FileByte(p, file, x) else image[x]
  {
    if p.ptype == Load then Splice(image, p.paddr, file[p.offset..p.offset + p.filesz]) else image
  }

  // Copying all of them, in order
  function Loaded(phdrs: seq<Phdr>, file: seq<byte>, image: seq<byte>): (r: seq<byte>)
    requires SegmentsFit(phdrs, file, |image|)
    ensures |r| == |image|
    decreases |phdrs|
  {
    if phdrs == [] then image
    else
      var n := |phdrs| - 1;
      assert forall i :: 0 <= i < n ==> phdrs[..n][i] == phdrs[i];
      Copied(phdrs[n], file, Loaded(phdrs[..n], file, image))
  }

  // The last segment that writes a byte decides what it holds.
  lemma {:induction false} LastWriterWins(phdrs: seq<Phdr>, file: seq<byte>, image: seq<byte>, i: nat, x: nat)
    requires SegmentsFit(phdrs, file, |image|) && i < |phdrs| && x < |image|
    requires Writes(phdrs[i], x) && forall j :: i < j < |phdrs| ==> !Writes(phdrs[j], x)
    ensures Loaded(phdrs, file, image)[x] == FileByte(phdrs[i], file, x)
    decreases |phdrs|
  {
    hide Copied;
    var n := |phdrs| - 1;
    assert forall j :: 0 <= j < n ==> phdrs[..n][j] == phdrs[j];
    if i < n {
      LastWriterWins(phdrs[..n], file, image, i, x);
    }
  }

  lemma {:induction false} UnwrittenKept(phdrs: seq<Phdr>, file: seq<byte>, image: seq<byte>, x: nat)
    requires SegmentsFit(phdrs, file, |image|) && x < |image|
    requires forall j :: 0 <= j < |phdrs| ==> !Writes(phdrs[j], x)
    ensures Loaded(phdrs, file, image)[x] == image[x]
    decreases |phdrs|
  {
    hide Copied;
    if phdrs != [] {
      var n := |phdrs| - 1;
      assert forall j :: 0 <= j < n ==> phdrs[..n][j] == phdrs[j];
      UnwrittenKept(phdrs[..n], file, image, x);
    }
  }

  // Every loadable segment's file bytes are at its physical address, all at the same time.
  ghost predicate AllInPlace(phdrs: seq<Phdr>, file: seq<byte>, image: seq<byte>)
    requires SegmentsFit(phdrs, file, |image|)
  {
    forall i: nat, x: nat :: i < |phdrs| && Writes(phdrs[i], x) ==> image[x] == FileByte(phdrs[i], file, x)
  }

  // Where two segments write the same byte, they write the same value.
  ghost predicate Agree(phdrs: seq<Phdr>, file: seq<byte>, size: nat)
    requires SegmentsFit(phdrs, file, size)
  {
    forall i: nat, j: nat, x: nat :: i < |phdrs| && j < |phdrs| && Writes(phdrs[i], x) && Writes(phdrs[j], x) ==>
      FileByte(phdrs[i], file, x) == FileByte(phdrs[j], file, x)
  }

  ghost predicate DisjointMemory(phdrs: seq<Phdr>) {
    forall i, j :: 0 <= i < j < |phdrs| && phdrs[i].ptype == Load && phdrs[j].ptype == Load ==>
      phdrs[i].paddr + phdrs[i].memsz <= phdrs[j].paddr || phdrs[j].paddr + phdrs[j].memsz <= phdrs[i].paddr
  }

  lemma LastWriter(phdrs: seq<Phdr>, i: nat, x: nat) returns (j: nat)
    requires i < |phdrs| && Writes(phdrs[i], x)
    ensures i <= j < |phdrs| && Writes(phdrs[j], x) && forall k :: j < k < |phdrs| ==> !Writes(phdrs[k], x)
    decreases |phdrs| - i
  {
    if k :| i < k < |phdrs| && Writes(phdrs[k], x) {
      j := LastWriter(phdrs, k, x);
    } else {
      j := i;
    }
  }

  // The loaded image holds all segments exactly when overlapping segments agree.
  lemma AllInPlaceIff(phdrs: seq<Phdr>, file: seq<byte>, image: seq<byte>)
    requires SegmentsFit(phdrs, file, |image|)
    ensures AllInPlace(phdrs, file, Loaded(phdrs, file, image)) <==> Agree(phdrs, file, |image|)
  {
    hide Loaded, FileByte;
    var r := Loaded(phdrs, file, image);
    if Agree(phdrs, file, |image|) {
      forall i: nat, x: nat | i < |phdrs| && Writes(phdrs[i], x)
        ensures r[x] == FileByte(phdrs[i], file, x)
      {
        var j := LastWriter(phdrs, i, x);
        LastWriterWins(phdrs, file, image, j, x);
      }
    }
    if AllInPlace(phdrs, file, r) {
      forall i: nat, j: nat, x: nat | i < |phdrs| && j < |phdrs| && Writes(phdrs[i], x) && Writes(phdrs[j], x)
        ensures FileByte(phdrs[i], file, x) == FileByte(phdrs[j], file, x)
      {
        assert r[x] == FileByte(phdrs[i], file, x);
      }
    }
  }

  lemma DisjointInPlace(phdrs: seq<Phdr>, file: seq<byte>, image: seq<byte>)
    requires SegmentsFit(phdrs, file, |image|) && FileWithinMemory(phdrs) && DisjointMemory(phdrs)
    ensures AllInPlace(phdrs, file, Loaded(phdrs, file, image))
    ensures forall x: nat :: x < |image| && (forall j :: 0 <= j < |phdrs| ==> !Writes(phdrs[j], x)) ==>
      Loaded(phdrs, file, image)[x] == image[x]
  {
    hide Loaded;
    assert Agree(phdrs, file, |image|) by {
      forall i: nat, j: nat, x: nat | i < |phdrs| && j < |phdrs| && Writes(phdrs[i], x) && Writes(phdrs[j], x)
        ensures i == j
      {
        assert phdrs[i].filesz <= phdrs[i].memsz && phdrs[j].filesz <= phdrs[j].memsz;
      }
    }
    AllInPlaceIff(phdrs, file, image);
    forall x: nat | x < |image| && forall j :: 0 <= j < |phdrs| ==> !Writes(phdrs[j], x)
      ensures Loaded(phdrs, file, image)[x] == image[x]
    {
      UnwrittenKept(phdrs, file, image, x);
    }
  }

  // The first loop: the size of the image, unless a segment is both writable and executable. Nothing
  // has been allocated when one is found.
  method Scan(phdrs: seq<Phdr>) returns (ok: bool, lastRpa: nat, dynamic: Option<nat>, phdr: Option<nat>)
    ensures ok <==> !HasWriteExec(phdrs)
    ensures ok ==> lastRpa == LastRpa(phdrs)
    ensures ok ==> dynamic == LastOf(phdrs, Dynamic) && phdr == LastOf(phdrs, ProgramHeaders)
  {
    hide RangeEnd;
    lastRpa, dynamic, phdr := 0, None, None;
    var i := 0;
    while i < |phdrs|
      invariant 0 <= i <= |phdrs|
      invariant forall j :: 0 <= j < i ==> !(phdrs[j].write && phdrs[j].exec)
      invariant lastRpa == LastRpa(phdrs[..i])
      invariant dynamic == LastOf(phdrs[..i], Dynamic) && phdr == LastOf(phdrs[..i], ProgramHeaders)
    {
      var pos := phdrs[i];
      assert phdrs[..i + 1][..i] == phdrs[..i];
      if pos.write && pos.exec {
        return false, 0, None, None;
      }
      if pos.ptype == ProgramHeaders {
        phdr := Some(pos.paddr);
      } else if pos.ptype == Dynamic {
        dynamic := Some(pos.paddr);
      }
      if pos.ptype == Load && RangeEnd(pos) > lastRpa {
        lastRpa := RangeEnd(pos);
      }
      i := i + 1;
    }
    assert phdrs[..i] == phdrs;
    return true, lastRpa, dynamic, phdr;
  }

  // The second loop. `root` is what the allocation holds before. Splice and the slice of the file need
  // their ranges to be inside, so every write up to the first that is not is inside the allocation.
  method CopySegments(phdrs: seq<Phdr>, file: seq<byte>, root: seq<byte>) returns (inside: bool, image: seq<byte>)
    requires InFile(phdrs, file)
    ensures inside <==> WritesInside(phdrs, |root|)
    ensures inside ==> SegmentsFit(phdrs, file, |root|) && image == Loaded(phdrs, file, root)
  {
    hide Splice;
    image := root;
    var i := 0;
    while i < |phdrs|
      invariant 0 <= i <= |phdrs|
      invariant forall j :: 0 <= j < i && phdrs[j].ptype == Load ==> Fit(phdrs[j].paddr, phdrs[j].filesz, |root|)
      invariant SegmentsFit(phdrs[..i], file, |root|)
      invariant image == Loaded(phdrs[..i], file, root)
    {
      var pos := phdrs[i];
      assert phdrs[..i + 1][..i] == phdrs[..i];
      if pos.ptype == Load {
        if !Fit(pos.paddr, pos.filesz, |image|) {
          return false, [];
        }
        image := Splice(image, pos.paddr, file[pos.offset..pos.offset + pos.filesz]);
      }
      i := i + 1;
    }
    assert phdrs[..i] == phdrs;
    return true, image;
  }

  // The whole of it. `root` is what the allocator gives, if it gives anything, and `asked` what it was
  // asked for, if it was asked at all.
  method MapElf(h: Header, file: seq<byte>, root: Option<seq<byte>>) returns (r: Result, asked: Option<nat>)
    requires InWords(h.phdrs) && InFile(h.phdrs, file)
    requires root.Some? ==> |root.value| == Asked(h.phdrs)
    ensures r == BadHeader <==> !(h.identOk && h.machineOk && h.typeOk && h.phentsizeOk)
    ensures r == WriteExec <==> r != BadHeader && exists i :: 0 <= i < |h.phdrs| && h.phdrs[i].write && h.phdrs[i].exec
    ensures asked == if HeaderOk(h) && !HasWriteExec(h.phdrs) then Some(Asked(h.phdrs)) else None
    ensures r == NoMemory <==> asked.Some? && root.None?
    ensures r == Outside <==> asked.Some? && root.Some? && !WritesInside(h.phdrs, Asked(h.phdrs))
    ensures r.Mapped? ==>
      && SegmentsFit(h.phdrs, file, |root.value|)
      && r.image == Loaded(h.phdrs, file, root.value)
      && InLast(h.phdrs, Dynamic, r.dynamic) && InLast(h.phdrs, ProgramHeaders, r.phdr)
    ensures r.Mapped? && FileWithinMemory(h.phdrs) && DisjointMemory(h.phdrs) ==> AllInPlace(h.phdrs, file, r.image)
    ensures FileWithinMemory(h.phdrs) && EndsBelow(h.phdrs) ==> r != Outside
  {
    hide LastRpa, LastOf, InLast, Loaded, AllInPlace, DisjointMemory, FileWithinMemory, EndsBelow,
      InWords, WritesInside, SegmentsFit, NextAligned;
    asked := None;
    if !(h.identOk && h.machineOk && h.typeOk && h.phentsizeOk) {
      return BadHeader, asked;
    }
    LastOfIs(h.phdrs, Dynamic);
    LastOfIs(h.phdrs, ProgramHeaders);
    var ok, lastRpa, dynamic, phdr := Scan(h.phdrs);
    if !ok {
      return WriteExec, asked;
    }
    asked := Some(NextAligned(lastRpa, PAGE));
    if root.None? {
      return NoMemory, asked;
    }
    if FileWithinMemory(h.phdrs) && EndsBelow(h.phdrs) {
      EndsBelowIsEnough(h.phdrs);
    }
    var inside, image := CopySegments(h.phdrs, file, root.value);
    if !inside {
      return Outside, asked;
    }
    if FileWithinMemory(h.phdrs) && DisjointMemory(h.phdrs) {
      DisjointInPlace(h.phdrs, file, root.value);
    }
    return Mapped(image, dynamic, phdr), asked;
  }
}
