// The memory map on its way from the boot loader to the kernel: find_and_init_alloc and the split at
// the end of pkmain (prekernel/limine/src/main.c), the adjustment in call_kmain
// (prekernel/shared/src/entry.c), and init_heap (kernel/src/common/memory.c).
module BootMap {
  import opened Arithmetic
  import opened Bump
  import opened Bytes
  import opened Options
  import opened Rounding

  const USABLE := 0
  const PREKERNEL_RESERVED := 9
  // What call_kmain sets aside for the kernel image
  const HACK := 0x100_0000

  datatype Region = Region(base: nat, length: nat, kind: nat)

  function RegionEnd(r: Region): nat {
    r.base + r.length
  }

  predicate InRegion(r: Region, x: nat) {
    r.base <= x < RegionEnd(r)
  }

  predicate DisjointRegions(a: Region, b: Region) {
    RegionEnd(a) <= b.base || RegionEnd(b) <= a.base
  }

  // Physical addresses have 52 bits.
  const PHYSICAL := 0x10_0000_0000_0000

  // A map of the physical address space
  predicate WellFormed(m: seq<Region>) {
    && (forall i :: 0 <= i < |m| ==> RegionEnd(m[i]) <= PHYSICAL)
    && (forall i, j :: 0 <= i < j < |m| ==> DisjointRegions(m[i], m[j]))
  }

  predicate DistinctBases(m: seq<Region>) {
    forall i, j :: 0 <= i < j < |m| ==> m[i].base != m[j].base
  }

  ghost predicate CoveredAs(m: seq<Region>, x: nat, kind: nat) {
    exists i :: 0 <= i < |m| && m[i].kind == kind && InRegion(m[i], x)
  }

  // The loop of find_and_init_alloc and of init_heap: the first of the largest usable regions. A size
  // of 0 makes both of them halt.
  method LargestUsable(m: seq<Region>) returns (addr: nat, size: nat)
    ensures size > 0 <==> HasUsable(m)
    ensures size > 0 ==> exists k :: 0 <= k < |m| && FirstLargest(m, k) && addr == m[k].base && size == m[k].length
  {
    addr, size := 0, 0;
    ghost var k := 0;
    var i := 0;
    while i < |m|
      invariant 0 <= i <= |m|
      invariant forall j :: 0 <= j < i && m[j].kind == USABLE ==> m[j].length <= size
      invariant size > 0 ==> 0 <= k < i && m[k].kind == USABLE && addr == m[k].base && size == m[k].length
      invariant size > 0 ==> forall j :: 0 <= j < k && m[j].kind == USABLE ==> m[j].length < size
    {
      if m[i].kind == USABLE {
        if m[i].length > size {
          addr, size, k := m[i].base, m[i].length, i;
        }
      }
      i := i + 1;
    }
    assert size > 0 ==> FirstLargest(m, k);
  }

  predicate HasUsable(m: seq<Region>) {
    exists i :: 0 <= i < |m| && m[i].kind == USABLE && m[i].length > 0
  }

  predicate FirstLargest(m: seq<Region>, k: nat) {
    && k < |m| && m[k].kind == USABLE && m[k].length > 0
    && (forall j :: 0 <= j < |m| && m[j].kind == USABLE ==> m[j].length <= m[k].length)
    && (forall j :: 0 <= j < k && m[j].kind == USABLE ==> m[j].length < m[k].length)
  }

  // Region k replaced by a reserved part of this size and the usable rest. Its 64-bit length wraps
  // around when more was taken than there was.
  function Split(m: seq<Region>, k: nat, size: nat): seq<Region>
    requires k < |m|
  {
    m[..k]
      + [Region(m[k].base, size, PREKERNEL_RESERVED), Region(m[k].base + size, (m[k].length - size) % WORDS, USABLE)]
      + m[k + 1..]
  }

  // The loop at the end of pkmain, which fills the map handed to the kernel. From the match on, the
  // entries move up by one.
  method SplitMap(m: seq<Region>, start: nat, posAligned: nat, ghost k: nat) returns (entries: array<Region>)
    requires k < |m| && m[k].base == start && DistinctBases(m)
    requires start <= posAligned
    ensures fresh(entries) && entries[..] == Split(m, k, posAligned - start)
  {
    entries := new Region[|m| + 1](_ => Region(0, 0, 0));
    var allocSize := posAligned - start;
    var extra := 0;
    ghost var out := Split(m, k, allocSize);
    var i := 0;
    while i < |m|
      invariant 0 <= i <= |m|
      invariant extra == if i > k then 1 else 0
      invariant forall j :: 0 <= j < i + extra ==> entries[j] == out[j]
    {
      if m[i].base == start {
        assert i == k;
        entries[i] := Region(m[i].base, allocSize, PREKERNEL_RESERVED);
        entries[i + 1] := Region(posAligned, (m[i].length - allocSize) % WORDS, USABLE);
        extra := 1;
      } else {
        entries[i + extra] := m[i];
      }
      i := i + 1;
    }
    assert entries[..] == out;
  }

  // The loop of call_kmain, with the wrap-around of its 64-bit lengths.
  method Adjust(entries: array<Region>, ghost k: nat)
    requires k + 1 < entries.Length && entries[k].kind == PREKERNEL_RESERVED
    requires forall j :: 0 <= j < entries.Length && j != k ==> entries[j].kind != PREKERNEL_RESERVED
    modifies entries
    ensures entries[..] == Adjusted(old(entries[..]), k)
  {
    var i := 0;
    while i < entries.Length
      invariant 0 <= i <= k
      invariant entries[..] == old(entries[..])
    {
      if entries[i].kind == PREKERNEL_RESERVED {
        entries[i] := entries[i].(length := (entries[i].length + HACK) % WORDS);
        entries[i + 1] := entries[i + 1].(base := (entries[i + 1].base + HACK) % WORDS);
        entries[i + 1] := entries[i + 1].(length := (entries[i + 1].length - HACK) % WORDS);
        break;
      }
      i := i + 1;
    }
  }

  function Adjusted(m: seq<Region>, k: nat): seq<Region>
    requires k + 1 < |m|
  {
    m[k := m[k].(length := (m[k].length + HACK) % WORDS)]
     [k + 1 := m[k + 1].(base := (m[k + 1].base + HACK) % WORDS, length := (m[k + 1].length - HACK) % WORDS)]
  }

  // The map that the kernel gets.
  function KernelMap(m: seq<Region>, k: nat, size: nat): seq<Region>
    requires k < |m|
  {
    Adjusted(Split(m, k, size), k)
  }

  // With enough room in the region chosen, the two steps together are one larger split.
  lemma KernelMapMoves(m: seq<Region>, k: nat, size: nat)
    requires WellFormed(m) && k < |m| && size + HACK <= m[k].length
    ensures KernelMap(m, k, size) == Split(m, k, size + HACK)
  {
    assert RegionEnd(m[k]) <= PHYSICAL;
  }

  predicate NoReserved(m: seq<Region>) {
    forall i :: 0 <= i < |m| ==> m[i].kind != PREKERNEL_RESERVED
  }

  // Where the regions of the new map come from.
  lemma SplitAt(m: seq<Region>, k: nat, taken: nat, i: nat)
    requires WellFormed(m) && k < |m| && taken <= m[k].length && i <= |m|
    ensures Split(m, k, taken)[i] ==
      if i < k then m[i]
      else if i == k then Region(m[k].base, taken, PREKERNEL_RESERVED)
      else if i == k + 1 then Region(m[k].base + taken, m[k].length - taken, USABLE)
      else m[i - 1]
  {
    assert RegionEnd(m[k]) <= PHYSICAL;
  }

  lemma SplitWellFormed(m: seq<Region>, k: nat, taken: nat)
    requires WellFormed(m) && k < |m| && taken <= m[k].length
    ensures WellFormed(Split(m, k, taken))
  {
    hide Split;
    var n := Split(m, k, taken);
    LengthOfSplit(m, k, taken);
    forall i | 0 <= i < |n|
      ensures RegionEnd(n[i]) <= PHYSICAL
    {
      SplitAt(m, k, taken, i);
      assert RegionEnd(m[k]) <= PHYSICAL;
    }
    forall i, j | 0 <= i < j < |n|
      ensures DisjointRegions(n[i], n[j])
    {
      SplitAt(m, k, taken, i);
      SplitAt(m, k, taken, j);
      var i', j' := if i <= k then i else i - 1, if j <= k then j else j - 1;
      assert i' < j' ==> DisjointRegions(m[i'], m[j']);
    }
  }

  lemma LengthOfSplit(m: seq<Region>, k: nat, taken: nat)
    requires k < |m|
    ensures |Split(m, k, taken)| == |m| + 1
  {
  }

  // The map that the kernel gets describes the address space if, and only if, the chosen region had
  // room for what the pre-kernel took, even if it took more than the region, and for the 16 MiB more.
  lemma KernelMapWellFormedIff(m: seq<Region>, k: nat, size: nat)
    requires WellFormed(m) && k < |m| && m[k].base + size + HACK < WORDS
    ensures WellFormed(KernelMap(m, k, size)) <==> size + HACK <= m[k].length
  {
    if size + HACK <= m[k].length {
      KernelMapMoves(m, k, size);
      SplitWellFormed(m, k, size + HACK);
    } else {
      assert RegionEnd(m[k]) <= PHYSICAL;
      var n := KernelMap(m, k, size);
      RestWraps(m[k].length, size);
      assert n[k + 1].length == m[k].length - size - HACK + WORDS;
      hide KernelMap;
      assert RegionEnd(n[k + 1]) > PHYSICAL;
    }
  }

  lemma RestWraps(length: nat, size: nat)
    requires length < size + HACK < WORDS
    ensures ((length - size) % WORDS - HACK) % WORDS == length - size - HACK + WORDS
  {
  }

  // Conservation: nothing but the bytes taken changes its kind.
  lemma SplitCovers(m: seq<Region>, k: nat, taken: nat, x: nat, kind: nat)
    requires WellFormed(m) && NoReserved(m) && k < |m| && m[k].kind == USABLE && taken <= m[k].length
    ensures CoveredAs(Split(m, k, taken), x, kind) <==>
      if m[k].base <= x < m[k].base + taken then kind == PREKERNEL_RESERVED else CoveredAs(m, x, kind)
  {
    hide Split;
    var n := Split(m, k, taken);
    LengthOfSplit(m, k, taken);
    SplitAt(m, k, taken, k);
    SplitAt(m, k, taken, k + 1);
    if CoveredAs(n, x, kind) {
      var i :| 0 <= i < |n| && n[i].kind == kind && InRegion(n[i], x);
      SplitAt(m, k, taken, i);
      var i' := if i <= k then i else i - 1;
      assert InRegion(m[i'], x);
      assert i' != k ==> DisjointRegions(m[if i' < k then i' else k], m[if i' < k then k else i']);
    }
    if CoveredAs(m, x, kind) {
      var i :| 0 <= i < |m| && m[i].kind == kind && InRegion(m[i], x);
      SplitAt(m, k, taken, if i < k then i else i + 1);
      assert i != k ==> DisjointRegions(m[if i < k then i else k], m[if i < k then k else i]);
    }
  }

  // --- From the boot loader to the kernel heap -----------------------------------------------------

  // The direct map is aligned to pages, so that both cursors are rounded alike.
  lemma AlignUpShifts(x: nat, hhdm: nat)
    requires hhdm % PAGE == 0
    ensures AlignUp(x + hhdm, PAGE) == AlignUp(x, PAGE) + hhdm
  {
    var h := hhdm / PAGE;
    assert hhdm == h * PAGE;
    assert (x + h * 0x1000 + 0xFFF) / 0x1000 == (x + 0xFFF) / 0x1000 + h;
  }

  // The region chosen holds what the pre-kernel allocates, up to a page boundary, and 16 MiB more.
  ghost predicate Room(m: seq<Region>, hhdm: nat, rs: seq<Request>)
    requires GoodRequests(rs)
  {
    forall k: nat :: FirstLargest(m, k) ==>
      AlignUp(Cursor(m[k].base + hhdm, rs) - hhdm, PAGE) + HACK <= RegionEnd(m[k])
  }

  // The direct map of all usable regions ends below 2^64, with room to spare. Where a region that is not
  // usable would be mapped does not matter.
  predicate InDirectMap(m: seq<Region>, hhdm: nat, room: nat) {
    forall i :: 0 <= i < |m| && m[i].kind == USABLE ==> RegionEnd(m[i]) + hhdm + room <= WORDS
  }

  ghost predicate AllApart(blocks: seq<Block>) {
    forall i, j :: 0 <= i < j < |blocks| ==> Apart(blocks[i], blocks[j])
  }

  // Blocks below a boundary, and blocks of which no byte lies in [lo, hi).
  lemma ApartFrom(a: seq<Block>, b: seq<Block>, lo: nat, hi: nat)
    requires Ordered(a) && Within(a, lo, hi)
    requires Ordered(b) && forall j: nat, x: nat :: j < |b| && Has(b[j], x) ==> !(lo <= x < hi)
    ensures AllApart(a + b)
  {
    forall i, j | 0 <= i < j < |a + b|
      ensures Apart((a + b)[i], (a + b)[j])
    {
      if j < |a| {
        OrderedApart(a, i, j);
      } else if |a| <= i {
        OrderedApart(b, i - |a|, j - |a|);
      } else {
        assert a[i] in a;
      }
    }
  }

  // No byte of a usable region of the kernel's map was taken, and each was usable in the first map.
  lemma UsableIsFree(m: seq<Region>, k: nat, size: nat, n: nat, x: nat)
    requires WellFormed(m) && NoReserved(m) && k < |m| && m[k].kind == USABLE && size + HACK <= m[k].length
    requires var km := KernelMap(m, k, size); n < |km| && km[n].kind == USABLE && InRegion(km[n], x)
    ensures !(m[k].base <= x < m[k].base + size + HACK) && CoveredAs(m, x, USABLE)
  {
    KernelMapMoves(m, k, size);
    SplitCovers(m, k, size + HACK, x, USABLE);
  }

  // pkmain and call_kmain: pick a region, allocate (rs), split the map, allocate the image, adjust. They
  // halt without usable memory, without a kernel module, and for a kernel file that is not accepted.
  method PreKernelPhase(m: seq<Region>, hhdm: nat, kernelFound: bool, rs: seq<Request>, accepted: bool, lastRpa: nat)
    returns (ok: bool, pre: seq<Block>, image: Block, map': seq<Region>, ghost k: nat, ghost taken: nat)
    requires WellFormed(m) && DistinctBases(m) && NoReserved(m) && InDirectMap(m, hhdm, 1)
    requires hhdm % PAGE == 0 && GoodRequests(rs) && Room(m, hhdm, rs) && lastRpa <= HACK
    ensures ok <==> HasUsable(m) && kernelFound && accepted
    ensures ok ==> k < |m| && FirstLargest(m, k) && taken + HACK <= m[k].length && map' == KernelMap(m, k, taken)
    ensures ok ==> m[k].base + taken == AlignUp(Cursor(m[k].base + hhdm, rs) - hhdm, PAGE)
    ensures ok ==> image.size == AlignUp(lastRpa, PAGE) && Aligned(image.start, PAGE)
    ensures ok ==> |pre| == |rs| && Ordered(pre + [image])
    ensures ok ==> Within(pre + [image], m[k].base + hhdm, m[k].base + hhdm + taken + HACK)
    ensures ok ==> forall i :: 0 <= i < |rs| ==> Fulfils(pre[i], rs[i])
  {
    hide DistinctBases, NoReserved, AlignUp, PowerOfTwo, Cursor, KernelMap, Aligned, Room, Ordered, Within, Fulfils,
      Laid, NextAligned, GoodRequests, WellFormed, InDirectMap;
    SmallPowers();
    ok, pre, image, map', k, taken := false, [], Block(0, 0), [], 0, 0;
    var addr, size := LargestUsable(m);
    if size == 0 || !kernelFound {
      return;
    }
    k :| 0 <= k < |m| && FirstLargest(m, k) && addr == m[k].base && size == m[k].length;
    RoomHere(m, hhdm, rs, k);
    var pk := new PreKernel(addr, addr + hhdm);
    pre := pk.Run(rs);
    LaidApart(addr + hhdm, rs);
    hide FirstLargest;
    NextAlignedIs(pk.physical, PAGE);
    var posAligned := NextAligned(pk.physical, PAGE);
    taken := posAligned - addr;
    AlignUpShifts(pk.physical, hhdm);
    AlignUpIsNext(pk.virtual, PAGE);
    map' := MapForKernel(m, addr, posAligned, k);
    if !accepted {
      return;
    }
    ghost var pos := pk.virtual;
    image := AllocImage(pk, lastRpa);
    ImageFollows(pre, addr + hhdm, pos, image, lastRpa, hhdm + addr + taken + HACK);
    ok := true;
  }

  // The allocation in loader_map_elf
  method AllocImage(pk: PreKernel, lastRpa: nat) returns (image: Block)
    requires pk.Valid() && AlignUp(pk.virtual, PAGE) + HACK < WORDS && lastRpa <= HACK
    modifies pk
    ensures image == Block(AlignUp(old(pk.virtual), PAGE), AlignUp(lastRpa, PAGE))
  {
    SmallPowers();
    NextAlignedIs(lastRpa, PAGE);
    ImageSize(lastRpa);
    hide NextAligned, PowerOfTwo, AlignUp;
    var imageSize := NextAligned(lastRpa, PAGE);
    var root := pk.AlignedAlloc(PAGE, imageSize);
    image := Block(root, imageSize);
  }

  lemma ImageSize(lastRpa: nat)
    requires lastRpa <= HACK
    ensures lastRpa <= AlignUp(lastRpa, PAGE) <= HACK
  {
  }

  lemma RoomHere(m: seq<Region>, hhdm: nat, rs: seq<Request>, k: nat)
    requires InDirectMap(m, hhdm, 1)
    requires GoodRequests(rs) && Room(m, hhdm, rs) && FirstLargest(m, k)
    ensures var end := Cursor(m[k].base + hhdm, rs);
      && m[k].base + hhdm <= end < WORDS && RegionEnd(m[k]) + hhdm < WORDS
      && end - hhdm <= AlignUp(end - hhdm, PAGE) && AlignUp(end - hhdm, PAGE) + HACK <= RegionEnd(m[k])
  {
  }

  // The two loops over the map. The image is allocated between them, which they do not see.
  method MapForKernel(m: seq<Region>, start: nat, posAligned: nat, ghost k: nat) returns (map': seq<Region>)
    requires k < |m| && m[k].base == start && DistinctBases(m) && NoReserved(m)
    requires start <= posAligned
    ensures map' == KernelMap(m, k, posAligned - start)
  {
    hide DistinctBases, NoReserved, Split, Adjusted;
    var entries := SplitMap(m, start, posAligned, k);
    SplitKinds(m, k, posAligned - start);
    Adjust(entries, k);
    map' := entries[..];
  }

  // The heap is region n of the map, the first of the largest usable ones, and it serves the calls.
  ghost predicate HeapServes(km: seq<Region>, n: nat, hhdm: nat, calls: seq<Call>, results: seq<Option<Block>>,
                             cursors: seq<nat>)
  {
    FirstLargest(km, n) && InTurn(calls, results, cursors, km[n].base + hhdm, RegionEnd(km[n]) + hhdm)
  }

  // All usable bytes are in memory, at their addresses in the direct map.
  ghost predicate AllBackedUp(m: seq<Region>, hhdm: nat, memory: map<nat, byte>) {
    forall x: nat :: CoveredAs(m, x, USABLE) ==> x + hhdm in memory
  }

  // The whole way from the map of the boot loader to the allocations of the kernel (calls), which
  // begins in region n of the kernel's map. No byte is handed out twice, and all heap bytes were
  // usable in the map of the boot loader.
  method Boot(m: seq<Region>, hhdm: nat, kernelFound: bool, rs: seq<Request>, accepted: bool, lastRpa: nat,
              calls: seq<Call>, memory: map<nat, byte>, ghost b: nat)
    returns (ok: bool, pre: seq<Block>, image: Block, results: seq<Option<Block>>,
             ghost k: nat, ghost taken: nat, ghost n: nat, ghost cursors: seq<nat>)
    requires WellFormed(m) && DistinctBases(m) && NoReserved(m)
    requires hhdm % PAGE == 0 && AllBackedUp(m, hhdm, memory)
    requires GoodRequests(rs) && GoodCalls(calls)
    requires PowerOfTwo(b) && AlignmentsUpTo(calls, b) && InDirectMap(m, hhdm, 2 * b)
    requires Room(m, hhdm, rs) && lastRpa <= HACK
    ensures kernelFound && accepted && HasUsable(m) ==>
      && k < |m| && FirstLargest(m, k) && taken + HACK <= m[k].length
      && m[k].base + taken == AlignUp(Cursor(m[k].base + hhdm, rs) - hhdm, PAGE)
    ensures ok <==> kernelFound && accepted && HasUsable(m) && HasUsable(KernelMap(m, k, taken))
    ensures ok ==> AllApart(pre + [image] + Handed(results))
    ensures ok ==> |pre| == |rs| && forall i :: 0 <= i < |rs| ==> Fulfils(pre[i], rs[i])
    ensures ok ==> image.size == AlignUp(lastRpa, PAGE) && Aligned(image.start, PAGE)
    ensures ok ==> HeapServes(KernelMap(m, k, taken), n, hhdm, calls, results, cursors)
    ensures ok ==> forall j: nat, x: nat :: j < |Handed(results)| && Has(Handed(results)[j], x) ==>
                     x >= hhdm && CoveredAs(m, x - hhdm, USABLE)
  {
    hide WellFormed, DistinctBases, NoReserved, CoveredAs, PowerOfTwo, KernelMap, Room, AllApart, Ordered, Within,
      GoodCalls, Served, Handed, FirstLargest, Fulfils, Aligned, AlignUp, Cursor, NextAligned, NeverWraps, AllBacked,
      AllBackedUp, InDirectMap, AlignmentsUpTo, InTurn, Cleared;
    results, n, cursors := [], 0, [];
    RoomForOne(m, hhdm, b);
    var map';
    ok, pre, image, map', k, taken := PreKernelPhase(m, hhdm, kernelFound, rs, accepted, lastRpa);
    if !ok {
      return;
    }
    // init_heap
    var heapAddr, heapSize := LargestUsable(map');
    if heapSize == 0 {
      ok := false;
      return;
    }
    n :| 0 <= n < |map'| && FirstLargest(map', n) && heapAddr == map'[n].base && heapSize == map'[n].length;
    HeapRegion(m, k, taken, n, hhdm, 2 * b);
    var h := new KernelHeap(heapAddr + hhdm, heapSize, memory);
    ghost var limit := heapAddr + hhdm + heapSize;
    SmallAlignmentsNeverWrap(calls, heapAddr + hhdm, limit, b);
    ServedApart(calls, heapAddr + hhdm, limit);
    HeapApart(m, k, taken, n, hhdm, pre + [image], Handed(Served(calls, heapAddr + hhdm, limit)));
    HeapBacked(m, hhdm, calls, Served(calls, heapAddr + hhdm, limit), memory);
    results, cursors := h.Run(calls);
  }

  lemma RoomForOne(m: seq<Region>, hhdm: nat, b: nat)
    requires PowerOfTwo(b) && InDirectMap(m, hhdm, 2 * b)
    ensures b > 0 && InDirectMap(m, hhdm, 1)
  {
  }

  // What the kernel clears is memory, as all that it is given is usable.
  lemma HeapBacked(m: seq<Region>, hhdm: nat, calls: seq<Call>, results: seq<Option<Block>>, memory: map<nat, byte>)
    requires AllBackedUp(m, hhdm, memory) && |results| == |calls|
    requires forall j: nat, x: nat :: j < |Handed(results)| && Has(Handed(results)[j], x) ==>
      x >= hhdm && CoveredAs(m, x - hhdm, USABLE)
    ensures AllBacked(calls, results, memory)
  {
    hide CoveredAs;
    forall i: nat, x: nat | i < |calls| && results[i].Some? && Has(results[i].value, x)
      ensures x in memory
    {
      var j := HandedAt(results, i);
      var y: nat := x - hhdm;
      assert CoveredAs(m, y, USABLE);
      assert y + hhdm == x;
    }
  }

  lemma SplitKinds(m: seq<Region>, k: nat, size: nat)
    requires k < |m| && NoReserved(m)
    ensures var n := Split(m, k, size);
      && |n| == |m| + 1 && n[k].kind == PREKERNEL_RESERVED
      && forall j :: 0 <= j < |n| && j != k ==> n[j].kind != PREKERNEL_RESERVED
  {
  }

  lemma HeapRegion(m: seq<Region>, k: nat, size: nat, n: nat, hhdm: nat, room: nat)
    requires WellFormed(m) && FirstLargest(m, k) && size + HACK <= m[k].length && InDirectMap(m, hhdm, room)
    requires FirstLargest(KernelMap(m, k, size), n)
    ensures RegionEnd(KernelMap(m, k, size)[n]) + hhdm + room <= WORDS
  {
    KernelMapMoves(m, k, size);
    LengthOfSplit(m, k, size + HACK);
    SplitAt(m, k, size + HACK, n);
    hide KernelMap, Split, WellFormed;
  }

  lemma ImageFollows(pre: seq<Block>, lo: nat, pos: nat, image: Block, lastRpa: nat, hi: nat)
    requires Ordered(pre) && Within(pre, lo, pos)
    requires lastRpa <= HACK && image == Block(AlignUp(pos, PAGE), AlignUp(lastRpa, PAGE))
    requires lo <= pos && AlignUp(pos, PAGE) + HACK <= hi
    ensures Ordered(pre + [image]) && Within(pre + [image], lo, hi)
  {
    assert AlignUp(lastRpa, PAGE) <= HACK;
  }

  lemma HeapApart(m: seq<Region>, k: nat, size: nat, n: nat, hhdm: nat, early: seq<Block>, heap: seq<Block>)
    requires WellFormed(m) && NoReserved(m) && FirstLargest(m, k) && size + HACK <= m[k].length
    requires FirstLargest(KernelMap(m, k, size), n)
    requires Ordered(early) && Within(early, m[k].base + hhdm, m[k].base + hhdm + size + HACK)
    requires var r := KernelMap(m, k, size)[n];
      Ordered(heap) && Within(heap, r.base + hhdm, RegionEnd(r) + hhdm)
    ensures AllApart(early + heap)
    ensures forall j: nat, x: nat :: j < |heap| && Has(heap[j], x) ==> x >= hhdm && CoveredAs(m, x - hhdm, USABLE)
  {
    hide WellFormed, NoReserved, CoveredAs, AllApart, KernelMap;
    forall j: nat, x: nat | j < |heap| && Has(heap[j], x)
      ensures x >= hhdm && CoveredAs(m, x - hhdm, USABLE)
      ensures !(m[k].base + hhdm <= x < m[k].base + hhdm + size + HACK)
    {
      assert heap[j] in heap;
      UsableIsFree(m, k, size, n, x - hhdm);
    }
    ApartFrom(early, heap, m[k].base + hhdm, m[k].base + hhdm + size + HACK);
  }

  // A machine with 64 MiB of usable memory and the direct map at the beginning of the upper half meets
  // all that Boot asks for.
  lemma HigherHalfBoots() returns (m: seq<Region>, hhdm: nat, rs: seq<Request>, calls: seq<Call>,
                                   memory: map<nat, byte>, b: nat)
    ensures hhdm == 0xFFFF_8000_0000_0000 && hhdm % PAGE == 0
    ensures WellFormed(m) && DistinctBases(m) && NoReserved(m) && HasUsable(m) && AllBackedUp(m, hhdm, memory)
    ensures GoodRequests(rs) && rs != [] && GoodCalls(calls) && calls != [] && Room(m, hhdm, rs)
    ensures PowerOfTwo(b) && AlignmentsUpTo(calls, b) && InDirectMap(m, hhdm, 2 * b)
  {
    var r := Region(0x10_0000, 0x400_0000, USABLE);
    hhdm := 0xFFFF_8000_0000_0000;
    m := [r];
    rs := [Request(PAGE, PAGE)];
    calls := [Malloc(64)];
    b := 0x1_0000_0000;
    SmallPowers();
    hide PowerOfTwo, AllBackedUp, Room;
    assert m[0] == r && rs[0] == Request(PAGE, PAGE);
    memory := OneRegionBacked(r, hhdm);
    OneRequestFits(r, hhdm, rs);
  }

  lemma OneRegionBacked(r: Region, hhdm: nat) returns (memory: map<nat, byte>)
    ensures AllBackedUp([r], hhdm, memory)
  {
    var all := Block(r.base + hhdm, r.length);
    memory := map x: nat | all.start <= x < End(all) && Has(all, x) :: 0;
    forall x: nat | CoveredAs([r], x, USABLE)
      ensures x + hhdm in memory
    {
      assert InRegion(r, x);
      assert Has(all, x + hhdm);
    }
  }

  lemma OneRequestFits(r: Region, hhdm: nat, rs: seq<Request>)
    requires GoodRequests(rs) && |rs| == 1 && rs[0] == Request(PAGE, PAGE)
    requires r.length >= HACK + 4 * PAGE
    ensures Room([r], hhdm, rs)
  {
    var m, pos := [r], r.base + hhdm;
    assert rs[..0] == [];
    assert Cursor(pos, rs) == AlignUp(pos, PAGE) + PAGE;
    var end: nat := Cursor(pos, rs) - hhdm;
    assert end <= r.base + 2 * PAGE;
    assert AlignUp(end, PAGE) <= end + PAGE;
    hide Cursor, AlignUp;
    assert forall k: nat :: FirstLargest(m, k) ==> k == 0;
  }
}
