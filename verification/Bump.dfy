// The two bump allocators: prekernel/shared/src/alloc.c and kernel/src/common/memory.c.
module Bump {
  import opened Arithmetic
  import opened Bytes
  import opened Options
  import opened Rounding

  const SIZE_MAX := WORDS - 1
  const MAX_ALIGN := 16

  datatype Block = Block(start: nat, size: nat)

  function End(b: Block): nat {
    b.start + b.size
  }

  // Blocks in the order in which they were handed out, each after the one before.
  predicate Ordered(blocks: seq<Block>) {
    forall i, j :: 0 <= i < j < |blocks| ==> End(blocks[i]) <= blocks[j].start
  }

  predicate Within(blocks: seq<Block>, lo: nat, hi: nat) {
    forall b :: b in blocks ==> lo <= b.start && End(b) <= hi
  }

  predicate Has(b: Block, x: nat) {
    b.start <= x < End(b)
  }

  // No byte belongs to two of them.
  ghost predicate Apart(a: Block, b: Block) {
    forall x: nat :: !(Has(a, x) && Has(b, x))
  }

  lemma OrderedApart(blocks: seq<Block>, i: nat, j: nat)
    requires Ordered(blocks) && i < |blocks| && j < |blocks| && i != j
    ensures Apart(blocks[i], blocks[j])
  {
    if i < j {
      assert End(blocks[i]) <= blocks[j].start;
    } else {
      assert End(blocks[j]) <= blocks[i].start;
    }
  }

  // --- alloc.c ------------------------------------------------------------------------------------

  datatype Request = Request(alignment: nat, size: nat)

  predicate GoodRequests(rs: seq<Request>) {
    forall i :: 0 <= i < |rs| ==> PowerOfTwo(rs[i].alignment) && rs[i].alignment < WORDS && rs[i].size < WORDS
  }

  predicate Fulfils(b: Block, r: Request) {
    b.size == r.size && Aligned(b.start, r.alignment)
  }

  // A run of allocations: where the cursor is after it, and the blocks it hands out.
  function Cursor(pos: nat, rs: seq<Request>): (r: nat)
    requires GoodRequests(rs)
    ensures r >= pos
    decreases |rs|
  {
    if rs == [] then pos
    else
      var n := |rs| - 1;
      AlignUp(Cursor(pos, rs[..n]), rs[n].alignment) + rs[n].size
  }

  function Laid(pos: nat, rs: seq<Request>): (blocks: seq<Block>)
    requires GoodRequests(rs)
    ensures |blocks| == |rs|
    decreases |rs|
  {
    if rs == [] then []
    else
      var n := |rs| - 1;
      Laid(pos, rs[..n]) + [Block(AlignUp(Cursor(pos, rs[..n]), rs[n].alignment), rs[n].size)]
  }

  lemma LaidOneMore(pos: nat, rs: seq<Request>, i: nat)
    requires GoodRequests(rs) && i < |rs|
    ensures GoodRequests(rs[..i]) && GoodRequests(rs[..i + 1])
    ensures var start := AlignUp(Cursor(pos, rs[..i]), rs[i].alignment);
            && Cursor(pos, rs[..i + 1]) == start + rs[i].size
            && Laid(pos, rs[..i + 1]) == Laid(pos, rs[..i]) + [Block(start, rs[i].size)]
  {
    hide AlignUp, PowerOfTwo;
    assert rs[..i + 1][..i] == rs[..i];
  }

  lemma OrderedMore(blocks: seq<Block>, b: Block, lo: nat, mid: nat)
    requires Ordered(blocks) && Within(blocks, lo, mid) && lo <= mid <= b.start
    ensures Ordered(blocks + [b]) && Within(blocks + [b], lo, End(b))
  {
    assert forall i :: 0 <= i < |blocks| ==> blocks[i] in blocks;
  }

  lemma NextFulfils(pos: nat, r: Request)
    requires PowerOfTwo(r.alignment)
    ensures Fulfils(Block(AlignUp(pos, r.alignment), r.size), r)
  {
    AlignUpIsNext(pos, r.alignment);
  }

  // The blocks follow one another between the cursors, and each is as it was asked for.
  lemma {:induction false} LaidApart(pos: nat, rs: seq<Request>)
    requires GoodRequests(rs)
    ensures Ordered(Laid(pos, rs)) && Within(Laid(pos, rs), pos, Cursor(pos, rs))
    ensures forall i :: 0 <= i < |rs| ==> Fulfils(Laid(pos, rs)[i], rs[i])
    decreases |rs|
  {
    hide AlignUp, PowerOfTwo, Aligned, Fulfils;
    if rs != [] {
      var n := |rs| - 1;
      assert rs[..n + 1] == rs;
      LaidOneMore(pos, rs, n);
      LaidApart(pos, rs[..n]);
      var mid := Cursor(pos, rs[..n]);
      hide Laid, Cursor, Ordered, Within, GoodRequests;
      NextFulfils(mid, rs[n]);
      OrderedMore(Laid(pos, rs[..n]), Block(AlignUp(mid, rs[n].alignment), rs[n].size), pos, mid);
    }
  }

  // Where the blocks before block i end
  function Behind(pos: nat, blocks: seq<Block>, i: nat): nat
    requires i <= |blocks|
  {
    if i == 0 then pos else End(blocks[i - 1])
  }

  // Each block begins at the next multiple of its alignment behind the one before it.
  ghost predicate OneAfterAnother(pos: nat, rs: seq<Request>, blocks: seq<Block>, end: nat) {
    && |blocks| == |rs|
    && (forall i :: 0 <= i < |rs| ==>
          rs[i].alignment > 0 &&
          blocks[i] == Block(AlignUp(Behind(pos, blocks, i), rs[i].alignment), rs[i].size))
    && end == Behind(pos, blocks, |rs|)
  }

  lemma {:induction false} LaidOneAfterAnother(pos: nat, rs: seq<Request>)
    requires GoodRequests(rs)
    ensures OneAfterAnother(pos, rs, Laid(pos, rs), Cursor(pos, rs))
    decreases |rs|
  {
    hide AlignUp, PowerOfTwo;
    if rs != [] {
      var n := |rs| - 1;
      assert rs[..n + 1] == rs;
      PowerAboveZero(rs[n].alignment);
      LaidOneMore(pos, rs, n);
      LaidOneAfterAnother(pos, rs[..n]);
      OneMoreAfter(pos, rs, Laid(pos, rs[..n]), Cursor(pos, rs[..n]));
    }
  }

  lemma OneMoreAfter(pos: nat, rs: seq<Request>, blocks: seq<Block>, end: nat)
    requires rs != [] && rs[|rs| - 1].alignment > 0
    requires OneAfterAnother(pos, rs[..|rs| - 1], blocks, end)
    ensures var r := rs[|rs| - 1];
      var b := Block(AlignUp(end, r.alignment), r.size);
      OneAfterAnother(pos, rs, blocks + [b], End(b))
  {
    hide AlignUp;
    var n, r := |rs| - 1, rs[|rs| - 1];
    var b := Block(AlignUp(end, r.alignment), r.size);
    var more := blocks + [b];
    forall i | 0 <= i < |rs|
      ensures rs[i].alignment > 0
      ensures more[i] == Block(AlignUp(Behind(pos, more, i), rs[i].alignment), rs[i].size)
    {
      assert Behind(pos, more, i) == Behind(pos, blocks, i);
      if i < n {
        assert rs[..n][i] == rs[i];
      }
    }
  }

  lemma PowerAboveZero(a: nat)
    requires PowerOfTwo(a)
    ensures a > 0
  {
  }

  // The pre-kernel allocator keeps a physical and a virtual cursor.
  class PreKernel {
    var physical: nat
    var virtual: nat

    ghost predicate Valid()
      reads this
    {
      physical < WORDS && virtual < WORDS
    }

    constructor (physical: nat, virtual: nat)
      requires physical < WORDS && virtual < WORDS
      ensures Valid() && this.physical == physical && this.virtual == virtual
    {
      this.physical, this.virtual := physical, virtual;
    }

    // All sums are modulo 2^64. Without a wrap-around both cursors move by the same distance.
    method AlignedAlloc(alignment: nat, size: nat) returns (start: nat)
      requires Valid() && PowerOfTwo(alignment) && alignment < WORDS && size < WORDS
      modifies this
      ensures Valid()
      ensures start == NextAligned(old(virtual), alignment) && virtual == (start + size) % WORDS
      ensures (virtual - physical) % WORDS == (old(virtual) - old(physical)) % WORDS
      ensures AlignUp(old(virtual), alignment) + size < WORDS ==>
        start == AlignUp(old(virtual), alignment) && virtual == start + size
    {
      NextAlignedIs(virtual, alignment);
      hide NextAligned, AlignUp, PowerOfTwo;
      start := NextAligned(virtual, alignment);
      var end := (start + size) % WORDS;
      SameDistance(virtual, physical, end);
      physical := (physical + (end - virtual)) % WORDS;
      virtual := end;
    }

    // A run of allocations that ends below 2^64: the blocks are those of Laid, and the cursors keep
    // their distance.
    method Run(rs: seq<Request>) returns (blocks: seq<Block>)
      requires Valid() && GoodRequests(rs) && Cursor(virtual, rs) < WORDS && physical <= virtual
      modifies this
      ensures Valid()
      ensures blocks == Laid(old(virtual), rs) && virtual == Cursor(old(virtual), rs)
      ensures virtual - physical == old(virtual - physical) && physical >= old(physical)
    {
      hide AlignUp, PowerOfTwo, Laid, Cursor;
      ghost var pos, offset := virtual, virtual - physical;
      assert Laid(pos, rs[..0]) == [] && Cursor(pos, rs[..0]) == pos by { LaidNothing(pos, rs); }
      blocks := [];
      var i := 0;
      while i < |rs|
        invariant 0 <= i <= |rs|
        invariant Valid() && GoodRequests(rs[..i]) && blocks == Laid(pos, rs[..i]) && virtual == Cursor(pos, rs[..i])
        invariant virtual - physical == offset && virtual >= pos
      {
        LaidOneMore(pos, rs, i);
        CursorGrows(pos, rs, i + 1);
        assert GoodRequests(rs) ==> PowerOfTwo(rs[i].alignment);
        var start := AlignedAlloc(rs[i].alignment, rs[i].size);
        SmallDistance(virtual, physical, offset);
        blocks := blocks + [Block(start, rs[i].size)];
        i := i + 1;
      }
      assert rs[..i] == rs;
    }
  }

  lemma SameDistance(v: nat, p: nat, end: nat)
    ensures (end - (p + (end - v)) % WORDS) % WORDS == (v - p) % WORDS
  {
  }

  lemma SmallDistance(v: nat, p: nat, offset: nat)
    requires v < WORDS && p < WORDS && offset <= v && (v - p) % WORDS == offset % WORDS
    ensures v - p == offset
  {
  }

  lemma {:induction false} CursorGrows(pos: nat, rs: seq<Request>, i: nat)
    requires GoodRequests(rs) && i <= |rs|
    ensures GoodRequests(rs[..i]) && Cursor(pos, rs[..i]) <= Cursor(pos, rs)
    decreases |rs|
  {
    hide AlignUp, PowerOfTwo;
    if i < |rs| {
      var n := |rs| - 1;
      assert rs[..n][..i] == rs[..i];
      CursorGrows(pos, rs[..n], i);
    } else {
      assert rs[..i] == rs;
    }
  }

  lemma LaidNothing(pos: nat, rs: seq<Request>)
    ensures Laid(pos, rs[..0]) == [] && Cursor(pos, rs[..0]) == pos
  {
  }

  // --- memory.c -----------------------------------------------------------------------------------

  // An allocation that the kernel asks for
  datatype Call = AlignedAlloc(alignment: nat, size: nat) | Malloc(msize: nat) | Calloc(num: nat, each: nat)

  predicate GoodCalls(calls: seq<Call>) {
    forall i :: 0 <= i < |calls| ==> GoodCall(calls[i])
  }

  predicate GoodCall(c: Call) {
    match c
    case AlignedAlloc(alignment, size) => PowerOfTwo(alignment) && alignment < WORDS && size < WORDS
    case Malloc(size) => size < WORDS
    case Calloc(num, each) => num < WORDS && each < WORDS
  }

  function Alignment(c: Call): nat {
    if c.AlignedAlloc? then c.alignment else MAX_ALIGN
  }

  function Size(c: Call): nat {
    match c
    case AlignedAlloc(_, size) => size
    case Malloc(size) => size
    case Calloc(num, each) => num * each
  }

  // calloc gives nothing for an empty block, or for one whose size does not fit 64 bits.
  predicate Refused(c: Call) {
    c.Calloc? && (c.num == 0 || c.each == 0 || c.num * c.each > SIZE_MAX)
  }

  // A call is granted when the block behind the aligned cursor ends in the heap.
  function Grant(c: Call, ptr: nat, limit: nat): Option<Block>
    requires GoodCall(c) && ptr < WORDS
  {
    var start := NextAligned(ptr, Alignment(c));
    if !Refused(c) && start + Size(c) <= limit then Some(Block(start, Size(c))) else None
  }

  // The cursor is aligned before the test, and stays aligned when there is no room.
  function PtrAfter(c: Call, ptr: nat, limit: nat): (r: nat)
    requires GoodCall(c) && ptr < WORDS && limit < WORDS
    ensures r < WORDS
  {
    var granted := Grant(c, ptr, limit);
    if granted.Some? then End(granted.value) else if Refused(c) then ptr else NextAligned(ptr, Alignment(c))
  }

  // What a run of calls is answered, and where it leaves the cursor
  function PtrAfterAll(calls: seq<Call>, ptr: nat, limit: nat): (r: nat)
    requires GoodCalls(calls) && ptr < WORDS && limit < WORDS
    ensures r < WORDS
  {
    if calls == [] then ptr
    else
      var n := |calls| - 1;
      assert forall i :: 0 <= i < n ==> calls[..n][i] == calls[i];
      PtrAfter(calls[n], PtrAfterAll(calls[..n], ptr, limit), limit)
  }

  function Served(calls: seq<Call>, ptr: nat, limit: nat): (r: seq<Option<Block>>)
    requires GoodCalls(calls) && ptr < WORDS && limit < WORDS
    ensures |r| == |calls|
  {
    if calls == [] then []
    else
      var n := |calls| - 1;
      assert forall i :: 0 <= i < n ==> calls[..n][i] == calls[i];
      Served(calls[..n], ptr, limit) + [Grant(calls[n], PtrAfterAll(calls[..n], ptr, limit), limit)]
  }

  lemma ServedOneMore(calls: seq<Call>, i: nat, ptr: nat, limit: nat)
    requires GoodCalls(calls) && ptr < WORDS && limit < WORDS && i < |calls|
    ensures GoodCalls(calls[..i]) && GoodCalls(calls[..i + 1])
    ensures PtrAfterAll(calls[..i + 1], ptr, limit) == PtrAfter(calls[i], PtrAfterAll(calls[..i], ptr, limit), limit)
    ensures Served(calls[..i + 1], ptr, limit) ==
            Served(calls[..i], ptr, limit) + [Grant(calls[i], PtrAfterAll(calls[..i], ptr, limit), limit)]
  {
    assert forall k :: 0 <= k < i + 1 ==> calls[..i + 1][k] == calls[k];
    assert calls[..i + 1][..i] == calls[..i];
    hide GoodCall, PtrAfter, Grant;
  }

  lemma ServedNothing(calls: seq<Call>, ptr: nat, limit: nat)
    requires GoodCalls(calls) && ptr < WORDS && limit < WORDS
    ensures GoodCalls(calls[..0]) && calls[..|calls|] == calls
    ensures Served(calls[..0], ptr, limit) == [] && PtrAfterAll(calls[..0], ptr, limit) == ptr
  {
  }

  lemma {:induction false} ServedAt(calls: seq<Call>, i: nat, ptr: nat, limit: nat)
    requires GoodCalls(calls) && ptr < WORDS && limit < WORDS && i < |calls|
    ensures GoodCalls(calls[..i])
    ensures Served(calls, ptr, limit)[i] == Grant(calls[i], PtrAfterAll(calls[..i], ptr, limit), limit)
    decreases |calls|
  {
    hide GoodCall, PtrAfter, Grant;
    var n := |calls| - 1;
    assert calls[..n + 1] == calls;
    ServedOneMore(calls, n, ptr, limit);
    if i < n {
      assert calls[..n][..i] == calls[..i];
      ServedAt(calls[..n], i, ptr, limit);
    }
  }

  // What one call is answered, and how the cursor moves: nothing happens for an empty calloc, or for one
  // whose size does not fit 64 bits; otherwise the cursor goes to the next multiple of the alignment (to 0
  // if there is none below 2^64), and the call gets the block there if that ends in the heap.
  predicate Responds(c: Call, cursor: nat, r: Option<Block>, next: nat, limit: nat) {
    var alignment := if c.AlignedAlloc? then c.alignment else 16;
    var size := match c case AlignedAlloc(_, n) => n case Malloc(n) => n case Calloc(num, each) => num * each;
    var nothing := c.Calloc? && (c.num == 0 || c.each == 0 || c.num * c.each >= WORDS);
    alignment > 0 &&
    var up := AlignUp(cursor, alignment);
    var start := if up < WORDS then up else 0;
    && (r == None <==> nothing || start + size > limit)
    && (r.Some? ==> r.value == Block(start, size))
    && next == if nothing then cursor else if r == None then start else start + size
  }

  lemma GrantResponds(c: Call, ptr: nat, limit: nat)
    requires GoodCall(c) && ptr < WORDS && limit < WORDS
    ensures Responds(c, ptr, Grant(c, ptr, limit), PtrAfter(c, ptr, limit), limit)
  {
    AlignmentFacts(c);
    NextAlignedIs(ptr, Alignment(c));
    hide AlignUp, NextAligned, PowerOfTwo;
  }

  // The calls of a run are answered one after the other, beginning with the cursor at start.
  ghost predicate InTurn(calls: seq<Call>, results: seq<Option<Block>>, cursors: seq<nat>, start: nat,
                         limit: nat)
  {
    && |results| == |calls| && |cursors| == |calls| + 1 && cursors[0] == start
    && forall i :: 0 <= i < |calls| ==> Responds(calls[i], cursors[i], results[i], cursors[i + 1], limit)
  }

  lemma {:induction false} ServedInTurn(calls: seq<Call>, ptr: nat, limit: nat) returns (cursors: seq<nat>)
    requires GoodCalls(calls) && ptr < WORDS && limit < WORDS
    ensures InTurn(calls, Served(calls, ptr, limit), cursors, ptr, limit)
    ensures |cursors| == |calls| + 1 && cursors[|calls|] == PtrAfterAll(calls, ptr, limit)
    decreases |calls|
  {
    hide GoodCall, PtrAfter, Grant, Responds;
    if calls == [] {
      cursors := [ptr];
    } else {
      var n := |calls| - 1;
      assert calls[..n + 1] == calls;
      ServedOneMore(calls, n, ptr, limit);
      cursors := ServedInTurn(calls[..n], ptr, limit);
      GrantResponds(calls[n], PtrAfterAll(calls[..n], ptr, limit), limit);
      cursors := cursors + [PtrAfterAll(calls, ptr, limit)];
    }
  }

  // Byte x was cleared: it is in a block that a calloc gave.
  predicate Cleared(calls: seq<Call>, results: seq<Option<Block>>, x: nat) {
    exists i :: 0 <= i < |calls| && i < |results| && calls[i].Calloc? && results[i].Some? && Has(results[i].value, x)
  }

  lemma ClearedMore(calls: seq<Call>, i: nat, results: seq<Option<Block>>, r: Option<Block>, x: nat)
    requires i < |calls| && |results| == i
    ensures Cleared(calls[..i + 1], results + [r], x) <==>
      Cleared(calls[..i], results, x) || (calls[i].Calloc? && r.Some? && Has(r.value, x))
  {
    hide Has;
    var more := results + [r];
    assert more[i] == r && calls[..i + 1][i] == calls[i];
    assert forall k :: 0 <= k < i ==> more[k] == results[k] && calls[..i + 1][k] == calls[..i][k];
  }

  // The overflow test of calloc
  lemma CallocTest(num: nat, each: nat)
    requires num > 0
    ensures SIZE_MAX / num >= each <==> num * each <= SIZE_MAX
  {
    DivMod(SIZE_MAX, num);
    if SIZE_MAX / num >= each {
      MulMonotone(each, SIZE_MAX / num, num);
    } else {
      MulStep(SIZE_MAX / num, each, num);
    }
  }

  // The bytes of a block are in memory.
  ghost predicate Backed(r: Option<Block>, memory: map<nat, byte>) {
    r.Some? ==> forall x: nat :: Has(r.value, x) ==> x in memory
  }

  // The blocks that a run of calls writes to are in memory.
  ghost predicate AllBacked(calls: seq<Call>, results: seq<Option<Block>>, memory: map<nat, byte>)
    requires |results| == |calls|
  {
    forall i :: 0 <= i < |calls| && calls[i].Calloc? ==> Backed(results[i], memory)
  }

  class KernelHeap {
    var ptr: nat
    var limit: nat
    var memory: map<nat, byte>

    ghost predicate Valid()
      reads this
    {
      ptr < WORDS && limit < WORDS
    }

    // What init_heap leaves for the region it picked
    constructor (start: nat, size: nat, memory: map<nat, byte>)
      requires start + size < WORDS
      ensures Valid() && ptr == start && limit == start + size && this.memory == memory
    {
      ptr, limit, this.memory := start, start + size, memory;
    }

    method AllocAligned(alignment: nat, size: nat) returns (r: Option<Block>)
      requires Valid() && GoodCall(AlignedAlloc(alignment, size))
      modifies this`ptr
      ensures Valid()
      ensures r == Grant(AlignedAlloc(alignment, size), old(ptr), limit)
      ensures ptr == PtrAfter(AlignedAlloc(alignment, size), old(ptr), limit)
      ensures Responds(AlignedAlloc(alignment, size), old(ptr), r, ptr, limit)
    {
      GrantResponds(AlignedAlloc(alignment, size), ptr, limit);
      hide Responds;
      ptr := NextAligned(ptr, alignment);
      if ptr > limit || limit - ptr < size {
        return None;
      }
      var result := ptr;
      ptr := ptr + size;
      return Some(Block(result, size));
    }

    method AllocMax(size: nat) returns (r: Option<Block>)
      requires Valid() && size < WORDS
      modifies this`ptr
      ensures Valid()
      ensures r == Grant(Malloc(size), old(ptr), limit) && ptr == PtrAfter(Malloc(size), old(ptr), limit)
      ensures Responds(Malloc(size), old(ptr), r, ptr, limit)
    {
      GrantResponds(Malloc(size), ptr, limit);
      SmallPowers();
      hide NextAligned, Responds;
      r := AllocAligned(MAX_ALIGN, size);
    }

    method Memset(start: nat, c: byte, n: nat)
      requires forall x: nat :: start <= x < start + n ==> x in memory
      modifies this`memory
      ensures memory.Keys == old(memory).Keys
      ensures forall x :: x in memory ==> memory[x] == if start <= x < start + n then c else old(memory)[x]
    {
      var i := 0;
      while i < n
        invariant 0 <= i <= n
        invariant memory.Keys == old(memory).Keys
        invariant forall x :: x in memory ==> memory[x] == if start <= x < start + i then c else old(memory)[x]
      {
        memory := memory[start + i := c];
        i := i + 1;
      }
    }

    // A block is handed out only if the product did not overflow, and it is all zero then.
    method AllocZeroed(num: nat, each: nat) returns (r: Option<Block>)
      requires Valid() && num < WORDS && each < WORDS
      requires Backed(Grant(Calloc(num, each), ptr, limit), memory)
      modifies this`ptr, this`memory
      ensures Valid() && memory.Keys == old(memory).Keys
      ensures r == Grant(Calloc(num, each), old(ptr), limit) && ptr == PtrAfter(Calloc(num, each), old(ptr), limit)
      ensures Responds(Calloc(num, each), old(ptr), r, ptr, limit)
      ensures r.Some? ==> forall x: nat :: Has(r.value, x) ==> x in memory && memory[x] == 0
      ensures forall x :: x in memory && (r.Some? ==> !Has(r.value, x)) ==> memory[x] == old(memory)[x]
    {
      GrantResponds(Calloc(num, each), ptr, limit);
      hide NextAligned, Responds;
      r := None;
      if num != 0 {
        CallocTest(num, each);
        if each != 0 && SIZE_MAX / num >= each {
          r := AllocMax(num * each);
          if r == None {
            return r;
          }
          Memset(r.value.start, 0, num * each);
        }
      }
    }

    // One call
    method Allocate(c: Call) returns (r: Option<Block>)
      requires Valid() && GoodCall(c) && (c.Calloc? ==> Backed(Grant(c, ptr, limit), memory))
      modifies this`ptr, this`memory
      ensures Valid() && memory.Keys == old(memory).Keys
      ensures r == Grant(c, old(ptr), limit) && ptr == PtrAfter(c, old(ptr), limit)
      ensures c.Calloc? && r.Some? ==> forall x: nat :: Has(r.value, x) ==> x in memory && memory[x] == 0
      ensures forall x :: x in memory && !(c.Calloc? && r.Some? && Has(r.value, x)) ==> memory[x] == old(memory)[x]
    {
      hide PowerOfTwo, NextAligned, Backed;
      match c
      case AlignedAlloc(alignment, size) => r := AllocAligned(alignment, size);
      case Malloc(size) => r := AllocMax(size);
      case Calloc(num, each) => r := AllocZeroed(num, each);
    }

    // Any run of calls
    method Run(calls: seq<Call>) returns (results: seq<Option<Block>>, ghost cursors: seq<nat>)
      requires Valid() && GoodCalls(calls) && AllBacked(calls, Served(calls, ptr, limit), memory)
      modifies this`ptr, this`memory
      ensures Valid() && memory.Keys == old(memory).Keys
      ensures results == Served(calls, old(ptr), limit) && ptr == PtrAfterAll(calls, old(ptr), limit)
      ensures InTurn(calls, results, cursors, old(ptr), limit) && |cursors| == |calls| + 1 && ptr == cursors[|calls|]
      ensures forall x :: x in memory ==> memory[x] == if Cleared(calls, results, x) then 0 else old(memory)[x]
    {
      ghost var start, memory0 := ptr, memory;
      ServedNothing(calls, start, limit);
      hide PowerOfTwo, NextAligned, GoodCall, Grant, PtrAfter, PtrAfterAll, Served, InTurn, Has;
      results := [];
      var i := 0;
      while i < |calls|
        invariant 0 <= i <= |calls|
        invariant GoodCalls(calls[..i]) && results == Served(calls[..i], start, limit)
        invariant Valid() && ptr == PtrAfterAll(calls[..i], start, limit) && memory.Keys == memory0.Keys
        invariant forall x :: x in memory ==>
          memory[x] == if Cleared(calls[..i], results, x) then 0 else memory0[x]
      {
        ServedOneMore(calls, i, start, limit);
        ServedAt(calls, i, start, limit);
        ghost var memory1 := memory;
        var r := Allocate(calls[i]);
        ClearedByOne(calls, i, results, r, memory0, memory1, memory);
        results := results + [r];
        i := i + 1;
      }
      cursors := ServedInTurn(calls, start, limit);
    }
  }

  lemma ClearedByOne(calls: seq<Call>, i: nat, results: seq<Option<Block>>, r: Option<Block>,
                     mem0: map<nat, byte>, mem1: map<nat, byte>, mem: map<nat, byte>)
    requires i < |calls| && |results| == i && mem.Keys == mem1.Keys == mem0.Keys
    requires forall x :: x in mem1 ==> mem1[x] == if Cleared(calls[..i], results, x) then 0 else mem0[x]
    requires forall x :: x in mem ==>
      mem[x] == if calls[i].Calloc? && r.Some? && Has(r.value, x) then 0 else mem1[x]
    ensures forall x :: x in mem ==> mem[x] == if Cleared(calls[..i + 1], results + [r], x) then 0 else mem0[x]
  {
    hide Cleared, Has;
    forall x | x in mem
      ensures mem[x] == if Cleared(calls[..i + 1], results + [r], x) then 0 else mem0[x]
    {
      ClearedMore(calls, i, results, r, x);
    }
  }

  // A block as the call asked for
  predicate Answers(b: Block, c: Call) {
    match c
    case AlignedAlloc(alignment, size) => b.size == size && Aligned(b.start, alignment)
    case Malloc(size) => b.size == size && Aligned(b.start, MAX_ALIGN)
    case Calloc(num, each) => b.size == num * each && num > 0 && each > 0 && Aligned(b.start, MAX_ALIGN)
  }

  function Handed(results: seq<Option<Block>>): (r: seq<Block>)
    ensures |r| <= |results|
  {
    if results == [] then []
    else
      var last := results[|results| - 1];
      Handed(results[..|results| - 1]) + if last.Some? then [last.value] else []
  }

  // Every block of an answer is among those handed out.
  lemma {:induction false} HandedAt(results: seq<Option<Block>>, i: nat) returns (j: nat)
    requires i < |results| && results[i].Some?
    ensures j < |Handed(results)| && Handed(results)[j] == results[i].value
    decreases |results|
  {
    var n := |results| - 1;
    if i == n {
      j := |Handed(results[..n])|;
    } else {
      j := HandedAt(results[..n], i);
    }
  }

  lemma HandedMore(results: seq<Option<Block>>, r: Option<Block>)
    ensures Handed(results + [r]) == Handed(results) + if r.Some? then [r.value] else []
  {
    assert (results + [r])[..|results|] == results;
  }

  // The cursor can be aligned for the call without wrapping around.
  predicate NoWrap(c: Call, ptr: nat) {
    Refused(c) || ptr + Alignment(c) - 1 < WORDS
  }

  ghost predicate NeverWraps(calls: seq<Call>, ptr: nat, limit: nat)
    requires GoodCalls(calls) && ptr < WORDS && limit < WORDS
  {
    calls == [] || (
      var n := |calls| - 1;
      GoodCalls(calls[..n]) &&
      NeverWraps(calls[..n], ptr, limit) && NoWrap(calls[n], PtrAfterAll(calls[..n], ptr, limit)))
  }

  lemma AlignmentFacts(c: Call)
    requires GoodCall(c)
    ensures PowerOfTwo(Alignment(c)) && Alignment(c) < WORDS
  {
    SmallPowers();
  }

  lemma GrantAnswers(c: Call, ptr: nat, limit: nat)
    requires GoodCall(c) && ptr < WORDS && limit < WORDS && NoWrap(c, ptr)
    ensures ptr <= PtrAfter(c, ptr, limit)
    ensures var r := Grant(c, ptr, limit);
            r.Some? ==> Answers(r.value, c) && ptr <= r.value.start && End(r.value) == PtrAfter(c, ptr, limit) <= limit
  {
    AlignmentFacts(c);
    AlignUpIsNext(ptr, Alignment(c));
    NextAlignedIs(ptr, Alignment(c));
    hide AlignUp, NextAligned, PowerOfTwo, Aligned;
  }

  // A block granted to a call that wraps around is at address 0, below the heap; without a
  // wrap-around no block is.
  lemma GrantBelowIff(c: Call, ptr: nat, limit: nat)
    requires GoodCall(c) && 0 < ptr < WORDS && limit < WORDS && Grant(c, ptr, limit).Some?
    ensures Grant(c, ptr, limit).value.start < ptr <==> !NoWrap(c, ptr)
    ensures Grant(c, ptr, limit).value.start < ptr <==> Grant(c, ptr, limit).value.start == 0
  {
    AlignmentFacts(c);
    hide NextAligned, PowerOfTwo;
    AlignsUpIff(ptr, Alignment(c));
  }

  lemma SecondOfTwo(c: Call, d: Call, ptr: nat, limit: nat)
    requires GoodCall(c) && GoodCall(d) && ptr < WORDS && limit < WORDS
    ensures GoodCalls([c, d])
    ensures Served([c, d], ptr, limit)[1] == Grant(d, PtrAfter(c, ptr, limit), limit)
  {
    hide GoodCall, Grant, PtrAfter;
    var calls := [c, d];
    ServedOneMore(calls, 1, ptr, limit);
    ServedOneMore(calls, 0, ptr, limit);
    assert calls[..2] == calls;
  }

  lemma HalfIsPower(half: nat)
    requires half == WORDS / 2
    ensures PowerOfTwo(half)
  {
    WordsIsPower();
  }

  // In the upper half of the address space, where the heap is, an alignment of 2^63 wraps around, and
  // the next malloc is answered with address 0.
  lemma WrapLosesTheHeap(ptr: nat, limit: nat, half: nat)
    requires half == WORDS / 2 && half < ptr <= limit < WORDS
    ensures var calls := [AlignedAlloc(half, 0), Malloc(MAX_ALIGN)];
            GoodCalls(calls) && Served(calls, ptr, limit)[1] == Some(Block(0, MAX_ALIGN))
  {
    CursorAtZero(ptr, limit, half);
    BlockAtZero(limit);
    hide Grant, PtrAfter, Served, PowerOfTwo;
    SecondOfTwo(AlignedAlloc(half, 0), Malloc(MAX_ALIGN), ptr, limit);
  }

  lemma CursorAtZero(ptr: nat, limit: nat, half: nat)
    requires half == WORDS / 2 && half < ptr <= limit < WORDS
    ensures GoodCall(AlignedAlloc(half, 0)) && PtrAfter(AlignedAlloc(half, 0), ptr, limit) == 0
  {
    HalfIsPower(half);
    hide NextAligned, AlignUp, PowerOfTwo;
    NextAlignedIs(ptr, half);
  }

  lemma BlockAtZero(limit: nat)
    requires MAX_ALIGN <= limit < WORDS
    ensures Grant(Malloc(MAX_ALIGN), 0, limit) == Some(Block(0, MAX_ALIGN))
  {
    SmallPowers();
    var zero := 0;
    NextAlignedIs(zero, MAX_ALIGN);
    AlignUpIsNext(zero, MAX_ALIGN);
    ZeroAligned(MAX_ALIGN);
    hide NextAligned, AlignUp, PowerOfTwo, Aligned;
  }

  lemma ZeroAligned(a: nat)
    requires a > 0
    ensures Aligned(0, a)
  {
  }

  // Any run of allocations that does not wrap around: the blocks handed out follow one another inside
  // the heap, and each is as its call asked for.
  lemma {:induction false} ServedApart(calls: seq<Call>, ptr: nat, limit: nat)
    requires GoodCalls(calls) && ptr < WORDS && limit < WORDS && NeverWraps(calls, ptr, limit)
    ensures var results := Served(calls, ptr, limit);
            && Ordered(Handed(results)) && Within(Handed(results), ptr, limit)
            && Within(Handed(results), ptr, PtrAfterAll(calls, ptr, limit)) && ptr <= PtrAfterAll(calls, ptr, limit)
            && forall i :: 0 <= i < |calls| && results[i].Some? ==>
                 Answers(results[i].value, calls[i]) && ptr <= results[i].value.start && End(results[i].value) <= limit
    decreases |calls|
  {
    hide PowerOfTwo, GoodCall, Grant, PtrAfter, Answers, NoWrap;
    if calls != [] {
      hide Ordered, Within, Handed;
      var n := |calls| - 1;
      assert calls[..n + 1] == calls;
      ServedOneMore(calls, n, ptr, limit);
      ServedApart(calls[..n], ptr, limit);
      var cursor, results := PtrAfterAll(calls[..n], ptr, limit), Served(calls[..n], ptr, limit);
      GrantAnswers(calls[n], cursor, limit);
      HandedMore(results, Grant(calls[n], cursor, limit));
      WithOneMore(Handed(results), Grant(calls[n], cursor, limit), ptr, cursor, PtrAfterAll(calls, ptr, limit), limit);
    }
  }

  lemma WithOneMore(blocks: seq<Block>, r: Option<Block>, ptr: nat, cursor: nat, next: nat, limit: nat)
    requires Ordered(blocks) && Within(blocks, ptr, cursor) && Within(blocks, ptr, limit) && ptr <= cursor <= next
    requires r.Some? ==> cursor <= r.value.start && End(r.value) == next <= limit
    ensures var more := blocks + if r.Some? then [r.value] else [];
            Ordered(more) && Within(more, ptr, next) && Within(more, ptr, limit)
  {
  }

  // No call asks for a larger alignment than b.
  predicate AlignmentsUpTo(calls: seq<Call>, b: nat) {
    forall i :: 0 <= i < |calls| ==> Alignment(calls[i]) <= b
  }

  // The cursor passes the limit by less than the largest alignment; a heap that far from the end of
  // the address space never wraps around.
  lemma {:induction false} SmallAlignmentsNeverWrap(calls: seq<Call>, ptr: nat, limit: nat, b: nat)
    requires GoodCalls(calls) && PowerOfTwo(b) && AlignmentsUpTo(calls, b)
    requires ptr <= limit && limit + 2 * b <= WORDS
    ensures NeverWraps(calls, ptr, limit) && PtrAfterAll(calls, ptr, limit) <= AlignUp(limit, b)
    decreases |calls|
  {
    assert b > 0;
    hide PowerOfTwo, AlignUp;
    if calls != [] {
      var n := |calls| - 1;
      assert calls[..n + 1] == calls;
      ServedOneMore(calls, n, ptr, limit);
      SmallAlignmentsNeverWrap(calls[..n], ptr, limit, b);
      StaysNear(calls[n], PtrAfterAll(calls[..n], ptr, limit), limit, b);
    }
  }

  lemma StaysNear(c: Call, ptr: nat, limit: nat, b: nat)
    requires GoodCall(c) && PowerOfTwo(b) && Alignment(c) <= b && limit + 2 * b <= WORDS && ptr <= AlignUp(limit, b)
    ensures NoWrap(c, ptr) && PtrAfter(c, ptr, limit) <= AlignUp(limit, b)
  {
    var a := Alignment(c);
    AlignmentFacts(c);
    AlignUpIsNext(limit, b);
    SmallerAligned(AlignUp(limit, b), b, a);
    AlignUpIsNext(ptr, a);
    hide PowerOfTwo, Aligned;
    assert ptr + a - 1 < WORDS;
    NextAlignedIs(ptr, a);
    hide NextAligned, AlignUp;
  }
}
