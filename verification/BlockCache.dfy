// The one-block write-back cache and the uninstall log of externals/limine-binary/limine.c.
module BlockCache {
  import opened Arithmetic
  import opened Bytes
  import opened Options
  import opened UndoFile
  import opened UndoLog

  // (uint64_t)-1, the greatest 64-bit word, stored in cached_block when the cache holds no block
  const NO_BLOCK: nat := 0xFFFF_FFFF_FFFF_FFFF
  const FILE_LIMIT := 0x8000_0000_0000_0000

  // The bytes in whole blocks: all that block reads can reach.
  function Whole(size: nat, blockSize: nat): nat
    requires blockSize > 0
  {
    size / blockSize * blockSize
  }

  predicate Reachable(loc: nat, count: nat, size: nat, blockSize: nat)
    requires blockSize > 0
  {
    count == 0 || loc + count <= Whole(size, blockSize)
  }

  // Block b lies inside the file.
  predicate HasBlock(b: nat, size: nat, blockSize: nat) {
    (b + 1) * blockSize <= size
  }

  lemma BlockOfReachableByte(x: nat, size: nat, bs: nat)
    requires bs > 0
    ensures HasBlock(x / bs, size, bs) <==> x < Whole(size, bs)
    ensures Whole(size, bs) <= size
  {
    var b, n := x / bs, size / bs;
    DivMod(x, bs);
    DivMod(size, bs);
    if b < n {
      MulMonotone(b + 1, n, bs);
    } else {
      MulMonotone(n, b, bs);
      assert (b + 1) * bs == b * bs + bs;
    }
  }

  // Block b of the file replaced by other contents.
  function WithBlock(disk: seq<byte>, b: nat, block: seq<byte>): (r: seq<byte>)
    requires HasBlock(b, |disk|, |block|)
    ensures |r| == |disk|
  {
    Splice(disk, b * |block|, block)
  }

  ghost predicate Holds(disk: seq<byte>, b: nat, block: seq<byte>) {
    HasBlock(b, |disk|, |block|) && block == disk[b * |block|..b * |block| + |block|]
  }

  lemma SameBlock(disk: seq<byte>, b: nat, block: seq<byte>)
    requires Holds(disk, b, block)
    ensures WithBlock(disk, b, block) == disk
  {
  }

  lemma PatchBlock(disk: seq<byte>, b: nat, block: seq<byte>, offset: nat, chunk: seq<byte>)
    requires HasBlock(b, |disk|, |block|) && offset + |chunk| <= |block|
    ensures b * |block| + offset + |chunk| <= |disk|
    ensures WithBlock(disk, b, block[..offset] + chunk + block[offset + |chunk|..])
      == Splice(WithBlock(disk, b, block), b * |block| + offset, chunk)
  {
    var start := b * |block|;
    assert start + |block| <= |disk|;
    PatchInside(disk, start, block, offset, chunk);
  }

  lemma PatchInside(disk: seq<byte>, start: nat, block: seq<byte>, offset: nat, chunk: seq<byte>)
    requires start + |block| <= |disk| && offset + |chunk| <= |block|
    ensures Splice(disk, start, block[..offset] + chunk + block[offset + |chunk|..])
      == Splice(Splice(disk, start, block), start + offset, chunk)
  {
    hide Splice;
    var patched := block[..offset] + chunk + block[offset + |chunk|..];
    var once := Splice(disk, start, block);
    forall x | 0 <= x < |disk|
      ensures Splice(disk, start, patched)[x] == Splice(once, start + offset, chunk)[x]
    {
      SpliceIndex(disk, start, patched, x);
      SpliceIndex(disk, start, block, x);
      SpliceIndex(once, start + offset, chunk, x);
    }
  }

  lemma PatchedBlockHolds(disk: seq<byte>, b: nat, block: seq<byte>, offset: nat, n: nat)
    requires HasBlock(b, |disk|, |block|) && offset + n <= |block|
    ensures b * |block| + offset + n <= |disk|
    ensures WithBlock(disk, b, block)[b * |block| + offset..b * |block| + offset + n] == block[offset..offset + n]
  {
    var start := b * |block|;
    assert start + |block| <= |disk|;
  }

  lemma BlockEndReachable(b: nat, size: nat, bs: nat)
    requires bs > 0 && HasBlock(b, size, bs)
    ensures b * bs + bs <= Whole(size, bs) <= size
  {
    BlockOfReachableByte(size, size, bs);
    if b >= size / bs {
      MulMonotone(size / bs + 1, b + 1, bs);
      DivMod(size, bs);
      assert false;
    }
    MulMonotone(b + 1, size / bs, bs);
  }

  function BlockOf(pos: nat, bs: nat): nat
    requires bs > 0
  {
    pos / bs
  }

  function OffsetOf(pos: nat, bs: nat): nat
    requires bs > 0
  {
    pos % bs
  }

  // The part of [pos, pos + left) that lies in the block of pos.
  function Chunk(pos: nat, left: nat, bs: nat): nat
    requires bs > 0
  {
    if left > bs - OffsetOf(pos, bs) then bs - OffsetOf(pos, bs) else left
  }

  lemma PositionInBlock(pos: nat, bs: nat)
    requires bs > 0
    ensures BlockOf(pos, bs) * bs + OffsetOf(pos, bs) == pos && BlockOf(pos, bs) <= pos
  {
    DivMod(pos, bs);
    MulMonotone(1, bs, pos / bs);
  }

  lemma ChunkFacts(pos: nat, left: nat, size: nat, bs: nat)
    requires bs > 0 && left > 0
    ensures 0 < Chunk(pos, left, bs) <= left && OffsetOf(pos, bs) + Chunk(pos, left, bs) <= bs
    ensures HasBlock(BlockOf(pos, bs), size, bs) ==> pos + Chunk(pos, left, bs) <= Whole(size, bs)
    ensures !HasBlock(BlockOf(pos, bs), size, bs) ==> Whole(size, bs) <= pos
    ensures Whole(size, bs) <= size
  {
    DivMod(pos, bs);
    BlockOfReachableByte(pos, size, bs);
    if HasBlock(pos / bs, size, bs) {
      BlockEndReachable(pos / bs, size, bs);
    }
  }

  lemma SliceGrows(v: seq<byte>, loc: nat, p: nat, n: nat)
    requires loc + p + n <= |v|
    ensures Slice(v, loc, p + n) == Slice(v, loc, p) + v[loc + p..loc + p + n]
  {
  }

  ghost predicate OneOf(d: seq<byte>, a: seq<byte>, b: seq<byte>) {
    d == a || d == b
  }

  lemma OneOfSelf(a: seq<byte>, b: seq<byte>)
    ensures OneOf(a, a, b) && OneOf(b, a, b)
  {
  }

  lemma OneOfMeans(d: seq<byte>, a: seq<byte>, b: seq<byte>)
    ensures OneOf(d, a, b) <==> d == a || d == b
  {
  }

  lemma SameLength(d: seq<byte>, a: seq<byte>, b: seq<byte>)
    requires OneOf(d, a, b) && |a| == |b|
    ensures |d| == |a|
  {
  }

  lemma OneOfTwice(d: seq<byte>, d': seq<byte>, a: seq<byte>, b: seq<byte>)
    requires OneOf(d, a, b) && OneOf(d', d, b)
    ensures OneOf(d', a, b)
  {
  }

  // Outside the bytes of e, file d holds what d0 or v hold.
  ghost predicate OutsideMixed(e: Saved, d0: seq<byte>, v: seq<byte>, d: seq<byte>) {
    && |d| == |d0| == |v|
    && forall x :: 0 <= x < |v| && !Covers(e, x) ==> d[x] == d0[x] || d[x] == v[x]
  }

  lemma OutsideMixedStart(e: Saved, d0: seq<byte>, v: seq<byte>)
    requires |d0| == |v|
    ensures OutsideMixed(e, d0, v, d0)
  {
  }

  lemma OutsideMixedFrom(e: Saved, d0: seq<byte>, v: seq<byte>, d1: seq<byte>, d: seq<byte>)
    requires d1 == d0 || d1 == v
    requires |d0| == |v| && OutsideMixed(e, d1, v, d)
    ensures OutsideMixed(e, d0, v, d)
  {
  }

  // The device after the first p bytes of a write.
  function Partial(v: seq<byte>, loc: nat, data: seq<byte>, p: nat): (r: seq<byte>)
    requires p <= |data| && Fit(loc, p, |v|)
    ensures |r| == |v|
  {
    Splice(v, loc, data[..p])
  }

  lemma OutsideMixedStep(d0: seq<byte>, v: seq<byte>, loc: nat, data: seq<byte>, p: nat, d: seq<byte>, d': seq<byte>)
    requires p <= |data| && Fit(loc, p, |v|)
    requires OutsideMixed(Saved(data, loc), d0, v, d)
    requires d' == d || d' == Partial(v, loc, data, p)
    ensures OutsideMixed(Saved(data, loc), d0, v, d')
  {
  }

  lemma ReachableIsFit(loc: nat, count: nat, size: nat, bs: nat)
    requires bs > 0
    ensures Reachable(loc, count, size, bs) ==> Fit(loc, count, size)
  {
    BlockOfReachableByte(0, size, bs);
  }

  lemma FitsOneMore(log: seq<Saved>, i: nat, size: nat)
    requires i < |log| && Fits(log[..i], size) && Fit(log[i].loc, |log[i].data|, size)
    ensures Fits(log[..i + 1], size)
  {
    assert log[..i + 1] == log[..i] + [log[i]];
  }

  lemma PartialEnds(v: seq<byte>, loc: nat, data: seq<byte>)
    ensures Partial(v, loc, data, 0) == v
    ensures Fit(loc, |data|, |v|) ==> Partial(v, loc, data, |data|) == Splice(v, loc, data)
  {
    assert data[..|data|] == data;
  }

  lemma SpliceIndex(v: seq<byte>, loc: nat, data: seq<byte>, x: nat)
    requires Fit(loc, |data|, |v|) && x < |v|
    ensures Splice(v, loc, data)[x] == if loc <= x < loc + |data| then data[x - loc] else v[x]
  {
  }

  lemma PartialGrows(v: seq<byte>, loc: nat, data: seq<byte>, p: nat, n: nat)
    requires p + n <= |data| && Fit(loc, p + n, |v|)
    ensures Splice(Partial(v, loc, data, p), loc + p, data[p..p + n]) == Partial(v, loc, data, p + n)
  {
    hide Splice;
    var chunk := data[p..p + n];
    var once, twice := Partial(v, loc, data, p), Partial(v, loc, data, p + n);
    var patched := Splice(once, loc + p, chunk);
    forall x | 0 <= x < |v|
      ensures patched[x] == twice[x]
    {
      SpliceIndex(v, loc, data[..p], x);
      SpliceIndex(once, loc + p, chunk, x);
      SpliceIndex(v, loc, data[..p + n], x);
    }
  }

  ghost predicate AllReachable(log: seq<Saved>, size: nat, bs: nat)
    requires bs > 0
  {
    forall i :: 0 <= i < |log| ==>
      log[i].loc <= NO_BLOCK && Reachable(log[i].loc, |log[i].data|, size, bs)
  }

  lemma ReachableLog(log: seq<Saved>, size: nat, bs: nat)
    requires bs > 0 && AllReachable(log, size, bs)
    ensures EachReachable(log, size, bs) && forall i :: 0 <= i < |log| ==> log[i].loc <= NO_BLOCK
  {
  }

  // --- Entries that reach beyond the last whole block ----------------------------------------------

  // How much of a write is in whole blocks
  function ReachCount(loc: nat, count: nat, size: nat, bs: nat): (k: nat)
    requires bs > 0
    ensures k <= count && (k == count <==> Reachable(loc, count, size, bs))
    ensures Fit(loc, k, Whole(size, bs))
  {
    if loc + count <= Whole(size, bs) then count
    else if loc >= Whole(size, bs) then 0
    else Whole(size, bs) - loc
  }

  // What a read of one block leaves in the buffer: the bytes that there are.
  function Overread(disk: seq<byte>, b: nat, buffer: seq<byte>): (r: seq<byte>)
    ensures |r| == |buffer|
  {
    var start := b * |buffer|;
    if |disk| <= start then buffer
    else if start + |buffer| <= |disk| then disk[start..start + |buffer|]
    else disk[start..] + buffer[|disk| - start..]
  }

  function BlockAt(disk: seq<byte>, b: nat, bs: nat): (r: seq<byte>)
    requires HasBlock(b, |disk|, bs)
    ensures |r| == bs
  {
    disk[b * bs..b * bs + bs]
  }

  // b is the last whole block.
  predicate LastBlock(b: nat, size: nat, bs: nat)
    requires bs > 0
  {
    b + 1 == size / bs
  }

  lemma LastBlockIs(b: nat, size: nat, bs: nat)
    requires bs > 0 && LastBlock(b, size, bs)
    ensures HasBlock(b, size, bs) && (b + 1) * bs == Whole(size, bs) <= size < Whole(size, bs) + bs
  {
    DivMod(size, bs);
  }

  // The last whole block after a failed read of the bytes behind it went into the same buffer
  function StaleBlock(disk: seq<byte>, b: nat, bs: nat): (r: seq<byte>)
    requires HasBlock(b, |disk|, bs)
    ensures |r| == bs
  {
    Overread(disk, b + 1, BlockAt(disk, b, bs))
  }

  // The file between two entries of an uninstallation. When `stale`, the cache is clean and says it
  // holds the last whole block, but has been read over.
  datatype Half = Half(disk: seq<byte>, stale: bool)

  // What a write at loc starts from.
  function Start(h: Half, loc: nat, bs: nat): (r: seq<byte>)
    requires bs > 0
    ensures |r| == |h.disk|
  {
    var b := BlockOf(loc, bs);
    if h.stale && LastBlock(b, |h.disk|, bs) then
      LastBlockIs(b, |h.disk|, bs);
      WithBlock(h.disk, b, StaleBlock(h.disk, b, bs))
    else h.disk
  }

  lemma ReachFits(loc: nat, count: nat, size: nat, bs: nat)
    requires bs > 0
    ensures Fit(loc, ReachCount(loc, count, size, bs), size)
  {
    DivMod(size, bs);
  }

  // One entry written, as far as it is reachable. After two failures the cache keeps what the second
  // one left.
  function Undone(h: Half, e: Saved, bs: nat): (r: Half)
    requires bs > 0
    ensures |r.disk| == |h.disk|
  {
    if e.data == [] then h
    else
      var k := ReachCount(e.loc, |e.data|, |h.disk|, bs);
      ReachFits(e.loc, |e.data|, |h.disk|, bs);
      Half(Partial(Start(h, e.loc, bs), e.loc, e.data, k), 0 < k < |e.data|)
  }

  function UndoneAll(h: Half, log: seq<Saved>, bs: nat): (r: Half)
    requires bs > 0
    ensures |r.disk| == |h.disk|
    decreases |log|
  {
    if log == [] then h else Undone(UndoneAll(h, log[..|log| - 1], bs), log[|log| - 1], bs)
  }

  predicate EachReachable(log: seq<Saved>, size: nat, bs: nat)
    requires bs > 0
  {
    forall i :: 0 <= i < |log| ==> Reachable(log[i].loc, |log[i].data|, size, bs)
  }

  // For a log that is reachable throughout, this is the replay.
  lemma {:induction false} ReachableReplays(disk: seq<byte>, log: seq<Saved>, bs: nat)
    requires bs > 0 && EachReachable(log, |disk|, bs)
    ensures Fits(log, |disk|) && UndoneAll(Half(disk, false), log, bs) == Half(Replay(disk, log), false)
    decreases |log|
  {
    hide Reachable, Splice;
    if log != [] {
      var n := |log| - 1;
      var e := log[n];
      assert forall i :: 0 <= i < n ==> log[..n][i] == log[i];
      ReachableReplays(disk, log[..n], bs);
      assert log[..n + 1] == log;
      ReachableIsFit(e.loc, |e.data|, |disk|, bs);
      FitsOneMore(log, n, |disk|);
      assert e.data[..|e.data|] == e.data;
      NothingSpliced(Replay(disk, log[..n]), e.loc);
    }
  }

  lemma NothingSpliced(v: seq<byte>, loc: nat)
    ensures Splice(v, loc, []) == v
  {
  }

  // The reachable parts of the entries
  function ClipAll(log: seq<Saved>, size: nat, bs: nat): (r: seq<Saved>)
    requires bs > 0
    ensures |r| == |log|
  {
    seq(|log|, i requires 0 <= i < |log| =>
      Saved(log[i].data[..ReachCount(log[i].loc, |log[i].data|, size, bs)], log[i].loc))
  }

  lemma StartAt(h: Half, loc: nat, bs: nat, x: nat)
    requires bs > 0 && h.stale && LastBlock(BlockOf(loc, bs), |h.disk|, bs) && x < |h.disk|
    ensures Start(h, loc, bs)[x] ==
      if Whole(|h.disk|, bs) - bs <= x && x + bs < |h.disk| then h.disk[x + bs] else h.disk[x]
  {
    var b := BlockOf(loc, bs);
    LastBlockIs(b, |h.disk|, bs);
    assert b * bs + bs == (b + 1) * bs;
    hide BlockOf, Whole;
    SpliceIndex(h.disk, b * bs, StaleBlock(h.disk, b, bs), x);
    if b * bs <= x < b * bs + bs {
      StaleAt(h.disk, b, bs, x - b * bs);
    }
  }

  lemma StaleAt(disk: seq<byte>, b: nat, bs: nat, k: nat)
    requires HasBlock(b, |disk|, bs) && (b + 1) * bs == b * bs + bs && |disk| < b * bs + 2 * bs && k < bs
    ensures StaleBlock(disk, b, bs)[k] == disk[if b * bs + bs + k < |disk| then b * bs + bs + k else b * bs + k]
  {
    var start, block, stale := b * bs + bs, BlockAt(disk, b, bs), StaleBlock(disk, b, bs);
    assert block[k] == disk[b * bs + k];
    if |disk| <= start {
      assert stale == block;
    } else {
      var n := |disk| - start;
      assert stale == disk[start..] + block[n..];
      if k < n {
        assert stale[k] == disk[start..][k] == disk[start + k];
      } else {
        assert stale[k] == block[n..][k - n] == block[k];
      }
    }
  }

  lemma {:induction false} ClipsFit(log: seq<Saved>, size: nat, bs: nat)
    requires bs > 0
    ensures Fits(ClipAll(log, size, bs), size)
  {
    hide ReachCount;
    forall i | 0 <= i < |log|
      ensures Fit(log[i].loc, |ClipAll(log, size, bs)[i].data|, size)
    {
      ReachFits(log[i].loc, |log[i].data|, size, bs);
    }
  }

  // The buffer has been read over when the last entry that was not empty has been cut off.
  predicate StaleAfter(stale: bool, log: seq<Saved>, size: nat, bs: nat)
    requires bs > 0
    decreases |log|
  {
    if log == [] then stale
    else
      var e := log[|log| - 1];
      if e.data == [] then StaleAfter(stale, log[..|log| - 1], size, bs)
      else 0 < ReachCount(e.loc, |e.data|, size, bs) < |e.data|
  }

  // Entry e puts the bytes behind the last whole block at the beginning of that block, and x is there.
  predicate Misplaced(stale: bool, e: Saved, x: nat, size: nat, bs: nat)
    requires bs > 0
  {
    && stale && e.data != [] && LastBlock(BlockOf(e.loc, bs), size, bs)
    && Whole(size, bs) <= x + bs < size
  }

  // No entry has written to x since the last time that it was misplaced.
  predicate LeftMisplaced(stale: bool, log: seq<Saved>, x: nat, size: nat, bs: nat)
    requires bs > 0
    decreases |log|
  {
    log != [] &&
    var n := |log| - 1;
    && !Covers(ClipAll(log, size, bs)[n], x)
    && (LeftMisplaced(stale, log[..n], x, size, bs)
        || Misplaced(StaleAfter(stale, log[..n], size, bs), log[n], x, size, bs))
  }

  lemma {:induction false} StaleAfterIs(h: Half, log: seq<Saved>, bs: nat)
    requires bs > 0
    ensures UndoneAll(h, log, bs).stale == StaleAfter(h.stale, log, |h.disk|, bs)
    decreases |log|
  {
    hide ReachCount, Start, Partial;
    if log != [] {
      StaleAfterIs(h, log[..|log| - 1], bs);
    }
  }

  // One entry, byte by byte
  lemma UndoneAt(h: Half, e: Saved, bs: nat, x: nat)
    requires bs > 0 && x < |h.disk|
    ensures var k := ReachCount(e.loc, |e.data|, |h.disk|, bs);
      Undone(h, e, bs).disk[x] ==
        if e.loc <= x < e.loc + k then e.data[x - e.loc]
        else if Misplaced(h.stale, e, x, |h.disk|, bs) then h.disk[x + bs]
        else h.disk[x]
  {
    hide ReachCount, Whole, BlockOf, LastBlock, Splice;
    if e.data != [] {
      var k := ReachCount(e.loc, |e.data|, |h.disk|, bs);
      ReachFits(e.loc, |e.data|, |h.disk|, bs);
      SpliceIndex(Start(h, e.loc, bs), e.loc, e.data[..k], x);
      if h.stale && LastBlock(BlockOf(e.loc, bs), |h.disk|, bs) {
        StartAt(h, e.loc, bs, x);
      }
    }
  }

  lemma {:induction false} BytesBehindKept(h: Half, log: seq<Saved>, bs: nat, x: nat)
    requires bs > 0 && Whole(|h.disk|, bs) <= x < |h.disk|
    ensures UndoneAll(h, log, bs).disk[x] == h.disk[x]
    decreases |log|
  {
    hide Whole, Undone;
    if log != [] {
      var n := |log| - 1;
      BytesBehindKept(h, log[..n], bs, x);
      UndoneAt(UndoneAll(h, log[..n], bs), log[n], bs, x);
      WholeIsLess(|h.disk|, bs);
    }
  }

  lemma WholeIsLess(size: nat, bs: nat)
    requires bs > 0
    ensures Whole(size, bs) <= size < Whole(size, bs) + bs
  {
    DivMod(size, bs);
  }

  // What an uninstallation leaves in each byte, whatever the log: the last saved value that could be
  // written there, or the byte that was there, except where a byte was left misplaced.
  lemma {:induction false} UndoneAllAt(h: Half, log: seq<Saved>, bs: nat, x: nat)
    requires bs > 0 && x < |h.disk|
    ensures Fits(ClipAll(log, |h.disk|, bs), |h.disk|)
    ensures LeftMisplaced(h.stale, log, x, |h.disk|, bs) ==> Whole(|h.disk|, bs) <= x + bs < |h.disk|
    ensures UndoneAll(h, log, bs).disk[x] ==
      if LeftMisplaced(h.stale, log, x, |h.disk|, bs) then h.disk[x + bs]
      else Replay(h.disk, ClipAll(log, |h.disk|, bs))[x]
    decreases |log|
  {
    hide Whole, Undone, Splice, ReachCount, StaleAfter;
    var size := |h.disk|;
    var clipped := ClipAll(log, size, bs);
    ClipsFit(log, size, bs);
    if log != [] {
      var n := |log| - 1;
      UndoneAllAt(h, log[..n], bs, x);
      StaleAfterIs(h, log[..n], bs);
      var before := UndoneAll(h, log[..n], bs);
      UndoneAt(before, log[n], bs, x);
      assert clipped[..n] == ClipAll(log[..n], size, bs);
      SpliceIndex(Replay(h.disk, clipped[..n]), clipped[n].loc, clipped[n].data, x);
      if Misplaced(before.stale, log[n], x, size, bs) {
        BytesBehindKept(h, log[..n], bs, x + bs);
      }
    }
  }

  // The uninstallation is the replay of what is reachable if and only if each byte left misplaced is
  // equal to the one that belongs there.
  lemma UninstallReplaysIff(h: Half, log: seq<Saved>, bs: nat)
    requires bs > 0
    ensures Fits(ClipAll(log, |h.disk|, bs), |h.disk|)
    ensures var right := Replay(h.disk, ClipAll(log, |h.disk|, bs));
      UndoneAll(h, log, bs).disk == right <==>
        forall x: nat :: x + bs < |h.disk| && LeftMisplaced(h.stale, log, x, |h.disk|, bs) ==>
          h.disk[x + bs] == right[x]
  {
    hide UndoneAll, LeftMisplaced, Replay, ClipAll;
    ClipsFit(log, |h.disk|, bs);
    forall x: nat | x < |h.disk|
      ensures LeftMisplaced(h.stale, log, x, |h.disk|, bs) ==> x + bs < |h.disk|
      ensures UndoneAll(h, log, bs).disk[x] ==
        if LeftMisplaced(h.stale, log, x, |h.disk|, bs) then h.disk[x + bs]
        else Replay(h.disk, ClipAll(log, |h.disk|, bs))[x]
    {
      UndoneAllAt(h, log, bs, x);
    }
  }

  // On a device of whole blocks there are no bytes behind them, and the failures do no harm.
  lemma WholeBlocksReplay(h: Half, log: seq<Saved>, bs: nat)
    requires bs > 0 && |h.disk| % bs == 0
    ensures Fits(ClipAll(log, |h.disk|, bs), |h.disk|)
    ensures UndoneAll(h, log, bs).disk == Replay(h.disk, ClipAll(log, |h.disk|, bs))
  {
    hide UndoneAll, LeftMisplaced, Replay, ClipAll;
    UninstallReplaysIff(h, log, bs);
    DivMod(|h.disk|, bs);
    forall x: nat | x + bs < |h.disk|
      ensures !LeftMisplaced(h.stale, log, x, |h.disk|, bs)
    {
      UndoneAllAt(h, log, bs, x);
    }
  }

  // A file of one block of 512 bytes and one byte, and two entries, of which the first is cut off: byte 0
  // becomes byte 512, although no entry names it.
  lemma StaleBlockWritten(disk: seq<byte>)
    requires |disk| == 513 && disk[0] != disk[512]
    ensures var log := [Saved([7, 7], 511), Saved([8], 511)];
      && UndoneAll(Half(disk, false), log, 512).disk[0] == disk[512] != disk[0]
      && forall i :: 0 <= i < |log| ==> !Covers(log[i], 0)
  {
    hide UndoneAll, Replay;
    var bs, e, f := 512, Saved([7, 7], 511), Saved([8], 511);
    assert [e, f][..1] == [e];
    assert StaleAfter(false, [e], |disk|, bs);
    assert Misplaced(true, f, 0, |disk|, bs);
    assert LeftMisplaced(false, [e, f], 0, |disk|, bs);
    UndoneAllAt(Half(disk, false), [e, f], bs, 0);
  }

  lemma BlockIsReal(pos: nat, bs: nat)
    requires bs >= 2 && pos <= NO_BLOCK
    ensures BlockOf(pos, bs) < NO_BLOCK
  {
    PositionInBlock(pos, bs);
    MulMonotone(2, bs, BlockOf(pos, bs));
  }

  // The block behind a chunk that ends where the whole blocks end
  lemma ChunkEndsLast(b: nat, pos: nat, size: nat, bs: nat)
    requires bs > 0 && HasBlock(b, size, bs)
    requires pos <= (b + 1) * bs && !HasBlock(BlockOf(pos, bs), size, bs)
    ensures pos == Whole(size, bs) && BlockOf(pos, bs) == b + 1 && LastBlock(b, size, bs)
  {
    BlockEndReachable(b, size, bs);
    assert (b + 1) * bs == b * bs + bs;
    BlockOfReachableByte(pos, size, bs);
    DivMod(size, bs);
    assert pos == (b + 1) * bs;
    DivUnique(pos, b + 1, 0, bs);
  }

  lemma ReachAt(loc: nat, count: nat, progress: nat, size: nat, bs: nat)
    requires bs > 0 && progress < count
    requires progress == 0 || loc + progress <= Whole(size, bs)
    requires !HasBlock(BlockOf(loc + progress, bs), size, bs)
    ensures ReachCount(loc, count, size, bs) == progress < count
  {
    BlockOfReachableByte(loc + progress, size, bs);
  }

  lemma ReachableWhenDone(loc: nat, count: nat, size: nat, bs: nat)
    requires bs > 0
    ensures Reachable(loc, count, size, bs) <==> count == 0 || loc + count <= Whole(size, bs)
    ensures Reachable(loc, count, size, bs) ==> Fit(loc, count, size)
  {
    DivMod(size, bs);
  }

  lemma ChunkInBlock(pos: nat, n: nat, bs: nat)
    requires bs > 0 && OffsetOf(pos, bs) + n <= bs
    ensures pos + n <= (BlockOf(pos, bs) + 1) * bs
  {
    PositionInBlock(pos, bs);
    assert (BlockOf(pos, bs) + 1) * bs == BlockOf(pos, bs) * bs + bs;
  }

  lemma EmptyWrite(v: seq<byte>, loc: nat, data: seq<byte>)
    ensures data == [] ==> Splice(v, loc, data) == v
  {
  }

  lemma HeldBlock(disk: seq<byte>, b: nat, buffer: seq<byte>, bs: nat)
    requires |buffer| == bs && Holds(disk, b, buffer)
    ensures HasBlock(b, |disk|, bs) && StaleBlock(disk, b, bs) == Overread(disk, b + 1, buffer)
  {
    hide Overread;
  }

  // The fields of a device that stands where h says
  ghost predicate IsHalf(disk: seq<byte>, dirty: bool, cachedBlock: nat, buffer: seq<byte>, bs: nat, h: Half)
    requires bs == |buffer| > 0
  {
    if h.stale then
      && disk == h.disk && !dirty && cachedBlock != NO_BLOCK && LastBlock(cachedBlock, |disk|, bs)
      && HasBlock(cachedBlock, |disk|, bs) && buffer == StaleBlock(disk, cachedBlock, bs)
    else if cachedBlock == NO_BLOCK then !dirty && disk == h.disk
    else
      && HasBlock(cachedBlock, |disk|, bs) && (dirty || Holds(disk, cachedBlock, buffer))
      && WithBlock(disk, cachedBlock, buffer) == h.disk
  }

  lemma UndoneIs(h: Half, e: Saved, bs: nat)
    requires bs > 0
    ensures var k := ReachCount(e.loc, |e.data|, |h.disk|, bs);
      && Fit(e.loc, k, |h.disk|)
      && Undone(h, e, bs) == if e.data == [] then h
         else Half(Partial(Start(h, e.loc, bs), e.loc, e.data, k), 0 < k < |e.data|)
  {
    ReachFits(e.loc, |e.data|, |h.disk|, bs);
    hide Start, Partial, ReachCount;
  }

  // Writing the same bytes again changes nothing.
  lemma WrittenTwice(h: Half, e: Saved, bs: nat)
    requires bs > 0 && e.data != []
    ensures var k, d := ReachCount(e.loc, |e.data|, |h.disk|, bs), Undone(h, e, bs).disk;
      Fit(e.loc, k, |d|) && Partial(d, e.loc, e.data, k) == d
  {
    UndoneIs(h, e, bs);
    hide Start, ReachCount, Undone, Splice;
    var k, start, d := ReachCount(e.loc, |e.data|, |h.disk|, bs), Start(h, e.loc, bs), Undone(h, e, bs).disk;
    forall x | 0 <= x < |d|
      ensures Partial(d, e.loc, e.data, k)[x] == d[x]
    {
      SpliceIndex(start, e.loc, e.data[..k], x);
      SpliceIndex(d, e.loc, e.data[..k], x);
    }
  }

  lemma UndoneEnds(h: Half, log: seq<Saved>, bs: nat)
    requires bs > 0
    ensures UndoneAll(h, log[..0], bs) == h && log[..|log|] == log && EachReachable(log[..0], |h.disk|, bs)
  {
  }

  lemma UndoneOneMore(h: Half, log: seq<Saved>, i: nat, bs: nat)
    requires bs > 0 && i < |log|
    ensures UndoneAll(h, log[..i + 1], bs) == Undone(UndoneAll(h, log[..i], bs), log[i], bs)
    ensures EachReachable(log[..i + 1], |h.disk|, bs) <==>
      EachReachable(log[..i], |h.disk|, bs) && Reachable(log[i].loc, |log[i].data|, |h.disk|, bs)
  {
    hide Reachable, Undone;
    var more := log[..i + 1];
    assert more[..i] == log[..i] && more[i] == log[i];
    assert forall k :: 0 <= k < i ==> more[k] == log[..i][k];
  }

  // One use of the device by bios_install.
  datatype Op = ReadOp(loc: nat, count: nat) | WriteOp(data: seq<byte>, loc: nat) | FlushOp

  // Locations are 64-bit words.
  predicate InFile(op: Op) {
    match op
    case ReadOp(loc, count) => loc <= NO_BLOCK
    case WriteOp(data, loc) => loc <= NO_BLOCK
    case FlushOp => true
  }

  predicate CanPerform(op: Op, size: nat, bs: nat, room: int)
    requires bs > 0
  {
    match op
    case ReadOp(loc, count) => Reachable(loc, count, size, bs)
    case WriteOp(data, loc) => room > 0 && Reachable(loc, |data|, size, bs)
    case FlushOp => true
  }

  // The device after the operation; what does not fit is not written.
  function Performed(op: Op, v: seq<byte>): (r: seq<byte>)
    ensures |r| == |v|
  {
    if op.WriteOp? && Fit(op.loc, |op.data|, |v|) then Splice(v, op.loc, op.data) else v
  }

  lemma UndoesOneOf(log: seq<Saved>, d: seq<byte>, v: seq<byte>, d': seq<byte>, d0: seq<byte>)
    requires Undoes(log, d, d0) && Undoes(log, v, d0)
    ensures OneOf(d', d, v) ==> Undoes(log, d', d0)
  {
    if OneOf(d', d, v) {
      UndoesMixed(log, d, v, d', d0);
    }
  }

  // The log after a write undoes what the write left in the file and in the device.
  lemma LoggedWrite(log: seq<Saved>, d: seq<byte>, v: seq<byte>, d': seq<byte>, d0: seq<byte>, data: seq<byte>,
          loc: nat, bs: nat)
    requires bs > 0 && loc <= NO_BLOCK && Reachable(loc, |data|, |v|, bs)
    requires Fit(loc, |data|, |v|)
    requires Undoes(log, d, d0) && Undoes(log, v, d0) && AllReachable(log, |v|, bs)
    requires OutsideMixed(Saved(data, loc), d, v, d')
    ensures var log' := log + [Saved(Slice(v, loc, |data|), loc)];
      && Undoes(log', d', d0) && Undoes(log', Splice(v, loc, data), d0)
      && AllReachable(log', |v|, bs)
  {
    hide Reachable;
    var e := Saved(Slice(v, loc, |data|), loc);
    assert forall x :: Covers(e, x) <==> Covers(Saved(data, loc), x);
    UndoesAfterWrite(log, e, d, v, d', d0);
    UndoesAfterWrite(log, e, d, v, Splice(v, loc, data), d0);
  }

  predicate CanPerformAll(ops: seq<Op>, size: nat, bs: nat, room: int)
    requires bs > 0
  {
    ops == [] ||
    (CanPerform(ops[0], size, bs, room) &&
     CanPerformAll(ops[1..], size, bs, if ops[0].WriteOp? then room - 1 else room))
  }

  function PerformedAll(ops: seq<Op>, v: seq<byte>): (r: seq<byte>)
    ensures |r| == |v|
  {
    if ops == [] then v else PerformedAll(ops[1..], Performed(ops[0], v))
  }

  // Write i is an operation that writes byte x.
  predicate Writes(op: Op, x: nat) {
    op.WriteOp? && op.loc <= x < op.loc + |op.data|
  }

  // No operation after the first n writes it.
  predicate UnwrittenFrom(ops: seq<Op>, n: nat, x: nat) {
    forall j :: n <= j < |ops| ==> !Writes(ops[j], x)
  }

  // Every byte holds what the last write that covers it put there, or, without one, what it held before.
  ghost predicate LastWritten(ops: seq<Op>, d: seq<byte>, d': seq<byte>) {
    && |d'| == |d|
    && (forall i: nat, x: nat :: i < |ops| && x < |d| && Writes(ops[i], x) && UnwrittenFrom(ops, i + 1, x) ==>
          d'[x] == ops[i].data[x - ops[i].loc])
    && (forall x: nat :: x < |d| && UnwrittenFrom(ops, 0, x) ==> d'[x] == d[x])
  }

  // All ranges that are read or written lie in whole blocks, and the writes are no more than the log holds.
  ghost predicate Performable(ops: seq<Op>, size: nat, bs: nat, room: int)
    requires bs > 0
  {
    && (forall i :: 0 <= i < |ops| && ops[i].ReadOp? ==>
          ops[i].count == 0 || ops[i].loc + ops[i].count <= size - size % bs)
    && (forall i :: 0 <= i < |ops| && ops[i].WriteOp? ==>
          ops[i].data == [] || ops[i].loc + |ops[i].data| <= size - size % bs)
    && Writings(ops) <= room
  }

  function Writings(ops: seq<Op>): nat {
    if ops == [] then 0 else Writings(ops[..|ops| - 1]) + if ops[|ops| - 1].WriteOp? then 1 else 0
  }

  lemma WritingsFirst(ops: seq<Op>)
    requires ops != []
    ensures Writings(ops) == Writings(ops[1..]) + if ops[0].WriteOp? then 1 else 0
    decreases |ops|
  {
    var n := |ops| - 1;
    if n > 0 {
      WritingsFirst(ops[..n]);
      assert ops[..n][1..] == ops[1..][..n - 1];
    }
  }

  lemma ReachableIs(loc: nat, count: nat, size: nat, bs: nat)
    requires bs > 0
    ensures Reachable(loc, count, size, bs) <==> count == 0 || loc + count <= size - size % bs
  {
    DivMod(size, bs);
  }

  lemma {:induction false} CanPerformAllIff(ops: seq<Op>, size: nat, bs: nat, room: nat)
    requires bs > 0
    ensures CanPerformAll(ops, size, bs, room) <==> Performable(ops, size, bs, room)
    decreases |ops|
  {
    if ops != [] {
      var op, rest := ops[0], ops[1..];
      WritingsFirst(ops);
      match op {
        case ReadOp(loc, count) => ReachableIs(loc, count, size, bs);
        case WriteOp(data, loc) => ReachableIs(loc, |data|, size, bs);
        case FlushOp =>
      }
      hide Reachable, Writings;
      if !op.WriteOp? || room > 0 {
        CanPerformAllIff(rest, size, bs, if op.WriteOp? then room - 1 else room);
      }
      assert forall i :: 0 <= i < |rest| ==> rest[i] == ops[i + 1];
      assert forall i :: 0 < i < |ops| ==> ops[i] == rest[i - 1];
    }
  }

  lemma {:induction false} PerformedIsLastWritten(ops: seq<Op>, d: seq<byte>, bs: nat, room: int)
    requires bs > 0 && CanPerformAll(ops, |d|, bs, room)
    ensures LastWritten(ops, d, PerformedAll(ops, d))
    decreases |ops|
  {
    hide Reachable, Splice;
    if ops != [] {
      var op, rest, d1, d' := ops[0], ops[1..], Performed(ops[0], d), PerformedAll(ops, d);
      PerformedIsLastWritten(rest, d1, bs, if op.WriteOp? then room - 1 else room);
      PerformedByte(op, d, bs, room);
      LastWrittenStep(ops, d, d1, d');
    }
  }

  lemma OneIsLastWritten(op: Op, d: seq<byte>, bs: nat, room: int)
    requires bs > 0
    ensures CanPerform(op, |d|, bs, room) ==> LastWritten([op], d, Performed(op, d))
  {
    hide CanPerform, Performed, LastWritten;
    var ops := [op];
    if CanPerform(op, |d|, bs, room) {
      assert CanPerformAll(ops[1..], |d|, bs, if op.WriteOp? then room - 1 else room);
      PerformedIsLastWritten(ops, d, bs, room);
      assert PerformedAll(ops[1..], Performed(op, d)) == Performed(op, d);
    }
  }

  lemma LastWrittenStep(ops: seq<Op>, d: seq<byte>, d1: seq<byte>, d': seq<byte>)
    requires ops != [] && |d1| == |d| && LastWritten(ops[1..], d1, d')
    requires forall x: nat :: x < |d| ==> d1[x] == if Writes(ops[0], x) then ops[0].data[x - ops[0].loc] else d[x]
    ensures LastWritten(ops, d, d')
  {
    forall i: nat, x: nat | i < |ops| && x < |d| && Writes(ops[i], x) && UnwrittenFrom(ops, i + 1, x)
      ensures d'[x] == ops[i].data[x - ops[i].loc]
    {
      UnwrittenRest(ops, i + 1, x);
      if i > 0 {
        assert ops[1..][i - 1] == ops[i];
      }
    }
    forall x: nat | x < |d| && UnwrittenFrom(ops, 0, x)
      ensures d'[x] == d[x]
    {
      assert UnwrittenFrom(ops, 1, x);
      UnwrittenRest(ops, 1, x);
    }
  }

  lemma UnwrittenRest(ops: seq<Op>, n: nat, x: nat)
    requires ops != [] && n > 0
    ensures UnwrittenFrom(ops[1..], n - 1, x) <==> UnwrittenFrom(ops, n, x)
  {
    hide Writes;
    assert forall j :: 0 < j < |ops| ==> ops[j] == ops[1..][j - 1];
  }

  lemma PerformedByte(op: Op, d: seq<byte>, bs: nat, room: int)
    requires bs > 0 && CanPerform(op, |d|, bs, room)
    ensures forall x: nat :: x < |d| ==>
      Performed(op, d)[x] == if Writes(op, x) then op.data[x - op.loc] else d[x]
  {
    if op.WriteOp? {
      ReachableIsFit(op.loc, |op.data|, |d|, bs);
      forall x: nat | x < |d|
        ensures Performed(op, d)[x] == if Writes(op, x) then op.data[x - op.loc] else d[x]
      {
        SpliceIndex(d, op.loc, op.data, x);
      }
    }
  }

  predicate NoEmptyEntry(log: seq<Saved>) {
    forall i :: 0 <= i < |log| ==> log[i].data != []
  }

  predicate NoEmptyWrite(ops: seq<Op>) {
    forall i :: 0 <= i < |ops| ==> ops[i].WriteOp? ==> ops[i].data != []
  }

  lemma NoEmptyEntryMore(log: seq<Saved>, e: Saved)
    ensures NoEmptyEntry(log + [e]) <==> NoEmptyEntry(log) && e.data != []
  {
    assert (log + [e])[|log|] == e;
    assert forall i :: 0 <= i < |log| ==> (log + [e])[i] == log[i];
  }

  lemma NoEmptyWriteMore(ops: seq<Op>, i: nat)
    requires i < |ops|
    ensures NoEmptyWrite(ops[..i + 1]) <==> NoEmptyWrite(ops[..i]) && NoEmptyWrite([ops[i]])
  {
    assert ops[..i + 1] == ops[..i] + [ops[i]];
    assert forall k :: 0 <= k < i ==> ops[..i + 1][k] == ops[..i][k];
    assert ops[..i + 1][i] == [ops[i]][0];
  }

  lemma UndoesNothing(d: seq<byte>, bs: nat, ops: seq<Op>)
    requires bs > 0
    ensures Undoes([], d, d) && AllReachable([], |d|, bs)
    ensures NoEmptyEntry([]) && NoEmptyWrite(ops[..0])
  {
  }

  lemma ReversedReachable(log: seq<Saved>, size: nat, bs: nat)
    requires bs > 0 && AllReachable(log, size, bs)
    ensures AllReachable(Reversed(log), size, bs)
    ensures NoEmptyEntry(Reversed(log)) <==> NoEmptyEntry(log)
  {
    assert forall i :: 0 <= i < |log| ==> Reversed(log)[|log| - 1 - i] == log[i];
  }

  class Device {
    // the file behind `device`
    var disk: seq<byte>
    const blockSize: nat
    const cache: array<byte>
    var dirty: bool
    var cachedBlock: nat
    var uninstalling: bool
    const uninstallData: array<Saved>
    const uninstallDataRev: array<Saved>
    var uninstallDataI: nat

    ghost predicate Shape()
      reads this
    {
      && blockSize >= 2 && cache.Length == blockSize && |disk| < FILE_LIMIT
      && uninstallData.Length == uninstallDataRev.Length == UNINSTALL_DATA_MAX && uninstallDataI <= UNINSTALL_DATA_MAX
      && uninstallData != uninstallDataRev
    }

    // In every state: a cache that is dirty, or says that it holds a block, has a block of the file.
    ghost predicate Usable()
      reads this, cache
    {
      && Shape()
      && (if cachedBlock == NO_BLOCK then !dirty else HasBlock(cachedBlock, |disk|, blockSize))
    }

    // In every state that no failed read has left behind, a clean cache agrees with its block.
    ghost predicate Valid()
      reads this, cache
    {
      && Usable()
      && (cachedBlock == NO_BLOCK || dirty || Holds(disk, cachedBlock, cache[..]))
    }

    // The file overlaid with the cached block
    ghost function Overlay(): (v: seq<byte>)
      requires Usable()
      reads this, cache
      ensures |v| == |disk|
    {
      if cachedBlock == NO_BLOCK then disk else WithBlock(disk, cachedBlock, cache[..])
    }

    // The flat byte array that the device stands for
    ghost function View(): (v: seq<byte>)
      requires Valid()
      reads this, cache
      ensures |v| == |disk|
      ensures !dirty ==> v == disk
    {
      Overlay()
    }

    // What an access that begins in this block starts from. In a valid state it is the flat array; a
    // clean cache that has been read over counts only if it says that it holds this very block.
    ghost function Base(block: nat): (v: seq<byte>)
      requires Usable()
      reads this, cache
      ensures |v| == |disk|
    {
      if dirty || cachedBlock == block then Overlay() else disk
    }

    lemma BaseIsView(block: nat)
      requires Valid()
      ensures Base(block) == View()
    {
    }

    ghost function Log(): seq<Saved>
      requires Shape()
      reads this, uninstallData
    {
      uninstallData[..uninstallDataI]
    }

    method FlushCache()
      requires Usable()
      modifies this`disk, this`dirty
      ensures Usable() && !dirty
      ensures disk == if old(dirty) then old(Overlay()) else old(disk)
      ensures old(Valid()) ==> Valid() && disk == old(View()) && View() == old(View())
      ensures cachedBlock != NO_BLOCK && old(dirty) ==> Holds(disk, cachedBlock, cache[..])
    {
      if !dirty {
        return;
      }
      // set_pos to the block, fwrite of the cache
      disk := WithBlock(disk, cachedBlock, cache[..]);
      dirty := false;
    }

    // device_cache_block. A read past the last whole block fails, after the old block was flushed
    // and with whatever part of the new one there was in the buffer; `cached_block` stays.
    method CacheBlock(block: nat) returns (ok: bool)
      requires Usable() && block < NO_BLOCK
      modifies this`disk, this`dirty, this`cachedBlock, cache
      ensures Usable()
      ensures ok <==> HasBlock(block, |old(disk)|, blockSize)
      ensures OneOf(disk, old(disk), old(Overlay()))
      ensures ok ==> cachedBlock == block && Overlay() == old(Base(block))
      ensures ok && old(Valid()) ==> Valid()
      ensures !ok ==> disk == old(Base(block)) && !dirty && cachedBlock == old(cachedBlock)
      ensures !ok ==> cache[..] == Overread(disk, block, old(cache[..]))
      ensures !ok && old(dirty) ==> Holds(disk, cachedBlock, old(cache[..]))
    {
      hide HasBlock, Holds, WithBlock, Overread;
      if cachedBlock == block {
        return true;
      }
      if dirty {
        FlushCache();
      }
      ok := ReadBlock(block);
      if ok {
        cachedBlock := block;
      }
    }

    // set_pos and fread of one block
    method ReadBlock(block: nat) returns (ok: bool)
      requires Shape()
      modifies cache
      ensures ok <==> HasBlock(block, |disk|, blockSize)
      ensures cache[..] == Overread(disk, block, old(cache[..]))
      ensures ok ==> Holds(disk, block, cache[..]) && WithBlock(disk, block, cache[..]) == disk
    {
      var start := block * blockSize;
      forall k | 0 <= k < blockSize && start + k < |disk| {
        cache[k] := disk[start + k];
      }
      ok := start + blockSize <= |disk|;
      if ok {
        SameBlock(disk, block, cache[..]);
      }
    }

    // The copy of a chunk into the cache, which makes it dirty
    method CopyToCache(offset: nat, chunk: seq<byte>)
      requires Usable() && cachedBlock != NO_BLOCK && offset + |chunk| <= blockSize
      modifies this`dirty, cache
      ensures Valid() && dirty
      ensures cachedBlock * blockSize + offset + |chunk| <= |disk|
      ensures View() == Splice(old(Overlay()), cachedBlock * blockSize + offset, chunk)
    {
      ghost var block := cache[..];
      forall k | 0 <= k < |chunk| {
        cache[offset + k] := chunk[k];
      }
      dirty := true;
      assert cache[..] == block[..offset] + chunk + block[offset + |chunk|..];
      PatchBlock(disk, cachedBlock, block, offset, chunk);
    }

    // One turn of the loop of _device_read: fetch the block of `pos` and copy from it.
    method ReadChunk(pos: nat, n: nat) returns (ok: bool, chunk: seq<byte>)
      requires Valid() && pos <= NO_BLOCK && OffsetOf(pos, blockSize) + n <= blockSize
      modifies this`disk, this`dirty, this`cachedBlock, cache
      ensures Usable()
      ensures ok <==> HasBlock(BlockOf(pos, blockSize), |old(disk)|, blockSize)
      ensures OneOf(disk, old(disk), old(View()))
      ensures ok ==> Valid() && View() == old(View())
      ensures ok ==> pos + n <= |disk| && chunk == View()[pos..pos + n]
      ensures !ok ==> disk == old(View()) && !dirty
    {
      hide HasBlock, Holds, WithBlock, BlockOf, OffsetOf, Splice, OneOf, Overread;
      PositionInBlock(pos, blockSize);
      BlockIsReal(pos, blockSize);
      chunk := [];
      BaseIsView(BlockOf(pos, blockSize));
      ok := CacheBlock(BlockOf(pos, blockSize));
      if ok {
        var offset := OffsetOf(pos, blockSize);
        chunk := cache[offset..offset + n];
        PatchedBlockHolds(disk, cachedBlock, cache[..], offset, n);
      }
    }

    // _device_read. The caller's buffer is what is returned.
    method Read(loc: nat, count: nat) returns (ok: bool, buffer: seq<byte>)
      requires Valid() && loc <= NO_BLOCK
      modifies this`disk, this`dirty, this`cachedBlock, cache
      ensures Usable()
      ensures ok <==> Reachable(loc, count, |old(disk)|, blockSize)
      ensures OneOf(disk, old(disk), old(View()))
      ensures ok ==> Valid() && View() == old(View())
      ensures ok ==> Fit(loc, count, |disk|) && buffer == Slice(View(), loc, count)
      ensures !ok ==> disk == old(View()) && !dirty
    {
      hide HasBlock, Holds, WithBlock, Chunk, BlockOf, OffsetOf, Splice, OneOf, Slice, View, Whole;
      ghost var v, disk0 := View(), disk;
      OneOfSelf(disk0, v);
      buffer := [];
      var progress := 0;
      while progress < count
        invariant 0 <= progress <= count
        invariant Valid() && View() == v
        invariant OneOf(disk, disk0, v) && |disk| == |v|
        invariant progress == 0 || loc + progress <= Whole(|v|, blockSize) <= |v|
        invariant buffer == Slice(v, loc, progress)
      {
        var pos := loc + progress;
        ChunkFacts(pos, count - progress, |v|, blockSize);
        var n := Chunk(pos, count - progress, blockSize);
        ghost var disk1 := disk;
        var copied, chunk := ReadChunk(pos, n);
        OneOfTwice(disk1, disk, disk0, v);
        if !copied {
          return false, [];
        }
        SliceGrows(v, loc, progress, n);
        buffer := buffer + chunk;
        progress := progress + n;
      }
      return true, buffer;
    }

    // One turn of the loop of _device_write: fetch the block of `pos` and patch it.
    method WriteChunk(pos: nat, chunk: seq<byte>) returns (ok: bool)
      requires Usable() && pos <= NO_BLOCK && chunk != [] && OffsetOf(pos, blockSize) + |chunk| <= blockSize
      modifies this`disk, this`dirty, this`cachedBlock, cache
      ensures Usable() && OneOf(disk, old(disk), old(Overlay()))
      ensures ok <==> HasBlock(BlockOf(pos, blockSize), |old(disk)|, blockSize)
      ensures ok ==> Valid() && dirty && cachedBlock == BlockOf(pos, blockSize) && pos + |chunk| <= |disk|
      ensures ok ==> View() == Splice(old(Base(BlockOf(pos, blockSize))), pos, chunk)
      ensures !ok ==> disk == old(Base(BlockOf(pos, blockSize))) && !dirty && cachedBlock == old(cachedBlock)
      ensures !ok ==> cache[..] == Overread(disk, BlockOf(pos, blockSize), old(cache[..]))
      ensures !ok && old(dirty) ==> Holds(disk, cachedBlock, old(cache[..]))
    {
      hide Whole, HasBlock, Holds, WithBlock, BlockOf, OffsetOf, Splice, Overread;
      PositionInBlock(pos, blockSize);
      BlockIsReal(pos, blockSize);
      ok := CacheBlock(BlockOf(pos, blockSize));
      if ok {
        CopyToCache(OffsetOf(pos, blockSize), chunk);
      }
    }

    // Where the loop of _device_write stands: so much is written, on what it started from.
    ghost predicate Written(base: seq<byte>, loc: nat, data: seq<byte>, progress: nat)
      requires progress <= |data|
      reads this, cache
    {
      && Usable() && |base| == |disk| && Fit(loc, progress, |base|)
      && (progress == 0 || loc + progress <= Whole(|disk|, blockSize))
      && (progress < |data| ==> Base(BlockOf(loc + progress, blockSize)) == Partial(base, loc, data, progress))
      && (progress > 0 ==>
            && Valid() && dirty && View() == Partial(base, loc, data, progress)
            && cachedBlock != NO_BLOCK && loc + progress <= (cachedBlock + 1) * blockSize)
    }

    // What a failed write leaves: what was reachable is in the file, and the buffer was read over.
    ghost predicate CutOff(base: seq<byte>, loc: nat, data: seq<byte>, oldBlock: nat)
      reads this, cache
    {
      && Usable() && !dirty && |base| == |disk|
      && var k := ReachCount(loc, |data|, |disk|, blockSize);
      && k < |data| && Fit(loc, k, |disk|) && disk == Partial(base, loc, data, k)
      && (k == 0 ==> cachedBlock == oldBlock)
      && (k > 0 ==> ReadOver())
    }

    ghost predicate ReadOver()
      requires Shape()
      reads this, cache
    {
      && !dirty && cachedBlock != NO_BLOCK && LastBlock(cachedBlock, |disk|, blockSize)
      && HasBlock(cachedBlock, |disk|, blockSize)
      && cache[..] == StaleBlock(disk, cachedBlock, blockSize)
    }

    // One turn of the loop
    method WriteTurn(ghost base: seq<byte>, loc: nat, data: seq<byte>, progress: nat, ghost oldBlock: nat)
      returns (ok: bool, next: nat)
      requires progress < |data| && loc <= NO_BLOCK && Written(base, loc, data, progress)
      requires progress == 0 ==> cachedBlock == oldBlock
      modifies this`disk, this`dirty, this`cachedBlock, cache
      ensures ok ==> progress < next <= |data| && Written(base, loc, data, next)
      ensures ok <==> HasBlock(BlockOf(loc + progress, blockSize), |old(disk)|, blockSize)
      ensures !ok ==> CutOff(base, loc, data, oldBlock)
      ensures Usable() && OneOf(disk, old(disk), old(Overlay()))
    {
      hide HasBlock, Holds, WithBlock, Chunk, OffsetOf, BlockOf, Whole, Splice, Partial, OneOf, Overread, ReachCount,
        StaleBlock, LastBlock, BlockAt;
      var pos := loc + progress;
      ChunkFacts(pos, |data| - progress, |disk|, blockSize);
      var n := Chunk(pos, |data| - progress, blockSize);
      ghost var size, cached, buffer := |disk|, cachedBlock, cache[..];
      ok := WriteChunk(pos, data[progress..progress + n]);
      next := progress + n;
      if ok {
        PartialGrows(base, loc, data, progress, n);
        ChunkInBlock(pos, n, blockSize);
        if next < |data| {
          BaseIsView(BlockOf(loc + next, blockSize));
        }
      } else {
        ReachAt(loc, |data|, progress, size, blockSize);
        if progress > 0 {
          ChunkEndsLast(cached, pos, size, blockSize);
          HeldBlock(disk, cached, buffer, blockSize);
        }
      }
    }

    // The loop of _device_write. Of the file itself, no byte outside the write becomes anything but
    // what the file or the device held there.
    method WriteThrough(data: seq<byte>, loc: nat) returns (ok: bool)
      requires Usable() && loc <= NO_BLOCK
      modifies this`disk, this`dirty, this`cachedBlock, cache
      ensures Usable() && |disk| == |old(disk)|
      ensures ok <==> Reachable(loc, |data|, |old(disk)|, blockSize)
      ensures data == [] ==>
        && disk == old(disk) && dirty == old(dirty)
        && cachedBlock == old(cachedBlock) && cache[..] == old(cache[..])
      ensures ok && data != [] ==>
        && Valid() && Fit(loc, |data|, |disk|)
        && View() == Splice(old(Base(BlockOf(loc, blockSize))), loc, data)
      ensures ok && old(Valid()) ==> Valid() && OutsideMixed(Saved(data, loc), old(disk), old(View()), disk)
      ensures !ok ==> CutOff(old(Base(BlockOf(loc, blockSize))), loc, data, old(cachedBlock))
    {
      hide HasBlock, Holds, WithBlock, BlockOf, Whole, Splice, Partial, Reachable, OutsideMixed, Overlay, ReachCount,
        LastBlock, StaleBlock, Overread, BlockAt;
      ghost var base, disk0, e, oldBlock := Base(BlockOf(loc, blockSize)), disk, Saved(data, loc), cachedBlock;
      ghost var wasValid := Valid();
      if wasValid {
        BaseIsView(BlockOf(loc, blockSize));
        OutsideMixedStart(e, disk0, base);
      }
      PartialEnds(base, loc, data);
      ReachableWhenDone(loc, |data|, |disk|, blockSize);
      var count := |data|;
      var progress := 0;
      ok := true;
      while ok && progress < count
        invariant 0 <= progress <= count && Usable() && |disk| == |base|
        invariant ok ==> Written(base, loc, data, progress)
        invariant progress == 0 && ok ==>
          && disk == disk0 && dirty == old(dirty)
          && cachedBlock == oldBlock && cache[..] == old(cache[..])
        invariant progress == 0 && ok && wasValid ==> Valid() && View() == base
        invariant ok && wasValid ==> OutsideMixed(e, disk0, base, disk)
        invariant !ok ==> progress < count && CutOff(base, loc, data, oldBlock)
        decreases count - progress + if ok then 1 else 0
      {
        ghost var disk1, over := disk, Overlay();
        var next;
        ok, next := WriteTurn(base, loc, data, progress, oldBlock);
        if ok {
          if wasValid {
            assert over == Partial(base, loc, data, progress);
            OutsideMixedStep(disk0, base, loc, data, progress, disk1, disk);
          }
          progress := next;
        }
      }
    }

    // _device_write. The write is done, and the bytes it overwrote are the new last entry of the log.
    // A write of an installation that fails does so before it has changed a byte of the device.
    method Write(data: seq<byte>, loc: nat) returns (ok: bool)
      requires Usable() && loc <= NO_BLOCK && (!uninstalling ==> Valid())
      modifies this`disk, this`dirty, this`cachedBlock, this`uninstallDataI, cache, uninstallData
      ensures Usable() && |disk| == |old(disk)|
      ensures ok <==>
        (uninstalling || |old(Log())| < UNINSTALL_DATA_MAX) && Reachable(loc, |data|, |old(disk)|, blockSize)
      ensures ok && old(Valid()) ==>
        && Valid() && Fit(loc, |data|, |disk|)
        && View() == Splice(old(View()), loc, data)
        && OutsideMixed(Saved(data, loc), old(disk), old(View()), disk)
      ensures ok && data != [] ==>
        && Valid() && Fit(loc, |data|, |disk|)
        && View() == Splice(old(Base(BlockOf(loc, blockSize))), loc, data)
      ensures uninstalling && data == [] ==>
        && disk == old(disk) && dirty == old(dirty)
        && cachedBlock == old(cachedBlock) && cache[..] == old(cache[..])
      ensures ok && !uninstalling ==> Log() == old(Log()) + [Saved(Slice(old(View()), loc, |data|), loc)]
      ensures !ok || uninstalling ==> Log() == old(Log())
      ensures !ok && !uninstalling ==> disk == old(disk) || disk == old(View())
      ensures !ok && uninstalling ==> CutOff(old(Base(BlockOf(loc, blockSize))), loc, data, old(cachedBlock))
    {
      ReachableWhenDone(loc, |data|, |disk|, blockSize);
      hide Reachable, Splice, Slice, OutsideMixed, Holds, HasBlock, WithBlock, CutOff, BlockOf, Whole, Overlay, Base,
        OneOf;
      ghost var disk0, block := disk, BlockOf(loc, blockSize);
      if Valid() {
        BaseIsView(block);
        EmptyWrite(View(), loc, data);
      }
      if !uninstalling {
        ghost var v := View();
        var saved := SaveOld(loc, |data|);
        if !saved {
          OneOfMeans(disk, disk0, v);
          return false;
        }
        BaseIsView(block);
        ghost var disk1 := disk;
        OneOfMeans(disk1, disk0, v);
        ok := WriteThrough(data, loc);
        OutsideMixedFrom(Saved(data, loc), disk0, v, disk1, disk);
        uninstallDataI := uninstallDataI + 1;
      } else {
        ok := WriteThrough(data, loc);
      }
    }

    // The part of _device_write that saves what is to be overwritten, if there is room in the log.
    method SaveOld(loc: nat, count: nat) returns (ok: bool)
      requires Valid() && loc <= NO_BLOCK
      modifies this`disk, this`dirty, this`cachedBlock, cache, uninstallData
      ensures Usable() && Log() == old(Log())
      ensures ok <==> |old(Log())| < UNINSTALL_DATA_MAX && Reachable(loc, count, |old(disk)|, blockSize)
      ensures OneOf(disk, old(disk), old(View())) && |disk| == |old(disk)|
      ensures ok ==> Valid() && View() == old(View())
      ensures ok ==>
        && uninstallDataI < UNINSTALL_DATA_MAX && Fit(loc, count, |disk|)
        && uninstallData[uninstallDataI] == Saved(Slice(View(), loc, count), loc)
    {
      OneOfSelf(disk, View());
      hide Reachable, Slice, Holds, HasBlock, WithBlock, OneOf, Whole, View, Fit;
      if uninstallDataI >= UNINSTALL_DATA_MAX {
        return false;
      }
      var buffer;
      ok, buffer := Read(loc, count);
      if ok {
        uninstallData[uninstallDataI] := Saved(buffer, loc);
      }
      SameLength(disk, old(disk), old(View()));
    }

    method ReverseUninstallData()
      requires Shape()
      modifies uninstallData, uninstallDataRev
      ensures Log() == Reversed(old(Log()))
    {
      ghost var log := Log();
      var i, n := 0, uninstallDataI;
      while i < n
        invariant 0 <= i <= n
        invariant uninstallData[..] == old(uninstallData[..])
        invariant forall k :: n - i <= k < n ==> uninstallDataRev[k] == log[n - 1 - k]
      {
        uninstallDataRev[n - 1 - i] := uninstallData[i];
        i := i + 1;
      }
      forall k | 0 <= k < n {
        uninstallData[k] := uninstallDataRev[k];
      }
      assert forall k :: 0 <= k < n ==> Log()[k] == log[n - 1 - k];
    }

    // The device between two entries of an uninstallation
    ghost predicate Represents(h: Half)
      reads this, cache
    {
      Shape() && IsHalf(disk, dirty, cachedBlock, cache[..], blockSize, h)
    }

    lemma RepresentsMeans(h: Half)
      requires Shape()
      ensures !h.stale ==> (Represents(h) <==> Valid() && View() == h.disk)
      ensures h.stale ==> (Represents(h) <==> Usable() && ReadOver() && disk == h.disk)
    {
      hide WithBlock, Overread, LastBlock, BlockAt, HasBlock;
    }

    lemma BaseIsStart(loc: nat, h: Half)
      requires Represents(h)
      ensures Usable() && Base(BlockOf(loc, blockSize)) == Start(h, loc, blockSize)
    {
      RepresentsMeans(h);
      if !h.stale {
        BaseIsView(BlockOf(loc, blockSize));
      }
      hide WithBlock, StaleBlock, BlockOf, HasBlock, Holds;
    }

    // One entry: it is written, and when that fails the cache is emptied and it is tried once more.
    method UninstallEntry(data: seq<byte>, loc: nat, ghost h: Half) returns (ok: bool)
      requires Represents(h) && uninstalling && loc <= NO_BLOCK
      modifies this`disk, this`dirty, this`cachedBlock, this`uninstallDataI, cache, uninstallData
      ensures Represents(Undone(h, Saved(data, loc), blockSize)) && Log() == old(Log()) && |disk| == |old(disk)|
      ensures ok <==> Reachable(loc, |data|, |old(disk)|, blockSize)
    {
      hide Reachable, Splice, OutsideMixed, Holds, HasBlock, WithBlock, BlockOf, Overlay, ReadOver, ReachCount, Base,
        Whole, Start, Undone, IsHalf, Partial, StaleBlock, LastBlock;
      ghost var e := Saved(data, loc);
      RepresentsMeans(h);
      BaseIsStart(loc, h);
      UndoneIs(h, e, blockSize);
      ok := Write(data, loc);
      if ok {
        if data != [] {
          PartialEnds(Start(h, loc, blockSize), loc, data);
          RepresentsMeans(Undone(h, e, blockSize));
        }
      } else {
        FlushCache();
        dirty := false;
        cachedBlock := NO_BLOCK;
        BaseIsView(BlockOf(loc, blockSize));
        assert disk == Undone(h, e, blockSize).disk;
        ok := Write(data, loc);
        WrittenTwice(h, e, blockSize);
        RepresentsMeans(Undone(h, e, blockSize));
      }
    }

    method FlushHalf(ghost h: Half)
      requires Represents(h)
      modifies this`disk, this`dirty
      ensures Usable() && !dirty && disk == h.disk
    {
      RepresentsMeans(h);
      hide IsHalf;
      FlushCache();
    }

    // uninstall: the cached block is thrown away, dirty or not, and the log is written to the device
    // from its first entry to its last.
    method Uninstall() returns (ok: bool)
      requires Shape() && forall i :: 0 <= i < |Log()| ==> Log()[i].loc <= NO_BLOCK
      modifies this`disk, this`dirty, this`cachedBlock, this`uninstalling, this`uninstallDataI, cache, uninstallData
      ensures Usable() && !dirty && Log() == old(Log())
      ensures disk == UndoneAll(Half(old(disk), false), old(Log()), blockSize).disk
      ensures ok <==> EachReachable(old(Log()), |old(disk)|, blockSize)
    {
      hide Reachable, HasBlock, WithBlock, Holds, Overlay, ReadOver, Undone, UndoneAll, IsHalf, EachReachable;
      uninstalling := true;
      dirty := false;
      cachedBlock := NO_BLOCK;
      ok := true;
      ghost var log, h0 := Log(), Half(disk, false);
      assert forall i :: 0 <= i < |log| ==> log[i].loc <= NO_BLOCK;
      RepresentsMeans(h0);
      UndoneEnds(h0, log, blockSize);
      var i := 0;
      while i < uninstallDataI
        invariant 0 <= i <= uninstallDataI == |log|
        invariant Shape() && uninstalling && |disk| == |h0.disk| && Log() == log
        invariant Represents(UndoneAll(h0, log[..i], blockSize))
        invariant ok <==> EachReachable(log[..i], |h0.disk|, blockSize)
      {
        assert uninstallData[i] == log[i] && log[i].loc <= NO_BLOCK;
        UndoneOneMore(h0, log, i, blockSize);
        var written := UninstallEntry(uninstallData[i].data, uninstallData[i].loc, UndoneAll(h0, log[..i], blockSize));
        if !written {
          ok := false;
        }
        i := i + 1;
      }
      FlushHalf(UndoneAll(h0, log, blockSize));
    }

    // What makes a rollback possible at any moment: the log undoes both the file and the device.
    ghost predicate CanRollBack(d0: seq<byte>)
      requires Valid()
      reads this, cache, uninstallData
    {
      && Undoes(Log(), disk, d0) && Undoes(Log(), View(), d0)
      && AllReachable(Log(), |disk|, blockSize)
    }

    method Perform(op: Op, ghost d0: seq<byte>) returns (ok: bool)
      requires Valid() && !uninstalling && InFile(op) && CanRollBack(d0)
      modifies this`disk, this`dirty, this`cachedBlock, this`uninstallDataI, cache, uninstallData
      ensures Shape() && |disk| == |old(disk)|
      ensures ok <==> CanPerform(op, |old(disk)|, blockSize, UNINSTALL_DATA_MAX - |old(Log())|)
      ensures ok ==> Valid() && CanRollBack(d0)
      ensures ok ==> View() == Performed(op, old(View())) && LastWritten([op], old(View()), View())
      ensures ok ==> |Log()| == |old(Log())| + (if op.WriteOp? then 1 else 0)
      ensures ok ==> (NoEmptyEntry(Log()) <==> NoEmptyEntry(old(Log())) && NoEmptyWrite([op]))
      ensures !ok ==> AllReachable(Log(), |disk|, blockSize) && Undoes(Log(), disk, d0)
    {
      hide Reachable, Splice, Slice, Holds, HasBlock, WithBlock, Fit, Fits, View, Undoes, AllReachable,
        OutsideMixed, OneOf, NoEmptyEntry, LastWritten;
      ghost var log, disk1, v := Log(), disk, View();
      OneIsLastWritten(op, v, blockSize, UNINSTALL_DATA_MAX - |log|);
      match op
      case ReadOp(loc, count) =>
        var read, _ := Read(loc, count);
        ok := read;
        UndoesOneOf(log, disk1, v, disk, d0);
      case WriteOp(data, loc) =>
        ok := Write(data, loc);
        if ok {
          NoEmptyEntryMore(log, Saved(Slice(v, loc, |data|), loc));
          assert [op][0] == op;
          LoggedWrite(log, disk1, v, disk, d0, data, loc, blockSize);
        } else {
          UndoesOneOf(log, disk1, v, disk, d0);
        }
      case FlushOp =>
        FlushCache();
        ok := true;
    }

    // A fresh device: device_init has read the first block.
    constructor (disk: seq<byte>, blockSize: nat)
      requires 2 <= blockSize <= |disk| < FILE_LIMIT
      ensures Valid() && !dirty && !uninstalling
      ensures this.disk == disk && this.blockSize == blockSize && Log() == []
      ensures fresh(cache) && fresh(uninstallData) && fresh(uninstallDataRev)
    {
      this.disk := disk;
      this.blockSize := blockSize;
      cache := new byte[blockSize](i requires 0 <= i < blockSize <= |disk| => disk[i]);
      dirty, uninstalling := false, false;
      cachedBlock := 0;
      uninstallData := new Saved[UNINSTALL_DATA_MAX](_ => Saved([], 0));
      uninstallDataRev := new Saved[UNINSTALL_DATA_MAX](_ => Saved([], 0));
      uninstallDataI := 0;
      new;
      assert cache[..] == disk[0..blockSize];
    }

    // bios_install, seen as the sequence of its uses of the device, after which it either gives up of
    // itself, with whatever the cache holds, or ends with a flush. It is all or nothing: after a failure,
    // and after giving up, the file is byte for byte what it was.
    method Install(ops: seq<Op>, aborts: bool) returns (ok: bool)
      requires Valid() && !dirty && !uninstalling && Log() == []
      requires forall op :: op in ops ==> InFile(op)
      modifies this, cache, uninstallData, uninstallDataRev
      ensures Shape()
      ensures ok <==> !aborts && Performable(ops, |old(disk)|, blockSize, UNINSTALL_DATA_MAX)
      ensures ok ==> LastWritten(ops, old(disk), disk)
      ensures !ok ==> disk == old(disk)
      ensures ok ==> (NoEmptyEntry(Log()) <==> NoEmptyWrite(ops))
      ensures ok ==> Fits(Log(), |disk|) && Replay(disk, Log()) == old(disk) && AllReachable(Log(), |disk|, blockSize)
    {
      hide Reachable, Holds, HasBlock, WithBlock, Undoes, AllReachable, CanPerform, Performed, Replay, Fits,
        NoEmptyEntry, NoEmptyWrite, View, LastWritten, Performable;
      ghost var d0 := disk;
      CanPerformAllIff(ops, |d0|, blockSize, UNINSTALL_DATA_MAX);
      UndoesNothing(d0, blockSize, ops);
      var i := 0;
      ok := true;
      while ok && i < |ops|
        invariant 0 <= i <= |ops|
        invariant Shape() && |disk| == |d0|
        invariant ok ==> Valid() && !uninstalling && CanRollBack(d0)
        invariant ok ==> PerformedAll(ops, d0) == PerformedAll(ops[i..], View())
        invariant CanPerformAll(ops, |d0|, blockSize, UNINSTALL_DATA_MAX) <==>
          ok && CanPerformAll(ops[i..], |d0|, blockSize, UNINSTALL_DATA_MAX - |Log()|)
        invariant !ok ==> AllReachable(Log(), |disk|, blockSize) && Undoes(Log(), disk, d0)
        invariant ok ==> (NoEmptyEntry(Log()) <==> NoEmptyWrite(ops[..i]))
        decreases |ops| - i
      {
        assert ops[i..][1..] == ops[i + 1..];
        NoEmptyWriteMore(ops, i);
        ok := Perform(ops[i], d0);
        i := i + 1;
      }
      if aborts {
        ok := false;
      }
      if ok {
        FlushCache();
        PerformedIsLastWritten(ops, d0, blockSize, UNINSTALL_DATA_MAX);
      }
      ghost var log := Log();
      UndoesMeans(log, disk, d0);
      ReversedReachable(log, |disk|, blockSize);
      assert ok ==> ops[..i] == ops;
      ReverseUninstallData();
      if !ok {
        ReachableLog(Log(), |disk|, blockSize);
        ReachableReplays(disk, Log(), blockSize);
        var undone := Uninstall();
      }
    }

    // uninstall_data and uninstall_data_i as load_uninstall_data leaves them
    method TakeLog(log: seq<Saved>)
      requires Valid() && |log| <= UNINSTALL_DATA_MAX
      modifies uninstallData, this`uninstallDataI
      ensures Valid() && Log() == log
    {
      forall i | 0 <= i < |log| {
        uninstallData[i] := log[i];
      }
      uninstallDataI := |log|;
    }
  }

  // bios-install --uninstall, in a new process: only the file system knows what happened before. Any
  // log that the file holds is written as far as it is reachable, and all of it was if done is true.
  method UninstallFromFile(disk: seq<byte>, blockSize: nat, file: seq<byte>)
    returns (loaded: bool, done: bool, restored: seq<byte>)
    requires 2 <= blockSize <= |disk| < FILE_LIMIT
    ensures loaded <==> LogIn(file).Some?
    ensures loaded ==> restored == UndoneAll(Half(disk, false), LogIn(file).value, blockSize).disk
    ensures done <==> loaded && EachReachable(LogIn(file).value, |disk|, blockSize)
    ensures done ==> Fits(LogIn(file).value, |disk|) && restored == Replay(disk, LogIn(file).value)
    ensures !loaded ==> restored == disk
  {
    hide Replay, Fits, EachReachable, UndoneAll;
    LogInWords(file);
    hide LogIn;
    var log := Load(file);
    if log == None {
      return false, false, disk;
    }
    var device := new Device(disk, blockSize);
    device.TakeLog(log.value);
    done := device.Uninstall();
    if done {
      ReachableReplays(disk, log.value, blockSize);
    }
    return true, done, device.disk;
  }

  lemma StorableLog(log: seq<Saved>, size: nat, bs: nat)
    requires bs > 0 && AllReachable(log, size, bs) && NoEmptyEntry(log) && |log| <= UNINSTALL_DATA_MAX
    requires size < FILE_LIMIT
    ensures Storable(log) && EachReachable(log, size, bs)
  {
    DivMod(size, bs);
  }

  // An installation, and later its removal with nothing but the stored log: every byte is back. So it is
  // when the installation fails or gives up.
  method InstallThenUninstall(disk: seq<byte>, blockSize: nat, ops: seq<Op>, aborts: bool)
    returns (installed: bool, stored: bool, between: seq<byte>, restored: seq<byte>)
    requires 2 <= blockSize <= |disk| < FILE_LIMIT
    requires forall op :: op in ops ==> InFile(op)
    ensures installed <==> !aborts && Performable(ops, |disk|, blockSize, UNINSTALL_DATA_MAX)
    ensures installed ==> LastWritten(ops, disk, between)
    ensures stored <==> installed && NoEmptyWrite(ops)
    ensures !installed || stored ==> restored == disk
  {
    hide Replay, Fits, LogIn, FileOf, Performable, LastWritten, Reachable, AllReachable, UndoneAll, EachReachable,
      Storable;
    var device := new Device(disk, blockSize);
    installed := device.Install(ops, aborts);
    between, stored, restored := device.disk, false, device.disk;
    if installed {
      ghost var log := device.Log();
      var file;
      var entries := device.uninstallData[..device.uninstallDataI];
      stored, file := Store(entries);
      if stored {
        StorableLog(log, |between|, blockSize);
        LogRoundTrip(log, []);
        assert FileOf(log) + [] == FileOf(log);
        var loaded, done;
        loaded, done, restored := UninstallFromFile(between, blockSize, file);
      }
    }
  }
}
