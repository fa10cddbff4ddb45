// What clone_page_table_level of kernel/src/x86_64/paging.c has copied at each point, and what this is
// worth to the processor. The methods are in Paging.
module PageTableClone {
  import opened Options
  import opened PageTables

  ghost predicate AllIn(pages: seq<nat>, mem: Memory) {
    forall x :: x in pages ==> x in mem
  }

  lemma PoolSplit(pool: seq<nat>, used: nat, more: nat)
    requires used + more <= |pool|
    ensures pool[used..][more..] == pool[used + more..]
    ensures pool[..used + more] == pool[..used] + pool[used..][..more]
  {
    assert pool[..used + more] == pool[..used] + pool[used..][..more];
  }

  // The two trees are the same word for word, but for the frames of the lower tables, and the bits 52-62
  // beside these, which the clone clears.
  ghost predicate SameWords(mem0: Memory, orig: nat, mem: Memory, copy: nat, level: nat)
    decreases level
  {
    && orig in mem0 && copy in mem
    && forall i :: 0 <= i < ENTRIES ==>
         var e, n := mem0[orig][i], mem[copy][i];
         if Descends(e, level) then
           n == e.(frame := n.frame, high := 0) && SameWords(mem0, e.frame, mem, n.frame, level - 1)
         else n == e
  }

  lemma {:induction false} SameWordsFrame(mem0: Memory, mem: Memory, mem': Memory, orig: nat, copy: nat, level: nat)
    requires SameWords(mem0, orig, mem, copy, level)
    requires copy in mem' && mem[copy] == mem'[copy] && AgreeOn(mem, mem', Nodes(mem, copy, level))
    ensures SameWords(mem0, orig, mem', copy, level)
    decreases level
  {
    forall i | 0 <= i < ENTRIES && Descends(mem0[orig][i], level)
      ensures SameWords(mem0, mem0[orig][i].frame, mem', mem[copy][i].frame, level - 1)
    {
      var n := mem[copy][i];
      NodesOfEntry(mem, copy, level, ENTRIES, i);
      assert n.frame in NodesOf(mem, n, level);
      SameWordsFrame(mem0, mem, mem', mem0[orig][i].frame, n.frame, level - 1);
    }
  }

  // The copy is all there, and no virtual address tells the two trees apart.
  ghost predicate SameWalks(mem0: Memory, orig: nat, mem: Memory, copy: nat, level: nat)
    requires 1 <= level <= 4
  {
    && SameWords(mem0, orig, mem, copy, level)
    && Complete(mem, copy, level)
    && forall va: nat :: Walk(mem, copy, level, va) == Walk(mem0, orig, level, va)
  }

  // The entry `n` of a copy does the work of the entry `e` of the original.
  ghost predicate EntryCloned(mem0: Memory, mem: Memory, e: Entry, n: Entry, level: nat) {
    if Descends(e, level) && level <= 4 then
      && n == e.(frame := n.frame, high := 0)
      && n.frame in mem
      && SameWalks(mem0, e.frame, mem, n.frame, level - 1)
    else n == e
  }

  lemma SameWalksComplete(mem0: Memory, orig: nat, mem: Memory, copy: nat, level: nat)
    requires 1 <= level <= 4 && SameWalks(mem0, orig, mem, copy, level)
    ensures Complete(mem, copy, level)
  {
  }

  // EntryCloned survives any change that spares the tables below `n`.
  lemma EntryClonedFrame(mem0: Memory, mem: Memory, mem': Memory, e: Entry, n: Entry, level: nat)
    requires 1 <= level <= 4
    requires EntryCloned(mem0, mem, e, n, level)
    requires AgreeOn(mem, mem', NodesOf(mem, n, level))
    ensures EntryCloned(mem0, mem', e, n, level)
  {
    if Descends(e, level) {
      assert n.frame in NodesOf(mem, n, level);
      SameWalksFrame(mem0, mem, mem', e.frame, n.frame, level - 1);
    }
  }

  lemma SameWalksFrame(mem0: Memory, mem: Memory, mem': Memory, orig: nat, copy: nat, level: nat)
    requires 1 <= level <= 4
    requires SameWalks(mem0, orig, mem, copy, level)
    requires copy in mem && copy in mem' && mem[copy] == mem'[copy]
    requires AgreeOn(mem, mem', Nodes(mem, copy, level))
    ensures SameWalks(mem0, orig, mem', copy, level)
  {
    SameWordsFrame(mem0, mem, mem', orig, copy, level);
    CompleteFrame(mem, mem', copy, level);
    forall va: nat
      ensures Walk(mem', copy, level, va) == Walk(mem0, orig, level, va)
    {
      WalkFrame(mem, mem', copy, level, va);
    }
  }

  lemma ClonedTableWalks(mem0: Memory, mem: Memory, orig: nat, copy: nat, level: nat)
    requires 1 <= level <= 4
    requires orig in mem0 && copy in mem
    requires forall j :: 0 <= j < ENTRIES ==> EntryCloned(mem0, mem, mem0[orig][j], mem[copy][j], level)
    ensures SameWalks(mem0, orig, mem, copy, level)
  {
    forall i | 0 <= i < ENTRIES && Descends(mem[copy][i], level)
      ensures Complete(mem, mem[copy][i].frame, level - 1)
    {
      assert EntryCloned(mem0, mem, mem0[orig][i], mem[copy][i], level);
    }
    forall va: nat
      ensures Walk(mem, copy, level, va) == Walk(mem0, orig, level, va)
    {
      var j := Index(va, level);
      assert EntryCloned(mem0, mem, mem0[orig][j], mem[copy][j], level);
    }
  }

  // Of the tables of `was`, only `copy` may differ in `mem`.
  ghost predicate Spared(was: Memory, mem: Memory, copy: nat) {
    && copy in was && copy in mem
    && (forall t :: t in was && t != copy ==> t in mem && mem[t] == was[t])
  }

  // What one call of clone_page_table_level has done, starting from the tables `was` and the free
  // pages `pool`, once it has copied the first n entries: `mem` and `heap` are what it has now.
  ghost predicate Copied(mem0: Memory, was: Memory, pool: seq<nat>, mem: Memory, heap: seq<nat>,
                         orig: nat, copy: nat, level: nat, n: nat)
    requires 1 <= level <= 4 && orig in mem0 && n <= ENTRIES
  {
    var used := |NodesUpTo(mem0, orig, level, n)|;
    && Spared(was, mem, copy)
    && used <= |pool|
    && heap == pool[used..]
    && NodesUpTo(mem, copy, level, n) == pool[..used]
    && AllIn(pool[..used], mem) && FreshHeap(mem, heap)
    && (forall j :: 0 <= j < n ==> EntryCloned(mem0, mem, mem0[orig][j], mem[copy][j], level))
  }

  // What the copy of entry n adds, from tables mem1 and free pages heap1.
  ghost predicate CopiedEntry(mem0: Memory, mem1: Memory, heap1: seq<nat>, mem2: Memory, heap2: seq<nat>,
                              entry: Entry, copy: nat, level: nat, n: nat)
    requires 1 <= level <= 4 && n < ENTRIES
  {
    var more := |NodesOf(mem0, entry, level)|;
    && Spared(mem1, mem2, copy)
    && mem2[copy] == mem1[copy][n := mem2[copy][n]]
    && EntryCloned(mem0, mem2, entry, mem2[copy][n], level)
    && more <= |heap1|
    && heap2 == heap1[more..]
    && NodesOf(mem2, mem2[copy][n], level) == heap1[..more]
    && AllIn(heap1[..more], mem2) && FreshHeap(mem2, heap2)
  }

  lemma CopiedPrefixStays(mem0: Memory, was: Memory, pool: seq<nat>, mem1: Memory, heap1: seq<nat>,
                          mem2: Memory, heap2: seq<nat>, orig: nat, copy: nat, level: nat, n: nat)
    requires 1 <= level <= 4 && orig in mem0 && n < ENTRIES
    requires forall x :: x in pool ==> x !in was
    requires Copied(mem0, was, pool, mem1, heap1, orig, copy, level, n)
    requires CopiedEntry(mem0, mem1, heap1, mem2, heap2, mem0[orig][n], copy, level, n)
    ensures NodesUpTo(mem2, copy, level, n) == NodesUpTo(mem1, copy, level, n)
    ensures forall j :: 0 <= j < n ==> EntryCloned(mem0, mem2, mem0[orig][j], mem2[copy][j], level)
  {
    var used := |NodesUpTo(mem0, orig, level, n)|;
    forall x | x in pool[..used]
      ensures x in mem1 && x in mem2 && mem1[x] == mem2[x]
    {
      assert AllIn(pool[..used], mem1);
    }
    NodesFrame(mem1, mem2, copy, level, n);
    forall j | 0 <= j < n
      ensures EntryCloned(mem0, mem2, mem0[orig][j], mem2[copy][j], level)
    {
      NodesOfEntry(mem1, copy, level, n, j);
      EntryClonedFrame(mem0, mem1, mem2, mem0[orig][j], mem1[copy][j], level);
    }
  }

  lemma CopiedOneMore(mem0: Memory, was: Memory, pool: seq<nat>, mem1: Memory, heap1: seq<nat>,
                      mem2: Memory, heap2: seq<nat>, orig: nat, copy: nat, level: nat, n: nat)
    requires 1 <= level <= 4 && orig in mem0 && n < ENTRIES
    requires forall x :: x in pool ==> x !in was
    requires Copied(mem0, was, pool, mem1, heap1, orig, copy, level, n)
    requires CopiedEntry(mem0, mem1, heap1, mem2, heap2, mem0[orig][n], copy, level, n)
    ensures Copied(mem0, was, pool, mem2, heap2, orig, copy, level, n + 1)
  {
    hide Walk, SameWalks;
    CopiedPrefixStays(mem0, was, pool, mem1, heap1, mem2, heap2, orig, copy, level, n);
    hide EntryCloned, NodesOf;
    PoolSplit(pool, |NodesUpTo(mem0, orig, level, n)|, |NodesOf(mem0, mem0[orig][n], level)|);
  }

  lemma LeafCopied(mem0: Memory, mem1: Memory, heap: seq<nat>, mem2: Memory, entry: Entry, copy: nat, level: nat,
          n: nat)
    requires 1 <= level <= 4 && n < ENTRIES && !Descends(entry, level)
    requires copy in mem1 && mem2 == mem1[copy := mem1[copy][n := entry]] && FreshHeap(mem1, heap)
    ensures CopiedEntry(mem0, mem1, heap, mem2, heap, entry, copy, level, n)
  {
  }

  lemma RootCopied(mem0: Memory, was: Memory, pool: seq<nat>, mem: Memory, heap: seq<nat>,
                   orig: nat, level: nat)
    requires 1 <= level <= 4 && orig in mem0 && pool != []
    requires Copied(mem0, was, pool[1..], mem, heap, orig, pool[0], level, ENTRIES)
    ensures SameWalks(mem0, orig, mem, pool[0], level)
    ensures [pool[0]] + Nodes(mem, pool[0], level) == pool[..1 + |Nodes(mem0, orig, level)|]
  {
    PoolSplit(pool, 1, |Nodes(mem0, orig, level)|);
    ClonedTableWalks(mem0, mem, orig, pool[0], level);
  }

  lemma CopiedStart(mem0: Memory, was: Memory, pool: seq<nat>, orig: nat, copy: nat, level: nat)
    requires 1 <= level <= 4 && orig in mem0 && copy in was && FreshHeap(was, pool)
    ensures Copied(mem0, was, pool, was, pool, orig, copy, level, 0)
  {
  }

  lemma CopiedLeavesFreshHeap(mem0: Memory, was: Memory, pool: seq<nat>, mem: Memory, heap: seq<nat>,
                              orig: nat, copy: nat, level: nat, n: nat)
    requires 1 <= level <= 4 && orig in mem0 && n <= ENTRIES
    requires FreshHeap(was, pool)
    requires Copied(mem0, was, pool, mem, heap, orig, copy, level, n)
    ensures FreshHeap(mem, heap) && Spared(was, mem, copy)
    ensures |NodesUpTo(mem0, orig, level, n)| <= |pool|
    ensures heap == pool[|NodesUpTo(mem0, orig, level, n)|..]
  {
  }

  // The last step of a successful descent: a page taken from the pool was linked into entry n of
  // `copy` and then filled, so that entry is done.
  lemma SubtreeCopied(mem0: Memory, mem1: Memory, pool: seq<nat>, linked: Memory, mem2: Memory, heap2: seq<nat>,
                      entry: Entry, copy: nat, level: nat, n: nat)
    requires 2 <= level <= 4 && n < ENTRIES && pool != []
    requires Descends(entry, level) && entry.frame in mem0 && copy in mem1
    requires FreshHeap(mem1, pool)
    requires pool[0] in linked
    requires linked == mem1[pool[0] := linked[pool[0]]][copy := mem1[copy][n := entry.(frame := pool[0], high := 0)]]
    requires Copied(mem0, linked, pool[1..], mem2, heap2, entry.frame, pool[0], level - 1, ENTRIES)
    ensures CopiedEntry(mem0, mem1, pool, mem2, heap2, entry, copy, level, n)
  {
    hide Walk, NodesUpTo, SameWalks;
    var lower, below := pool[0], |Nodes(mem0, entry.frame, level - 1)|;
    RootCopied(mem0, linked, pool, mem2, heap2, entry.frame, level - 1);
    assert Spared(mem1, mem2, copy) && mem2[copy] == linked[copy];
    PoolSplit(pool, 1, below);
  }
}
