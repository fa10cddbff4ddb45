// clone_page_table and add_to_hhdm of kernel/src/x86_64/paging.c, on one set of page tables.
module Paging {
  import opened Arithmetic
  import opened ClonedTree
  import opened DirectMap
  import opened Options
  import opened PageTableClone
  import opened PageTables

  // Of the tables there were, only those of the tree may differ.
  ghost predicate OthersSpared(mem: Memory, levels: Levels, mem': Memory) {
    forall t :: t in mem && t !in levels ==> t in mem' && mem'[t] == mem[t]
  }

  // The tree grows by tables that were not there.
  ghost predicate TreeGrown(mem: Memory, levels: Levels, mem': Memory, levels': Levels) {
    && OthersSpared(mem, levels, mem')
    && (forall t :: t in mem ==> t in mem')
    && (forall t :: t in mem && t in levels' ==> t in levels)
    && EntriesGrown(mem, mem')
  }

  // The tables that were made are the pages taken from the heap, in its order.
  ghost predicate Taken(mem: Memory, heap: seq<nat>, mem': Memory, heap': seq<nat>) {
    |heap'| <= |heap| &&
    var n := |heap| - |heap'|;
    heap' == heap[n..] && forall t :: t in mem' <==> t in mem || t in heap[..n]
  }

  lemma TakenOneMore(mem0: Memory, heap0: seq<nat>, mem: Memory, heap: seq<nat>, mem': Memory)
    requires Taken(mem0, heap0, mem, heap) && heap != [] && mem'.Keys == mem.Keys + {heap[0]}
    ensures Taken(mem0, heap0, mem', heap[1..])
  {
    var n := |heap0| - |heap|;
    assert heap[0] == heap0[n] && heap[1..] == heap0[n + 1..];
    assert heap0[..n + 1] == heap0[..n] + [heap0[n]];
  }

  lemma TakenSame(mem0: Memory, heap0: seq<nat>, mem: Memory, heap: seq<nat>, mem': Memory)
    requires Taken(mem0, heap0, mem, heap) && mem'.Keys == mem.Keys
    ensures Taken(mem0, heap0, mem', heap)
  {
  }

  lemma TakenNothing(mem: Memory, heap: seq<nat>)
    ensures Taken(mem, heap, mem, heap)
  {
  }

  lemma RootIsThere(mem: Memory, levels: Levels, root: nat)
    requires InTree(mem, levels, root, 4)
    ensures root in levels && TreeGrown(mem, levels, mem, levels)
  {
  }

  lemma TreeGrownStore(mem0: Memory, levels0: Levels, mem: Memory, levels: Levels, t: nat, i: nat, e: Entry)
    requires TreeGrown(mem0, levels0, mem, levels) && t in levels && t in mem && i < ENTRIES
    requires EntryGrown(mem[t][i], e)
    ensures TreeGrown(mem0, levels0, Store(mem, t, i, e), levels)
  {
    assert EntryGrown(EntryIn(mem0, t, i), mem[t][i]);
  }

  lemma TreeGrownMeans(mem0: Memory, levels0: Levels, mem: Memory, levels: Levels)
    requires TreeGrown(mem0, levels0, mem, levels)
    ensures OthersSpared(mem0, levels0, mem) && EntriesGrown(mem0, mem)
  {
  }

  lemma TreeGrownLink(mem0: Memory, levels0: Levels, mem: Memory, levels: Levels, t: nat, i: nat, e: Entry, n: nat,
                      level: nat)
    requires TreeGrown(mem0, levels0, mem, levels) && t in levels && t in mem && i < ENTRIES && n !in mem
    requires EntryGrown(mem[t][i], e)
    ensures TreeGrown(mem0, levels0, Store(mem[n := EMPTY], t, i, e), levels[n := level])
  {
    var mem' := mem[n := EMPTY];
    assert TreeGrown(mem0, levels0, mem', levels[n := level]) by {
      assert forall i :: 0 <= i < ENTRIES ==> EMPTY[i] == ZERO_ENTRY;
    }
    TreeGrownStore(mem0, levels0, mem', levels[n := level], t, i, e);
  }

  // Tables are named by their frame. The source names them by their address in the direct map,
  // frame * 0x1000 + hhdm, and takes the offset away again before it stores a frame in an entry.
  class Kernel {
    const hhdm: nat
    var tables: Memory
    // Page frames that aligned_alloc will hand out, in that order.
    var heap: seq<nat>
    // The tables of the live tree, with their levels
    ghost var levels: Levels

    constructor (hhdm: nat, tables: Memory, heap: seq<nat>, ghost levels: Levels)
      ensures this.hhdm == hhdm && this.tables == tables && this.heap == heap && this.levels == levels
    {
      this.hhdm := hhdm;
      this.tables := tables;
      this.heap := heap;
      this.levels := levels;
    }

    // The allocation of a table: a page with arbitrary contents, or no page.
    method AllocTable() returns (r: Option<nat>)
      modifies this`tables, this`heap
      ensures old(heap) == [] ==> r == None && heap == [] && tables == old(tables)
      ensures old(heap) != [] ==>
                && r == Some(old(heap)[0]) && heap == old(heap)[1..]
                && old(heap)[0] in tables
                && tables == old(tables)[old(heap)[0] := tables[old(heap)[0]]]
    {
      if heap == [] {
        r := None;
      } else {
        var contents: Table := *;
        tables := tables[heap[0] := contents];
        r := Some(heap[0]);
        heap := heap[1..];
      }
    }

    // One entry of one table written
    method StoreEntry(table: nat, idx: nat, entry: Entry)
      requires table in tables && idx < ENTRIES
      modifies this`tables
      ensures tables == old(tables)[table := old(tables)[table][idx := entry]]
    {
      tables := tables[table := tables[table][idx := entry]];
    }

    method CloneLevel(ghost mem0: Memory, orig: nat, copy: nat, level: nat) returns (ok: bool)
      requires 1 <= level <= 4
      requires Complete(mem0, orig, level)
      requires copy in tables && copy !in mem0
      requires Spared(mem0[copy := tables[copy]], tables, copy)
      requires FreshHeap(tables, heap)
      modifies this`tables, this`heap
      ensures FreshHeap(tables, heap) && Spared(old(tables), tables, copy)
      ensures ok <==> |Nodes(mem0, orig, level)| <= |old(heap)|
      ensures ok ==> Copied(mem0, old(tables), old(heap), tables, heap, orig, copy, level, ENTRIES)
      decreases level, 1
    {
      hide Copied, CopiedEntry, Walk, SameWalks, EntryCloned;
      ghost var was, pool := tables, heap;
      CopiedStart(mem0, was, pool, orig, copy, level);
      var idx := 0;
      while idx < ENTRIES
        invariant 0 <= idx <= ENTRIES
        invariant Copied(mem0, was, pool, tables, heap, orig, copy, level, idx)
      {
        CopiedLeavesFreshHeap(mem0, was, pool, tables, heap, orig, copy, level, idx);
        NodesGrow(mem0, orig, level, idx + 1, ENTRIES);
        ghost var mem1, heap1 := tables, heap;
        var entry := tables[orig][idx];
        if Descends(entry, level) {
          var done := CloneSubtree(mem0, entry, copy, idx, level);
          if !done {
            return false;
          }
        } else {
          StoreEntry(copy, idx, entry);
          LeafCopied(mem0, mem1, heap1, tables, entry, copy, level, idx);
        }
        CopiedOneMore(mem0, was, pool, mem1, heap1, tables, heap, orig, copy, level, idx);
        idx := idx + 1;
      }
      CopiedLeavesFreshHeap(mem0, was, pool, tables, heap, orig, copy, level, ENTRIES);
      return true;
    }

    // The branch of the loop that allocates a lower table, links it and descends into it.
    method CloneSubtree(ghost mem0: Memory, entry: Entry, copy: nat, idx: nat, level: nat) returns (ok: bool)
      requires 1 <= level <= 4 && idx < ENTRIES
      requires Descends(entry, level) && Complete(mem0, entry.frame, level - 1)
      requires copy in tables && copy !in mem0
      requires Spared(mem0[copy := tables[copy]], tables, copy)
      requires FreshHeap(tables, heap)
      modifies this`tables, this`heap
      ensures FreshHeap(tables, heap) && Spared(old(tables), tables, copy)
      ensures ok <==> |NodesOf(mem0, entry, level)| <= |old(heap)|
      ensures ok ==> CopiedEntry(mem0, old(tables), old(heap), tables, heap, entry, copy, level, idx)
      decreases level, 0
    {
      hide Copied, CopiedEntry, Walk, SameWalks, EntryCloned;
      var lower := AllocTable();
      if lower == None {
        // The source does not look: it would go on and write through the null pointer.
        return false;
      }
      StoreEntry(copy, idx, entry.(frame := lower.value, high := 0));
      ghost var linked := tables;
      ok := CloneLevel(mem0, entry.frame, lower.value, level - 1);
      if ok {
        SubtreeCopied(mem0, old(tables), old(heap), linked, tables, heap, entry, copy, level, idx);
      }
    }

    // clone_page_table: on success the new CR3 names a tree through which every address means what it
    // meant through the old one. Every table of that tree is a page taken from the heap, each table
    // is a different page, however much the old tree shared, and no old table was written.
    method ClonePageTable(cr3: nat) returns (newCr3: Option<nat>)
      requires Complete(tables, cr3 / PAGE, 4)
      requires FreshHeap(tables, heap)
      modifies this`tables, this`heap
      ensures FreshHeap(tables, heap)
      ensures forall t :: t in old(tables) ==> t in tables && tables[t] == old(tables)[t]
      ensures newCr3.Some? <==> 1 + |Nodes(old(tables), cr3 / PAGE, 4)| <= |old(heap)|
      ensures newCr3.Some? ==>
        var root := newCr3.value / PAGE;
        && newCr3.value % PAGE == cr3 % PAGE
        && SameWalks(old(tables), cr3 / PAGE, tables, root, 4)
        && Complete(tables, root, 4) && Distinct([root] + Nodes(tables, root, 4))
        && [root] + Nodes(tables, root, 4) == old(heap)[..1 + |Nodes(old(tables), cr3 / PAGE, 4)|]
        && heap == old(heap)[1 + |Nodes(old(tables), cr3 / PAGE, 4)|..]
    {
      hide Copied, NodesUpTo, SameWalks;
      var root := AllocTable();
      if root == None {
        return None;
      }
      ghost var was := tables;
      var ok := CloneLevel(old(tables), cr3 / PAGE, root.value, 4);
      if !ok {
        return None;
      }
      newCr3 := Some(root.value * PAGE + cr3 % PAGE);
      assert newCr3.value / PAGE == root.value;
      RootCopied(old(tables), was, old(heap), tables, heap, cr3 / PAGE, 4);
      CopiedLeavesFreshHeap(old(tables), was, old(heap)[1..], tables, heap, cr3 / PAGE, root.value, 4, ENTRIES);
      PoolSplit(old(heap), 1, |Nodes(old(tables), cr3 / PAGE, 4)|);
      assert Complete(tables, root.value, 4) by {
        SameWalksComplete(old(tables), cr3 / PAGE, tables, root.value, 4);
      }
    }

    ghost predicate Valid(root: nat)
      reads this
    {
      ValidState(hhdm, tables, heap, levels, root)
    }

    // What add_to_hhdm makes of the frame in an entry: its address in the direct map,
    // sign-extended; and the frame that the memory behind this address has.
    function FollowedFrame(e: Entry): nat
      requires Addressable(hhdm, e.frame)
    {
      (SignExtend(e.frame * PAGE + hhdm) - hhdm) / PAGE
    }

    lemma FollowingFindsTheTable(e: Entry)
      requires Addressable(hhdm, e.frame)
      ensures FollowedFrame(e) == e.frame
    {
      SignExtendFixes(e.frame * PAGE + hhdm);
    }

    // None stands for a halt. The two halts are met exactly when the walk for the address finds a
    // large page above the level asked for, or a table below it. Tables are named by their frames.
    method AddToHhdm(root: nat, phys: nat, granularity: nat, flags: MemFlags, ghost size: nat) returns (r: Option<nat>)
      requires granularity <= 2
      requires phys < FRAME_LIMIT * PAGE && Canonical(phys + hhdm) && hhdm % Span(granularity + 1) == 0
      requires Valid(root) && MapsOffset(tables, root, hhdm, size)
      requires |heap| >= 3 - granularity
      modifies this
      ensures Valid(root) && MapsOffset(tables, root, hhdm, size)
      ensures r.None? <==> Blocked(old(tables), root, 4, phys + hhdm, granularity + 1)
      ensures r.None? ==> AllWidened(old(tables), tables, root)
      ensures r.Some? ==> r.value == phys + hhdm
      ensures r.Some? ==> OthersWidened(old(tables), tables, root, phys + hhdm, granularity + 1)
      ensures r.Some? ==>
        PageEntered(old(tables), root, tables, root, hhdm, phys + hhdm, granularity + 1, flags)
      ensures r.Some? && phys < size ==> Translate(tables, root, phys + hhdm) == Some(phys)
      ensures ElsewhereKept(old(tables), tables, root, phys + hhdm, granularity + 1)
      ensures OthersSpared(old(tables), old(levels), tables) && EntriesGrown(old(tables), tables)
      ensures Taken(old(tables), old(heap), tables, heap)
    {
      hide ElsewhereKept, StillOpen, Walk, At, Open, Blocked, Widened, Translate, Separate, Descending, AllWidened,
          OthersWidened, PageEntered,
        MapsOffset, ValidState, Finished, FreshHeap, Index, Span, Canonical, SignExtend, SamePage, Addressable,
        InTree, NewLeaf, FollowedFrame, TreeGrown, OthersSpared,
        EntriesGrown, EntryGrown, Taken;
      ghost var mem0 := tables;
      var virt, goal := phys + hhdm, granularity + 1;
      var t, level := root, 4;
      ValidFacts(hhdm, tables, heap, levels, root);
      StartDescending(tables, levels, root, virt, goal);
      KeptAtStart(tables, root, virt, goal);
      EntryTells(mem0, tables, levels, root, virt, goal, root, 4);
      RootIsThere(tables, levels, root);
      TakenNothing(tables, heap);
      while true
        invariant goal <= level <= 4
        invariant Valid(root)
        invariant Descending(mem0, tables, levels, root, virt, goal, t, level)
        invariant ElsewhereKept(mem0, tables, root, virt, goal) && StillOpen(mem0, tables, root, virt, goal, t, level)
        invariant t in tables
        invariant tables[t][Index(virt, level)].present || |heap| >= level - goal
        invariant |heap| >= level - goal - 1
        invariant t in levels && TreeGrown(mem0, old(levels), tables, levels)
        invariant Taken(mem0, old(heap), tables, heap)
        decreases level, if tables[t][Index(virt, level)].present then 0 else 1
      {
        ghost var mem1 := tables;
        var i := Index(virt, level);
        ValidFacts(hhdm, tables, heap, levels, root);
        EntryTells(mem0, tables, levels, root, virt, goal, t, level);
        var entry := tables[t][i];
        var canDescend := level > 1 && !entry.large;
        if entry.present {
          if level == goal && !canDescend {
            KeptByLeaf(mem0, tables, levels, root, virt, goal, t, SetFlags(entry, flags, false));
            PresentLeafFinishes(mem0, tables, levels, root, hhdm, size, virt, goal, t, flags);
            FlagsGrow(entry, flags, false);
            TreeGrownStore(mem0, old(levels), tables, levels, t, i, SetFlags(entry, flags, false));
            tables := Store(tables, t, i, SetFlags(entry, flags, false));
            TreeGrownMeans(mem0, old(levels), tables, levels);
            TakenSame(mem0, old(heap), mem1, heap, tables);
            FinishedFacts(hhdm, mem0, mem1, heap, levels, root, tables, size, virt, goal, flags);
            return Some(virt);
          } else if level != goal && canDescend {
            KeptByOpening(mem0, tables, levels, root, virt, goal, t, level, flags);
            DescendOpened(mem0, tables, levels, root, virt, goal, t, level, flags);
            FollowingFindsTheTable(entry);
            FlagsGrow(entry, flags, true);
            TreeGrownStore(mem0, old(levels), tables, levels, t, i, SetFlags(entry, flags, true));
            tables := Store(tables, t, i, SetFlags(entry, flags, true));
            TakenSame(mem0, old(heap), mem1, heap, tables);
            t, level := FollowedFrame(entry), level - 1;
            EntryTells(mem0, tables, levels, root, virt, goal, t, level);
            ValidAfterStore(hhdm, mem1, heap, levels, root, tables);
          } else {
            AllWidenedMaps(mem0, tables, root, hhdm, size);
            TreeGrownMeans(mem0, old(levels), tables, levels);
            // A table where the page should be, or a page where a table should be: the source halts.
            return None;
          }
        } else if level == goal {
          KeptByLeaf(mem0, tables, levels, root, virt, goal, t, NewLeaf(phys, level, flags));
          FreshLeafFinishes(mem0, tables, levels, root, hhdm, size, phys, goal, t, NewLeaf(phys, level, flags), flags);
          NewLeafGrows(entry, phys, level, flags);
          TreeGrownStore(mem0, old(levels), tables, levels, t, i, NewLeaf(phys, level, flags));
          tables := Store(tables, t, i, NewLeaf(phys, level, flags));
          TreeGrownMeans(mem0, old(levels), tables, levels);
          TakenSame(mem0, old(heap), mem1, heap, tables);
          FinishedFacts(hhdm, mem0, mem1, heap, levels, root, tables, size, virt, goal, flags);
          return Some(virt);
        } else {
          var newTable := heap[0];
          var e := SetFlags(ZERO_ENTRY.(frame := newTable, present := true), flags, true);
          KeptByLinking(mem0, tables, levels, root, virt, goal, t, level, e);
          EmptyTableLinked(mem0, tables, levels, root, virt, goal, t, level, e);
          LinkGrows(entry, newTable, flags);
          TreeGrownLink(mem0, old(levels), tables, levels, t, i, e, newTable, level - 1);
          tables := Store(tables[newTable := EMPTY], t, i, e);
          EntryTells(mem0, tables, levels[newTable := level - 1], root, virt, goal, t, level);
          ValidAfterLink(hhdm, mem1, heap, levels, root, tables, level - 1);
          TakenOneMore(mem0, old(heap), mem1, heap, tables);
          levels := levels[newTable := level - 1];
          heap := heap[1..];
        }
      }
    }

    // The one after the other, as the kernel calls them: the new tree has the page, every other address
    // means what it meant through the old tree, with at least the permissions it had, and the old tree
    // is still there, word for word.
    method CloneAndAdd(cr3: nat, phys: nat, granularity: nat, flags: MemFlags, ghost size: nat)
      returns (newCr3: nat, r: Option<nat>, ghost clone: Memory)
      requires Complete(tables, cr3 / PAGE, 4) && FreshHeap(tables, heap)
      requires forall t :: t in heap ==> Addressable(hhdm, t)
      requires granularity <= 2
      requires phys < FRAME_LIMIT * PAGE && Canonical(phys + hhdm) && hhdm % Span(granularity + 1) == 0
      requires MapsOffset(tables, cr3 / PAGE, hhdm, size)
      requires |heap| >= 1 + |Nodes(tables, cr3 / PAGE, 4)| + 3 - granularity
      modifies this
      ensures newCr3 % PAGE == cr3 % PAGE && Valid(newCr3 / PAGE) && MapsOffset(tables, newCr3 / PAGE, hhdm, size)
      ensures forall t :: t in old(tables) ==> t in tables && tables[t] == old(tables)[t]
      ensures SameWalks(old(tables), cr3 / PAGE, clone, newCr3 / PAGE, 4)
      ensures r.None? <==> Blocked(clone, newCr3 / PAGE, 4, phys + hhdm, granularity + 1)
      ensures r.Some? ==>
        && r.value == phys + hhdm
        && PageEntered(old(tables), cr3 / PAGE, tables, newCr3 / PAGE, hhdm, phys + hhdm, granularity + 1, flags)
      ensures r.Some? && phys < size ==> Translate(tables, newCr3 / PAGE, phys + hhdm) == Some(phys)
      ensures forall va: nat :: Canonical(va) && (r.None? || !SamePage(va, phys + hhdm, granularity + 1)) ==>
        Widened(Walk(old(tables), cr3 / PAGE, 4, va), Walk(tables, newCr3 / PAGE, 4, va))
      ensures SameElsewhere(old(tables), cr3 / PAGE, tables, newCr3 / PAGE, phys + hhdm)
    {
      hide ElsewhereKept, SameElsewhere, Walk, Widened, Nodes, NodesUpTo, Complete, InTree, MapsOffset, PageEntered,
        SamePage, Canonical, Addressable, Translate, Span, Blocked, Distinct, SameWalks, AllWidened, OthersWidened,
        EntriesGrown, Taken;
      var cloned := ClonePageTable(cr3);
      newCr3 := cloned.value;
      var root := newCr3 / PAGE;
      levels := CloneIsSeparate(tables, root, 4);
      MapsOffsetCloned(old(tables), cr3 / PAGE, tables, root, hhdm, size);
      ghost var used := 1 + |Nodes(old(tables), cr3 / PAGE, 4)|;
      assert forall u :: u in levels ==> u in old(heap)[..used] && u in old(heap) && u !in old(tables);
      assert heap == old(heap)[used..];
      assert forall u :: u in heap ==> u in old(heap);
      clone := tables;
      r := AddToHhdm(root, phys, granularity, flags, size);
      WidenedSinceClone(old(tables), cr3 / PAGE, clone, tables, root, phys + hhdm, granularity + 1, r.None?);
      if r.Some? {
        EnteredSinceClone(old(tables), cr3 / PAGE, clone, tables, root, hhdm, phys + hhdm, granularity + 1, flags);
      }
      ElsewhereSinceClone(old(tables), cr3 / PAGE, clone, tables, root, phys + hhdm, granularity + 1);
    }
  }

  // The addresses with another level 4 index have the same walks.
  ghost predicate SameElsewhere(mem: Memory, root: nat, mem': Memory, root': nat, virt: nat) {
    forall va: nat :: Index(va, 4) != Index(virt, 4) ==> Walk(mem', root', 4, va) == Walk(mem, root, 4, va)
  }

  lemma WidenedSinceClone(mem: Memory, root: nat, clone: Memory, mem': Memory, root': nat, virt: nat, level: nat,
                          all: bool)
    requires 1 <= level <= 3 && SameWalks(mem, root, clone, root', 4)
    requires if all then AllWidened(clone, mem', root') else OthersWidened(clone, mem', root', virt, level)
    ensures forall va: nat :: Canonical(va) && (all || !SamePage(va, virt, level)) ==>
      Widened(Walk(mem, root, 4, va), Walk(mem', root', 4, va))
  {
    hide Walk, Widened, Complete, Canonical, SamePage;
    forall va: nat | Canonical(va) && (all || !SamePage(va, virt, level))
      ensures Widened(Walk(mem, root, 4, va), Walk(mem', root', 4, va))
    {
      assert Walk(clone, root', 4, va) == Walk(mem, root, 4, va);
    }
  }

  lemma EnteredSinceClone(mem: Memory, root: nat, clone: Memory, mem': Memory, root': nat, hhdm: nat, virt: nat,
                          level: nat, flags: MemFlags)
    requires 1 <= level <= 3
    requires SameWalks(mem, root, clone, root', 4) && PageEntered(clone, root', mem', root', hhdm, virt, level, flags)
    ensures PageEntered(mem, root, mem', root', hhdm, virt, level, flags)
  {
    hide Walk, EnteredAt, Complete;
    forall va: nat | Canonical(va) && SamePage(va, virt, level)
      ensures EnteredAt(Walk(mem, root, 4, va), Walk(mem', root', 4, va), hhdm, va, level, flags)
    {
      assert Walk(clone, root', 4, va) == Walk(mem, root, 4, va);
    }
  }

  lemma ElsewhereSinceClone(mem: Memory, root: nat, clone: Memory, mem': Memory, root': nat, virt: nat, goal: nat)
    requires 1 <= goal <= 3
    requires SameWalks(mem, root, clone, root', 4) && Complete(clone, root', 4)
    requires ElsewhereKept(clone, mem', root', virt, goal)
    ensures SameElsewhere(mem, root, mem', root', virt)
  {
    assert root' in clone;
    hide Walk, Complete, ElsewhereKept;
    forall va: nat | Index(va, 4) != Index(virt, 4)
      ensures Walk(mem', root', 4, va) == Walk(mem, root, 4, va)
    {
      KeptMeans(clone, mem', root', virt, goal, va);
      assert Walk(clone, root', 4, va) == Walk(mem, root, 4, va);
    }
  }

  // The same walks map the same addresses.
  lemma MapsOffsetCloned(mem: Memory, root: nat, mem': Memory, root': nat, hhdm: nat, size: nat)
    requires SameWalks(mem, root, mem', root', 4)
    ensures MapsOffset(mem', root', hhdm, size) == MapsOffset(mem, root, hhdm, size)
  {
    hide Walk, Complete;
    assert forall va: nat :: Walk(mem', root', 4, va) == Walk(mem, root, 4, va);
    assert forall va: nat :: Translate(mem', root', va) == Translate(mem, root, va);
  }
}
