// The tree that clone_page_table makes has what add_to_hhdm needs of the tree it extends: no table
// in it is entered from two places. The kernel calls the two in this order.
module ClonedTree {
  import opened PageTables
  import opened DirectMap

  // The level of every table of the tree, when only the first n entries of t are followed.
  function LevelsUpTo(mem: Memory, t: nat, level: nat, n: nat): Levels
    requires n <= ENTRIES
    decreases level, n
  {
    if n == 0 || t !in mem then map[t := level]
    else
      var e := mem[t][n - 1];
      var before := LevelsUpTo(mem, t, level, n - 1);
      if Descends(e, level) then before + LevelsUpTo(mem, e.frame, level - 1, ENTRIES) else before
  }

  // Entry i of table u refers to a table; of the entries of t only the first n count.
  ghost predicate LinkUpTo(mem: Memory, levels: Levels, t: nat, n: nat, u: nat, i: nat) {
    Link(mem, levels, u, i) && (u == t ==> i < n)
  }

  ghost predicate SeparateUpTo(mem: Memory, levels: Levels, t: nat, level: nat, n: nat) {
    && t in levels && levels[t] == level
    && (forall u :: u in levels ==> u in mem && 1 <= levels[u] <= level)
    && (forall u: nat, i: nat :: LinkUpTo(mem, levels, t, n, u, i) ==>
          mem[u][i].frame in levels && mem[u][i].frame != t && levels[mem[u][i].frame] == levels[u] - 1)
    && (forall u: nat, i: nat, u': nat, i': nat ::
          LinkUpTo(mem, levels, t, n, u, i) && LinkUpTo(mem, levels, t, n, u', i') &&
          mem[u][i].frame == mem[u'][i'].frame
          ==> u == u' && i == i')
  }

  lemma {:induction false} DistinctTablesAreSeparate(mem: Memory, t: nat, level: nat, n: nat)
    requires 1 <= level <= 4 && n <= ENTRIES && Complete(mem, t, level)
    requires Distinct([t] + NodesUpTo(mem, t, level, n))
    ensures SeparateUpTo(mem, LevelsUpTo(mem, t, level, n), t, level, n)
    ensures forall u :: u in LevelsUpTo(mem, t, level, n) ==> u in [t] + NodesUpTo(mem, t, level, n)
    decreases level, n
  {
    hide SeparateUpTo, Separate;
    if n == 0 {
      RootAlone(mem, t, level);
    } else {
      var e := mem[t][n - 1];
      var before := [t] + NodesUpTo(mem, t, level, n - 1);
      assert [t] + NodesUpTo(mem, t, level, n) == before + NodesOf(mem, e, level);
      DistinctPart(before, NodesOf(mem, e, level));
      DistinctTablesAreSeparate(mem, t, level, n - 1);
      var a := LevelsUpTo(mem, t, level, n - 1);
      if Descends(e, level) {
        DistinctTablesAreSeparate(mem, e.frame, level - 1, ENTRIES);
        var b := LevelsUpTo(mem, e.frame, level - 1, ENTRIES);
        assert forall u :: u in b ==> u in NodesOf(mem, e, level);
        JoinSeparate(mem, a, b, t, level, n - 1);
      } else {
        SkipEntry(mem, a, t, level, n - 1);
      }
    }
  }

  lemma RootAlone(mem: Memory, t: nat, level: nat)
    requires 1 <= level <= 4 && t in mem
    ensures SeparateUpTo(mem, map[t := level], t, level, 0)
  {
  }

  lemma SkipEntry(mem: Memory, levels: Levels, t: nat, level: nat, n: nat)
    requires n < ENTRIES && t in mem && !Descends(mem[t][n], level)
    requires SeparateUpTo(mem, levels, t, level, n)
    ensures SeparateUpTo(mem, levels, t, level, n + 1)
  {
    assert forall u: nat, i: nat :: LinkUpTo(mem, levels, t, n + 1, u, i) ==> LinkUpTo(mem, levels, t, n, u, i);
  }

  lemma DistinctPart(a: seq<nat>, b: seq<nat>)
    requires Distinct(a + b)
    ensures Distinct(a) && Distinct(b)
    ensures forall x :: x in a ==> x !in b
  {
    assert forall i :: 0 <= i < |a| ==> (a + b)[i] == a[i];
    assert forall i :: 0 <= i < |b| ==> (a + b)[|a| + i] == b[i];
  }

  // A tree and a subtree that hangs from one more of its entries.
  lemma JoinSeparate(mem: Memory, a: Levels, b: Levels, t: nat, level: nat, n: nat)
    requires n < ENTRIES && t in mem && Descends(mem[t][n], level)
    requires SeparateUpTo(mem, a, t, level, n)
    requires SeparateUpTo(mem, b, mem[t][n].frame, level - 1, ENTRIES)
    requires a.Keys !! b.Keys
    ensures SeparateUpTo(mem, a + b, t, level, n + 1)
  {
    var c, both := mem[t][n].frame, a + b;
    forall u: nat, i: nat | LinkUpTo(mem, both, t, n + 1, u, i)
      ensures (u == t && i == n) || LinkUpTo(mem, a, t, n, u, i) || LinkUpTo(mem, b, c, ENTRIES, u, i)
    {
    }
  }

  // The result of clone_page_table is a tree as add_to_hhdm expects it.
  lemma CloneIsSeparate(mem: Memory, root: nat, level: nat) returns (levels: Levels)
    requires 1 <= level <= 4 && Complete(mem, root, level)
    requires Distinct([root] + Nodes(mem, root, level))
    ensures InTree(mem, levels, root, level)
    ensures forall u :: u in levels ==> u in [root] + Nodes(mem, root, level)
  {
    levels := LevelsUpTo(mem, root, level, ENTRIES);
    DistinctTablesAreSeparate(mem, root, level, ENTRIES);
    assert forall u: nat, i: nat :: Link(mem, levels, u, i) ==> LinkUpTo(mem, levels, root, ENTRIES, u, i);
  }
}
