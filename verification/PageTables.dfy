// Page-table entries, memory holding page tables, and the walk that the processor performs
// (Intel 64 and IA-32 Architectures Software Developer's Manual, volume 3A, section 4.5).
// The kernel code of paging.c is modelled elsewhere, and is judged by the walk of this module.
module PageTables {
  import opened Arithmetic
  import opened Options

  // One 64-bit entry, field by field. `low` holds bits 3-6, `avail` bits 8-11, `frame` bits 12-51
  // (a physical page number), `high` bits 52-62. PageEntryBits ties these fields to the word.
  datatype Entry = Entry(present: bool, writable: bool, user: bool, low: nat, large: bool,
                         avail: nat, frame: nat, high: nat, noExec: bool)

  const ENTRIES := 512
  const ZERO_ENTRY := Entry(false, false, false, 0, false, 0, 0, 0, false)

  type Table = t: seq<Entry> | |t| == ENTRIES witness seq(ENTRIES, _ => ZERO_ENTRY)

  // Physical memory, seen through the pages that hold tables: page number to contents.
  type Memory = map<nat, Table>

  const FRAME_LIMIT := 0x100_0000_0000

  // Bytes that one entry of a table of this level stands for.
  function Span(level: nat): (s: nat)
    requires 1 <= level <= 4
    ensures s > 0
  {
    if level == 1 then 0x1000
    else if level == 2 then 0x20_0000
    else if level == 3 then 0x4000_0000
    else 0x80_0000_0000
  }

  function Index(va: nat, level: nat): (i: nat)
    requires 1 <= level <= 4
    ensures i < ENTRIES
  {
    (va / Span(level)) % ENTRIES
  }

  predicate Canonical(va: nat) {
    va < 0x8000_0000_0000 || 0xFFFF_8000_0000_0000 <= va < WORDS
  }

  // The entry refers to a lower table rather than to a page.
  predicate Descends(e: Entry, level: nat) {
    e.present && level > 1 && !e.large
  }

  // What the processor finds for one virtual address: nothing, a page table outside the memory
  // considered, a reserved bit (a large page at level 4), or a page with the permissions left
  // over after every level of the walk had its say.
  datatype Outcome =
    | NotPresent
    | NoTable
    | ReservedBit
    | Page(leaf: Entry, level: nat, writable: bool, user: bool, exec: bool)

  function Restrict(o: Outcome, e: Entry): Outcome {
    if o.Page? then
      o.(writable := o.writable && e.writable, user := o.user && e.user, exec := o.exec && !e.noExec)
    else o
  }

  function Leaf(e: Entry, level: nat): Outcome {
    if level >= 4 then ReservedBit
    else Page(e, level, e.writable, e.user, !e.noExec)
  }

  function Walk(mem: Memory, t: nat, level: nat, va: nat): Outcome
    requires 1 <= level <= 4
    decreases level
  {
    if t !in mem then NoTable
    else
      var e := mem[t][Index(va, level)];
      if !e.present then NotPresent
      else if Descends(e, level) then Restrict(Walk(mem, e.frame, level - 1, va), e)
      else Leaf(e, level)
  }

  // The physical address a walk ends at: the leaf's page, without the address bits below the
  // page size, and the offset inside that page.
  function PhysicalAddress(o: Outcome, va: nat): Option<nat> {
    if o.Page? && 1 <= o.level <= 3 then
      var page := o.leaf.frame * PAGE;
      Some(page - page % Span(o.level) + va % Span(o.level))
    else None
  }

  function Translate(mem: Memory, root: nat, va: nat): Option<nat> {
    PhysicalAddress(Walk(mem, root, 4, va), va)
  }

  // The frames of all lower tables, depth first, one occurrence for each way of reaching a table.
  function NodesUpTo(mem: Memory, t: nat, level: nat, n: nat): seq<nat>
    requires n <= ENTRIES
    decreases level, n
  {
    if n == 0 || t !in mem then []
    else NodesUpTo(mem, t, level, n - 1) + NodesOf(mem, mem[t][n - 1], level)
  }

  function NodesOf(mem: Memory, e: Entry, level: nat): seq<nat>
    decreases level, 0
  {
    if Descends(e, level) then [e.frame] + NodesUpTo(mem, e.frame, level - 1, ENTRIES) else []
  }

  function Nodes(mem: Memory, t: nat, level: nat): seq<nat> {
    NodesUpTo(mem, t, level, ENTRIES)
  }

  // Every table the walk can come to is in memory.
  ghost predicate Complete(mem: Memory, t: nat, level: nat)
    decreases level
  {
    t in mem && forall i :: 0 <= i < ENTRIES && Descends(mem[t][i], level) ==> Complete(mem, mem[t][i].frame, level - 1)
  }

  ghost predicate Distinct(s: seq<nat>) {
    forall i, j :: 0 <= i < j < |s| ==> s[i] != s[j]
  }

  // Two memories with the same tables below t.
  ghost predicate AgreeOn(mem: Memory, mem': Memory, s: seq<nat>) {
    forall x :: x in s ==> x in mem && x in mem' && mem[x] == mem'[x]
  }

  lemma {:induction false} NodesOfEntry(mem: Memory, t: nat, level: nat, n: nat, i: nat)
    requires t in mem && i < n <= ENTRIES
    ensures forall x :: x in NodesOf(mem, mem[t][i], level) ==> x in NodesUpTo(mem, t, level, n)
    decreases n
  {
    if i < n - 1 {
      NodesOfEntry(mem, t, level, n - 1, i);
    }
  }

  lemma {:induction false} NodesGrow(mem: Memory, t: nat, level: nat, n: nat, m: nat)
    requires n <= m <= ENTRIES
    ensures |NodesUpTo(mem, t, level, n)| <= |NodesUpTo(mem, t, level, m)|
    decreases m
  {
    if n < m {
      NodesGrow(mem, t, level, n, m - 1);
    }
  }

  // The nodes below t are decided by t and by those nodes.
  lemma {:induction false} NodesFrame(mem: Memory, mem': Memory, t: nat, level: nat, n: nat)
    requires n <= ENTRIES
    requires t in mem && t in mem' && mem[t][..n] == mem'[t][..n]
    requires AgreeOn(mem, mem', NodesUpTo(mem, t, level, n))
    ensures NodesUpTo(mem', t, level, n) == NodesUpTo(mem, t, level, n)
    decreases level, n
  {
    if n > 0 {
      assert mem[t][n - 1] == mem[t][..n][n - 1] == mem'[t][n - 1];
      assert mem[t][..n - 1] == mem[t][..n][..n - 1];
      assert mem'[t][..n - 1] == mem'[t][..n][..n - 1];
      NodesFrame(mem, mem', t, level, n - 1);
      var e := mem[t][n - 1];
      if Descends(e, level) {
        assert e.frame in NodesOf(mem, e, level);
        NodesFrame(mem, mem', e.frame, level - 1, ENTRIES);
      }
    }
  }

  lemma {:induction false} WalkFrame(mem: Memory, mem': Memory, t: nat, level: nat, va: nat)
    requires 1 <= level <= 4
    requires t in mem && t in mem' && mem[t] == mem'[t]
    requires AgreeOn(mem, mem', Nodes(mem, t, level))
    ensures Walk(mem', t, level, va) == Walk(mem, t, level, va)
    decreases level
  {
    var i := Index(va, level);
    var e := mem[t][i];
    if Descends(e, level) {
      NodesOfEntry(mem, t, level, ENTRIES, i);
      assert e.frame in NodesOf(mem, e, level);
      WalkFrame(mem, mem', e.frame, level - 1, va);
    }
  }

  // Pages the heap holds are not tables yet, and none of them is handed out twice.
  ghost predicate FreshHeap(mem: Memory, heap: seq<nat>) {
    && Distinct(heap)
    && (forall x :: x in heap ==> x !in mem)
  }

  lemma {:induction false} CompleteFrame(mem: Memory, mem': Memory, t: nat, level: nat)
    requires Complete(mem, t, level)
    requires t in mem' && mem'[t] == mem[t]
    requires AgreeOn(mem, mem', Nodes(mem, t, level))
    ensures Complete(mem', t, level)
    decreases level
  {
    forall i | 0 <= i < ENTRIES && Descends(mem[t][i], level)
      ensures Complete(mem', mem[t][i].frame, level - 1)
    {
      var e := mem[t][i];
      NodesOfEntry(mem, t, level, ENTRIES, i);
      assert e.frame in NodesOf(mem, e, level);
      CompleteFrame(mem, mem', e.frame, level - 1);
    }
  }
}
