// What add_to_hhdm of kernel/src/x86_64/paging.c does to every walk: it enters one page of physical
// memory into the higher-half direct map, extending the live page tables where they stop short. The
// method is in Paging.
module DirectMap {
  import opened Arithmetic
  import opened Options
  import opened PageTables

  datatype MemFlags = MemFlags(write: bool, exec: bool)

  function SetFlags(e: Entry, flags: MemFlags, stayPermissive: bool): Entry {
    e.(noExec := !(flags.exec || stayPermissive), writable := flags.write || stayPermissive)
  }

  // The macro ADDR_SIGN_EXTEND, which looks at bit 51.
  function SignExtend(addr: nat): nat
    requires addr < WORDS
  {
    var low := addr % 0x10_0000_0000_0000;
    if (addr / 0x8_0000_0000_0000) % 2 == 1 then low + 0xFFF0_0000_0000_0000 else low
  }

  // The macro leaves an address alone exactly when its top 13 bits agree.
  lemma SignExtendFixes(addr: nat)
    requires addr < WORDS
    ensures SignExtend(addr) == addr <==> addr / 0x8_0000_0000_0000 == 0 || addr / 0x8_0000_0000_0000 == 0x1FFF
    ensures Canonical(addr) ==> SignExtend(addr) == addr
  {
    assert addr % 0x10_0000_0000_0000 == addr - (addr / 0x10_0000_0000_0000) * 0x10_0000_0000_0000;
    assert addr / 0x8_0000_0000_0000 / 2 == addr / 0x10_0000_0000_0000;
  }

  // Each table is used at one level and is entered through one entry: `levels` gives the level of
  // every table that belongs to the tree.
  type Levels = map<nat, nat>

  ghost predicate Link(mem: Memory, levels: Levels, t: nat, i: nat) {
    t in levels && t in mem && i < ENTRIES && Descends(mem[t][i], levels[t])
  }

  ghost predicate Separate(mem: Memory, levels: Levels) {
    && (forall t :: t in levels ==> t in mem && 1 <= levels[t] <= 4)
    && (forall t: nat, i: nat :: Link(mem, levels, t, i) ==>
          mem[t][i].frame in levels && levels[mem[t][i].frame] == levels[t] - 1)
    && (forall t1: nat, i1: nat, t2: nat, i2: nat ::
          Link(mem, levels, t1, i1) && Link(mem, levels, t2, i2) && mem[t1][i1].frame == mem[t2][i2].frame
          ==> t1 == t2 && i1 == i2)
  }

  // The table in which the walk for `va` reads its entry of level l.
  function At(mem: Memory, t: nat, level: nat, va: nat, l: nat): Option<nat>
    requires 1 <= l <= level <= 4
    decreases level
  {
    if t !in mem then None
    else if l == level then Some(t)
    else
      var e := mem[t][Index(va, level)];
      if Descends(e, level) then At(mem, e.frame, level - 1, va, l) else None
  }

  // Every entry the walk for `va` reads above level l lets writes and instruction fetches pass.
  ghost predicate Open(mem: Memory, t: nat, level: nat, va: nat, l: nat)
    requires 1 <= l <= level <= 4
    decreases level
  {
    t in mem && (l < level ==>
      var e := mem[t][Index(va, level)];
      Descends(e, level) && e.writable && !e.noExec && Open(mem, e.frame, level - 1, va, l))
  }

  // The walk for `va` meets a large page above level `goal`, or a table below it.
  predicate Blocked(mem: Memory, t: nat, level: nat, va: nat, goal: nat)
    requires 1 <= goal <= level <= 4
    decreases level
  {
    t in mem &&
    var e := mem[t][Index(va, level)];
    e.present &&
    if level == goal then Descends(e, level)
    else Descends(e, level) ==> Blocked(mem, e.frame, level - 1, va, goal)
  }

  // The same page as before, with at least the permissions it had.
  ghost predicate Widened(o: Outcome, o': Outcome) {
    if o.Page? then
      && o'.Page? && o'.leaf == o.leaf && o'.level == o.level && o'.user == o.user
      && (o.writable ==> o'.writable) && (o.exec ==> o'.exec)
    else o' == o
  }

  // --- Walks after one entry of one table changed -----------------------------------------------

  function Store(mem: Memory, t: nat, i: nat, e: Entry): Memory
    requires t in mem && i < ENTRIES
  {
    mem[t := mem[t][i := e]]
  }

  // x is a table of the tree, used at this level.
  ghost predicate InTree(mem: Memory, levels: Levels, x: nat, level: nat) {
    Separate(mem, levels) && x in levels && levels[x] == level
  }

  lemma Child(mem: Memory, levels: Levels, x: nat, level: nat, i: nat)
    requires InTree(mem, levels, x, level) && i < ENTRIES && Descends(mem[x][i], level)
    ensures InTree(mem, levels, mem[x][i].frame, level - 1)
  {
    assert Link(mem, levels, x, i);
  }

  ghost predicate Reads(mem: Memory, x: nat, level: nat, va: nat, t: nat, l: nat, i: nat)
    requires 1 <= level <= 4 && 1 <= l <= 4
  {
    l <= level && At(mem, x, level, va, l) == Some(t) && Index(va, l) == i
  }

  // A walk that does not read the changed entry ends where it ended.
  lemma {:induction false} UnreadStore(mem: Memory, levels: Levels, t: nat, i: nat, e: Entry, x: nat, level: nat,
          va: nat)
    requires InTree(mem, levels, x, level) && t in levels && i < ENTRIES
    requires !Reads(mem, x, level, va, t, levels[t], i)
    ensures Walk(Store(mem, t, i, e), x, level, va) == Walk(mem, x, level, va)
    decreases level
  {
    var j := Index(va, level);
    if Descends(mem[x][j], level) {
      Child(mem, levels, x, level, j);
      UnreadStore(mem, levels, t, i, e, mem[x][j].frame, level - 1, va);
    }
  }

  // Opening an entry above some table costs no address its page or a permission.
  lemma {:induction false} OpeningWidens(mem: Memory, levels: Levels, t: nat, i: nat, flags: MemFlags, x: nat,
          level: nat, va: nat)
    requires InTree(mem, levels, x, level) && Link(mem, levels, t, i)
    ensures Widened(Walk(mem, x, level, va), Walk(Store(mem, t, i, SetFlags(mem[t][i], flags, true)), x, level, va))
    decreases level
  {
    assert x in mem && t in mem;
    hide Separate, Index;
    var j := Index(va, level);
    if Descends(mem[x][j], level) {
      Child(mem, levels, x, level, j);
      OpeningWidens(mem, levels, t, i, flags, mem[x][j].frame, level - 1, va);
    }
  }

  const EMPTY: Table := seq(ENTRIES, _ => ZERO_ENTRY)

  // An empty table below an absent entry maps nothing, as before.
  lemma {:induction false} EmptyTableMapsNothing(mem: Memory, levels: Levels, t: nat, i: nat, e: Entry, x: nat,
          level: nat, va: nat)
    requires InTree(mem, levels, x, level) && t in levels && i < ENTRIES && !mem[t][i].present
    requires e.frame !in mem && Descends(e, levels[t])
    ensures Walk(Store(mem[e.frame := EMPTY], t, i, e), x, level, va) == Walk(mem, x, level, va)
    decreases level
  {
    var j := Index(va, level);
    if Descends(mem[x][j], level) {
      Child(mem, levels, x, level, j);
      EmptyTableMapsNothing(mem, levels, t, i, e, mem[x][j].frame, level - 1, va);
    }
  }

  // An entry that keeps its place in the tree, or that leads nowhere.
  lemma StoreKeepsSeparate(mem: Memory, levels: Levels, t: nat, i: nat, e: Entry)
    requires Separate(mem, levels) && t in levels && i < ENTRIES
    requires Descends(e, levels[t]) ==> Link(mem, levels, t, i) && e.frame == mem[t][i].frame
    ensures Separate(Store(mem, t, i, e), levels)
  {
    var mem' := Store(mem, t, i, e);
    assert forall u: nat, j: nat :: Link(mem', levels, u, j) ==>
        Link(mem, levels, u, j) && mem'[u][j].frame == mem[u][j].frame;
  }

  // --- The path of one address ------------------------------------------------------------------

  // Changes at or below level l leave the path down to level l alone.
  lemma {:induction false} PathStays(mem: Memory, mem': Memory, levels: Levels, x: nat, level: nat, va: nat, l: nat)
    requires InTree(mem, levels, x, level) && 1 <= l <= level
    requires forall u :: u in levels ==> u in mem' && (levels[u] > l ==> mem'[u] == mem[u])
    requires Open(mem, x, level, va, l)
    ensures Open(mem', x, level, va, l) && At(mem', x, level, va, l) == At(mem, x, level, va, l)
    decreases level
  {
    if l < level {
      var j := Index(va, level);
      Child(mem, levels, x, level, j);
      PathStays(mem, mem', levels, mem[x][j].frame, level - 1, va, l);
    }
  }

  // An open path ends in a table of the tree, and goes on through an open entry of that table.
  lemma {:induction false} PathEnd(mem: Memory, levels: Levels, x: nat, level: nat, va: nat, l: nat)
    requires InTree(mem, levels, x, level) && 1 <= l <= level
    requires Open(mem, x, level, va, l)
    ensures At(mem, x, level, va, l).Some?
    ensures var u := At(mem, x, level, va, l).value;
      && InTree(mem, levels, u, l)
      && (l > 1 && Descends(mem[u][Index(va, l)], l) ==>
            At(mem, x, level, va, l - 1) == Some(mem[u][Index(va, l)].frame))
    decreases level
  {
    var j := Index(va, level);
    if l < level {
      Child(mem, levels, x, level, j);
      PathEnd(mem, levels, mem[x][j].frame, level - 1, va, l);
    } else if Descends(mem[x][j], level) {
      Child(mem, levels, x, level, j);
    }
  }

  lemma {:induction false} PathGrows(mem: Memory, levels: Levels, x: nat, level: nat, va: nat, l: nat, u: nat)
    requires InTree(mem, levels, x, level) && 2 <= l <= level
    requires Open(mem, x, level, va, l) && At(mem, x, level, va, l) == Some(u)
    requires u in mem
    requires var e := mem[u][Index(va, l)]; Descends(e, l) && e.writable && !e.noExec
    ensures Open(mem, x, level, va, l - 1)
    ensures At(mem, x, level, va, l - 1) == Some(mem[u][Index(va, l)].frame)
    decreases level
  {
    var j := Index(va, level);
    Child(mem, levels, x, level, j);
    if l < level {
      PathGrows(mem, levels, mem[x][j].frame, level - 1, va, l, u);
    }
  }

  // Along an open path the lower levels alone decide about writing and execution.
  lemma {:induction false} OpenPathDecides(mem: Memory, x: nat, level: nat, va: nat, l: nat, u: nat)
    requires 1 <= l <= level <= 4
    requires Open(mem, x, level, va, l) && At(mem, x, level, va, l) == Some(u)
    requires Walk(mem, u, l, va).Page?
    ensures var o, o' := Walk(mem, u, l, va), Walk(mem, x, level, va);
      o'.Page? && o'.leaf == o.leaf && o'.level == o.level && o'.writable == o.writable && o'.exec == o.exec
    decreases level
  {
    hide Index;
    if l < level {
      OpenPathDecides(mem, mem[x][Index(va, level)].frame, level - 1, va, l, u);
    }
  }

  // Two addresses whose walks come to one table took the same way there.
  lemma {:induction false} OneWayIn(mem: Memory, levels: Levels, x: nat, level: nat, va: nat, va': nat, l: nat, t: nat)
    requires InTree(mem, levels, x, level) && 1 <= l <= level
    requires At(mem, x, level, va, l) == Some(t) && At(mem, x, level, va', l) == Some(t)
    ensures forall k :: l < k <= level ==> Index(va, k) == Index(va', k)
    decreases level - l
  {
    if l < level {
      var u := StepAbove(mem, levels, x, level, va, l, t);
      var u' := StepAbove(mem, levels, x, level, va', l, t);
      assert Link(mem, levels, u, Index(va, l + 1)) && Link(mem, levels, u', Index(va', l + 1));
      OneWayIn(mem, levels, x, level, va, va', l + 1, u);
    }
  }

  lemma {:induction false} StepAbove(mem: Memory, levels: Levels, x: nat, level: nat, va: nat, l: nat, t: nat)
    returns (u: nat)
    requires InTree(mem, levels, x, level) && 1 <= l < level
    requires At(mem, x, level, va, l) == Some(t)
    ensures At(mem, x, level, va, l + 1) == Some(u) && InTree(mem, levels, u, l + 1)
    ensures Descends(mem[u][Index(va, l + 1)], l + 1) && mem[u][Index(va, l + 1)].frame == t
    decreases level
  {
    if l + 1 == level {
      u := x;
    } else {
      Child(mem, levels, x, level, Index(va, level));
      u := StepAbove(mem, levels, mem[x][Index(va, level)].frame, level - 1, va, l, t);
    }
  }

  lemma {:induction false} SameIndicesSamePath(mem: Memory, x: nat, level: nat, va: nat, va': nat, l: nat)
    requires 1 <= l <= level <= 4
    requires forall k :: l < k <= level ==> Index(va, k) == Index(va', k)
    ensures At(mem, x, level, va', l) == At(mem, x, level, va, l)
    ensures Open(mem, x, level, va', l) == Open(mem, x, level, va, l)
    decreases level
  {
    if l < level && x in mem {
      assert Index(va, level) == Index(va', level);
      if Descends(mem[x][Index(va, level)], level) {
        SameIndicesSamePath(mem, mem[x][Index(va, level)].frame, level - 1, va, va', l);
      }
    }
  }

  lemma {:induction false} BlockedBelow(mem: Memory, mem': Memory, levels: Levels, x: nat, level: nat, va: nat,
          goal: nat)
    requires InTree(mem, levels, x, level) && 1 <= goal <= level
    requires forall u :: u in levels && levels[u] <= level ==> u in mem' && mem'[u] == mem[u]
    ensures Blocked(mem', x, level, va, goal) == Blocked(mem, x, level, va, goal)
    decreases level
  {
    var j := Index(va, level);
    if level > goal && Descends(mem[x][j], level) {
      Child(mem, levels, x, level, j);
      BlockedBelow(mem, mem', levels, mem[x][j].frame, level - 1, va, goal);
    }
  }

  // --- Pages of addresses -----------------------------------------------------------------------

  predicate SamePage(va: nat, va': nat, level: nat)
    requires 1 <= level <= 3
  {
    va / Span(level) == va' / Span(level)
  }

  lemma SpanSteps(va: nat)
    ensures va / 0x1000 / 512 == va / 0x20_0000
    ensures va / 0x20_0000 / 512 == va / 0x4000_0000
    ensures va / 0x4000_0000 / 512 == va / 0x80_0000_0000
  {
  }

  lemma TopIndex(q: nat, q': nat)
    requires q < 0x100 || 0x1FF_FF00 <= q < 0x200_0000
    requires q' < 0x100 || 0x1FF_FF00 <= q' < 0x200_0000
    requires q % 512 == q' % 512
    ensures q == q'
  {
  }

  lemma CanonicalTop(va: nat)
    requires Canonical(va)
    ensures var q := va / 0x80_0000_0000; q < 0x100 || 0x1FF_FF00 <= q < 0x200_0000
  {
  }

  lemma QuotientAndDigit(q: nat, q': nat)
    requires q / 512 == q' / 512 && q % 512 == q' % 512
    ensures q == q'
  {
  }

  lemma SamePageSameIndices(va: nat, va': nat, level: nat)
    requires 1 <= level <= 3 && SamePage(va, va', level)
    ensures forall k :: level <= k <= 4 ==> Index(va, k) == Index(va', k)
  {
    SpanSteps(va);
    SpanSteps(va');
    assert Span(1) == 0x1000 && Span(2) == 0x20_0000 && Span(3) == 0x4000_0000 && Span(4) == 0x80_0000_0000;
  }

  // For canonical addresses the indices down to some level name the page of that level.
  lemma SameIndicesSamePage(va: nat, va': nat, level: nat)
    requires 1 <= level <= 3 && Canonical(va) && Canonical(va')
    requires forall k :: level <= k <= 4 ==> Index(va, k) == Index(va', k)
    ensures SamePage(va, va', level)
  {
    SpanSteps(va);
    SpanSteps(va');
    CanonicalTop(va);
    CanonicalTop(va');
    assert Index(va, 4) == Index(va', 4) && Index(va, 3) == Index(va', 3);
    TopIndex(va / 0x80_0000_0000, va' / 0x80_0000_0000);
    QuotientAndDigit(va / 0x4000_0000, va' / 0x4000_0000);
    if level <= 2 {
      assert Index(va, 2) == Index(va', 2);
      QuotientAndDigit(va / 0x20_0000, va' / 0x20_0000);
    }
    if level <= 1 {
      assert Index(va, 1) == Index(va', 1);
      QuotientAndDigit(va / 0x1000, va' / 0x1000);
    }
  }

  // The leaf that add_to_hhdm makes for phys sends every address of its page to that address less
  // the offset of the direct map.
  lemma LeafMapsOffset(phys: nat, hhdm: nat, va: nat, level: nat)
    requires 1 <= level <= 3
    requires hhdm % Span(level) == 0
    requires SamePage(va, phys + hhdm, level)
    ensures hhdm <= va
    ensures var page := (phys - phys % Span(level)) / PAGE * PAGE;
      page - page % Span(level) + va % Span(level) == va - hhdm
  {
    var s := Span(level);
    var h := hhdm / s;
    assert hhdm == h * s;
    assert (phys + hhdm) / s == phys / s + h by {
      AddMultiple(phys, h, level);
    }
    MultipleOfSpan(phys, level);
    assert va == (phys / s + h) * s + va % s;
    assert va - hhdm == phys / s * s + va % s;
  }

  lemma AddMultiple(a: nat, h: nat, level: nat)
    requires 1 <= level <= 3
    ensures (a + h * Span(level)) / Span(level) == a / Span(level) + h
  {
    if level == 1 {
      assert (a + h * 0x1000) / 0x1000 == a / 0x1000 + h;
    } else if level == 2 {
      assert (a + h * 0x20_0000) / 0x20_0000 == a / 0x20_0000 + h;
    } else {
      assert (a + h * 0x4000_0000) / 0x4000_0000 == a / 0x4000_0000 + h;
    }
  }

  lemma MultipleOfSpan(phys: nat, level: nat)
    requires 1 <= level <= 3
    ensures var page := (phys - phys % Span(level)) / PAGE * PAGE;
      page == phys / Span(level) * Span(level) && page % Span(level) == 0
  {
    var q := phys / Span(level);
    WholePages(q);
    assert phys - phys % Span(level) == q * Span(level);
  }

  lemma WholePages(q: nat)
    ensures q * 0x1000 / 0x1000 * 0x1000 == q * 0x1000 && q * 0x1000 % 0x1000 == 0
    ensures q * 0x20_0000 / 0x1000 * 0x1000 == q * 0x20_0000 && q * 0x20_0000 % 0x20_0000 == 0
    ensures q * 0x4000_0000 / 0x1000 * 0x1000 == q * 0x4000_0000 && q * 0x4000_0000 % 0x4000_0000 == 0
  {
    OnePage(q, q * 0x1000);
    OnePage(q * 0x200, q * 0x20_0000);
    OnePage(q * 0x4_0000, q * 0x4000_0000);
  }

  lemma OnePage(n: nat, bytes: nat)
    requires bytes == n * 0x1000
    ensures bytes / 0x1000 * 0x1000 == bytes
  {
  }

  // --- add_to_hhdm --------------------------------------------------------------------------------

  // Every address of the window that is mapped at all is mapped to itself less the offset.
  ghost predicate MapsOffset(mem: Memory, root: nat, hhdm: nat, size: nat) {
    forall va: nat :: Canonical(va) && hhdm <= va < hhdm + size ==>
      Translate(mem, root, va) == None || Translate(mem, root, va) == Some(va - hhdm)
  }

  ghost predicate AllWidened(mem: Memory, mem': Memory, root: nat) {
    forall va: nat :: Widened(Walk(mem, root, 4, va), Walk(mem', root, 4, va))
  }

  // As AllWidened, but for the addresses of one page.
  ghost predicate OthersWidened(mem: Memory, mem': Memory, root: nat, virt: nat, level: nat)
    requires 1 <= level <= 3
  {
    forall va: nat :: Canonical(va) && !SamePage(va, virt, level) ==>
      Widened(Walk(mem, root, 4, va), Walk(mem', root, 4, va))
  }

  // What becomes of an address of the page that is entered. A page that was there keeps its leaf but for
  // W and NX; a new one is no user page, has no bit but those asked for, and maps to the address less the
  // offset.
  predicate EnteredAt(o: Outcome, o': Outcome, hhdm: nat, va: nat, level: nat, flags: MemFlags)
    requires 1 <= level <= 3
  {
    && o'.Page? && o'.level == level && o'.writable == flags.write && o'.exec == flags.exec
    && if o.Page? then
         o.level == level && o'.user == o.user && o'.leaf == o.leaf.(writable := flags.write, noExec := !flags.exec)
       else
         && !o'.user && o'.leaf == Entry(true, flags.write, false, 0, level != 1, 0, o'.leaf.frame, 0, !flags.exec)
         && o'.leaf.frame * PAGE + va % Span(level) + hhdm == va
  }

  // All addresses of the page of virt are entered.
  ghost predicate PageEntered(mem: Memory, root: nat, mem': Memory, root': nat, hhdm: nat, virt: nat, level: nat,
                              flags: MemFlags)
    requires 1 <= level <= 3
  {
    forall va: nat :: Canonical(va) && SamePage(va, virt, level) ==>
      EnteredAt(Walk(mem, root, 4, va), Walk(mem', root', 4, va), hhdm, va, level, flags)
  }

  // They end at the leaf e.
  ghost predicate LeafServes(mem: Memory, root: nat, virt: nat, level: nat, e: Entry)
    requires 1 <= level <= 3
  {
    forall va: nat :: Canonical(va) && SamePage(va, virt, level) ==>
      var o := Walk(mem, root, 4, va);
      o.Page? && o.level == level && o.writable == e.writable && o.exec == !e.noExec && o.leaf == e
  }

  // A page is a user page only if its leaf says so.
  lemma {:induction false} UserInLeaf(mem: Memory, x: nat, level: nat, va: nat)
    requires 1 <= level <= 4
    ensures Walk(mem, x, level, va).Page? && Walk(mem, x, level, va).user ==> Walk(mem, x, level, va).leaf.user
    decreases level
  {
    if x in mem && Descends(mem[x][Index(va, level)], level) {
      UserInLeaf(mem, mem[x][Index(va, level)].frame, level - 1, va);
    }
  }

  // A walk that comes to a table where it finds nothing finds nothing.
  lemma {:induction false} NothingBelow(mem: Memory, x: nat, level: nat, va: nat, l: nat, t: nat)
    requires 1 <= l <= level <= 4 && At(mem, x, level, va, l) == Some(t) && t in mem
    requires !mem[t][Index(va, l)].present
    ensures Walk(mem, x, level, va) == NotPresent
    decreases level
  {
    hide Index;
    if l < level {
      NothingBelow(mem, mem[x][Index(va, level)].frame, level - 1, va, l, t);
    }
  }

  // An entry of which W and NX alone change leaves every page the user page that it was.
  lemma {:induction false} FlagsKeepUser(mem: Memory, levels: Levels, t: nat, i: nat, e: Entry, x: nat, level: nat,
          va: nat)
    requires InTree(mem, levels, x, level) && t in levels && i < ENTRIES && t in mem
    requires e == mem[t][i].(writable := e.writable, noExec := e.noExec)
    ensures var o, o' := Walk(mem, x, level, va), Walk(Store(mem, t, i, e), x, level, va);
      o.Page? ==> o'.Page? && o'.user == o.user
    decreases level
  {
    var j := Index(va, level);
    assert x in mem;
    hide Separate, Index;
    if Descends(mem[x][j], level) {
      Child(mem, levels, x, level, j);
      FlagsKeepUser(mem, levels, t, i, e, mem[x][j].frame, level - 1, va);
    }
  }

  // What add_to_hhdm may make of an entry: nothing but W and NX changes where something was present, and
  // what is new has none of the other bits.
  predicate EntryGrown(e: Entry, e': Entry) {
    if e.present then e' == e.(writable := e'.writable, noExec := e'.noExec)
    else e' == e || (e'.present && !e'.user && e'.low == 0 && e'.avail == 0 && e'.high == 0)
  }

  function EntryIn(mem: Memory, t: nat, i: nat): Entry
    requires i < ENTRIES
  {
    if t in mem then mem[t][i] else ZERO_ENTRY
  }

  ghost predicate EntriesGrown(mem: Memory, mem': Memory) {
    forall t: nat, i: nat :: t in mem' && i < ENTRIES ==> EntryGrown(EntryIn(mem, t, i), mem'[t][i])
  }

  lemma WidenedKeepsTranslation(o: Outcome, o': Outcome, va: nat)
    requires Widened(o, o')
    ensures PhysicalAddress(o', va) == PhysicalAddress(o, va)
  {
  }

  lemma AllWidenedTwice(mem: Memory, mem': Memory, mem'': Memory, root: nat)
    requires AllWidened(mem, mem', root) && AllWidened(mem', mem'', root)
    ensures AllWidened(mem, mem'', root)
  {
    forall va: nat
      ensures Widened(Walk(mem, root, 4, va), Walk(mem'', root, 4, va))
    {
      assert Widened(Walk(mem, root, 4, va), Walk(mem', root, 4, va));
      assert Widened(Walk(mem', root, 4, va), Walk(mem'', root, 4, va));
    }
  }

  // Where the loop of add_to_hhdm stands: in table t of this level, with nothing lost for any address.
  ghost predicate Descending(mem0: Memory, mem: Memory, levels: Levels, root: nat, virt: nat, goal: nat, t: nat,
          level: nat)
    requires 1 <= goal <= level <= 4
  {
    && InTree(mem, levels, root, 4)
    && InTree(mem, levels, t, level)
    && At(mem, root, 4, virt, level) == Some(t)
    && Open(mem, root, 4, virt, level)
    && AllWidened(mem0, mem, root)
    && Blocked(mem0, root, 4, virt, goal) == Blocked(mem, t, level, virt, goal)
  }

  // set_flags and descend.
  lemma DescendOpened(mem0: Memory, mem: Memory, levels: Levels, root: nat, virt: nat, goal: nat, t: nat,
          level: nat, flags: MemFlags)
    requires 1 <= goal < level <= 4
    requires Descending(mem0, mem, levels, root, virt, goal, t, level)
    requires Descends(mem[t][Index(virt, level)], level)
    ensures var i := Index(virt, level);
      Descending(mem0, Store(mem, t, i, SetFlags(mem[t][i], flags, true)), levels, root, virt, goal,
          mem[t][i].frame, level - 1)
  {
    hide Walk, Widened, Blocked, At, Open;
    var i := Index(virt, level);
    var mem' := Store(mem, t, i, SetFlags(mem[t][i], flags, true));
    assert Link(mem, levels, t, i);
    Child(mem, levels, t, level, i);
    StoreKeepsSeparate(mem, levels, t, i, SetFlags(mem[t][i], flags, true));
    PathStays(mem, mem', levels, root, 4, virt, level);
    PathGrows(mem', levels, root, 4, virt, level, t);
    forall va: nat
      ensures Widened(Walk(mem, root, 4, va), Walk(mem', root, 4, va))
    {
      OpeningWidens(mem, levels, t, i, flags, root, 4, va);
    }
    AllWidenedTwice(mem0, mem, mem', root);
    BlockedBelow(mem, mem', levels, mem[t][i].frame, level - 1, virt, goal);
    assert Blocked(mem, t, level, virt, goal) == Blocked(mem, mem[t][i].frame, level - 1, virt, goal) by {
      BlockedStep(mem, t, level, virt, goal);
    }
  }

  // The loop is blocked exactly where the processor's walk ends at a large page above the level asked for,
  // or goes on below it.
  lemma {:induction false} BlockedIff(mem: Memory, levels: Levels, t: nat, level: nat, va: nat, goal: nat)
    requires 1 <= goal <= 3 && goal <= level && InTree(mem, levels, t, level)
    ensures var o := Walk(mem, t, level, va);
      Blocked(mem, t, level, va, goal) <==>
        o.ReservedBit? || (o.Page? && o.level > goal) || (goal > 1 && At(mem, t, level, va, goal - 1) != None)
    decreases level
  {
    var j := Index(va, level);
    assert t in mem;
    if Descends(mem[t][j], level) {
      Child(mem, levels, t, level, j);
      PageBelow(mem, mem[t][j].frame, level - 1, va);
      if level > goal {
        BlockedIff(mem, levels, mem[t][j].frame, level - 1, va, goal);
      } else {
        assert mem[t][j].frame in mem;
      }
    }
  }

  lemma {:induction false} PageBelow(mem: Memory, x: nat, level: nat, va: nat)
    requires 1 <= level <= 4
    ensures var o := Walk(mem, x, level, va);
      (o.Page? ==> o.level <= level) && (o.ReservedBit? ==> level == 4)
    decreases level
  {
    if x in mem && Descends(mem[x][Index(va, level)], level) {
      PageBelow(mem, mem[x][Index(va, level)].frame, level - 1, va);
    }
  }

  lemma BlockedStep(mem: Memory, t: nat, level: nat, virt: nat, goal: nat)
    requires 1 <= goal < level <= 4 && t in mem
    requires Descends(mem[t][Index(virt, level)], level)
    ensures Blocked(mem, t, level, virt, goal) == Blocked(mem, mem[t][Index(virt, level)].frame, level - 1, virt, goal)
  {
  }

  // Link a new, empty table into an absent entry; the next turn of the loop descends into it.
  lemma EmptyTableLinked(mem0: Memory, mem: Memory, levels: Levels, root: nat, virt: nat, goal: nat, t: nat,
          level: nat, e: Entry)
    requires 1 <= goal < level <= 4
    requires Descending(mem0, mem, levels, root, virt, goal, t, level)
    requires !mem[t][Index(virt, level)].present
    requires e.frame !in mem && Descends(e, level)
    ensures Descending(mem0, Store(mem[e.frame := EMPTY], t, Index(virt, level), e), levels[e.frame := level - 1],
        root, virt, goal, t, level)
  {
    hide Walk, Widened, At, Open;
    var i := Index(virt, level);
    var mem', levels' := Store(mem[e.frame := EMPTY], t, i, e), levels[e.frame := level - 1];
    EmptyTableKeepsSeparate(mem, levels, t, i, e);
    PathStays(mem, mem', levels, root, 4, virt, level);
    forall va: nat
      ensures Widened(Walk(mem, root, 4, va), Walk(mem', root, 4, va))
    {
      EmptyTableMapsNothing(mem, levels, t, i, e, root, 4, va);
      WidenedSelf(Walk(mem, root, 4, va));
    }
    AllWidenedTwice(mem0, mem, mem', root);
    assert !Blocked(mem, t, level, virt, goal) && !Blocked(mem', e.frame, level - 1, virt, goal);
    BlockedStep(mem', t, level, virt, goal);
  }

  lemma WidenedSelf(o: Outcome)
    ensures Widened(o, o)
  {
  }

  lemma EmptyTableKeepsSeparate(mem: Memory, levels: Levels, t: nat, i: nat, e: Entry)
    requires Separate(mem, levels) && t in levels && levels[t] > 1 && i < ENTRIES && !mem[t][i].present
    requires e.frame !in mem && Descends(e, levels[t])
    ensures Separate(Store(mem[e.frame := EMPTY], t, i, e), levels[e.frame := levels[t] - 1])
  {
    var mem', levels' := Store(mem[e.frame := EMPTY], t, i, e), levels[e.frame := levels[t] - 1];
    assert forall u: nat, j: nat :: Link(mem', levels', u, j) ==>
      (u == t && j == i) || (Link(mem, levels, u, j) && mem'[u][j].frame == mem[u][j].frame);
  }

  // The loop reached the level asked for, and stores a leaf there.
  lemma LeafStored(mem0: Memory, mem: Memory, levels: Levels, root: nat, virt: nat, goal: nat, t: nat, e: Entry)
    requires 1 <= goal <= 3 && Canonical(virt)
    requires Descending(mem0, mem, levels, root, virt, goal, t, goal)
    requires e.present && !Descends(e, goal)
    ensures var mem' := Store(mem, t, Index(virt, goal), e);
      && InTree(mem', levels, root, 4)
      && OthersWidened(mem0, mem', root, virt, goal)
      && LeafServes(mem', root, virt, goal, e)
  {
    hide Widened;
    var i := Index(virt, goal);
    var mem' := Store(mem, t, i, e);
    StoreKeepsSeparate(mem, levels, t, i, e);
    PathStays(mem, mem', levels, root, 4, virt, goal);
    forall va: nat | Canonical(va) && !SamePage(va, virt, goal)
      ensures Widened(Walk(mem0, root, 4, va), Walk(mem', root, 4, va))
    {
      hide Walk;
      if Reads(mem, root, 4, va, t, goal, i) {
        OneWayIn(mem, levels, root, 4, va, virt, goal, t);
        SameIndicesSamePage(va, virt, goal);
        assert false;
      }
      UnreadStore(mem, levels, t, i, e, root, 4, va);
    }
    forall va: nat | Canonical(va) && SamePage(va, virt, goal)
      ensures var o := Walk(mem', root, 4, va);
        o.Page? && o.level == goal && o.writable == e.writable && o.exec == !e.noExec && o.leaf == e
    {
      hide Blocked;
      LeafFound(mem', root, virt, goal, t, va);
    }
  }

  lemma LeafFound(mem: Memory, root: nat, virt: nat, goal: nat, t: nat, va: nat)
    requires 1 <= goal <= 3 && SamePage(va, virt, goal)
    requires At(mem, root, 4, virt, goal) == Some(t) && Open(mem, root, 4, virt, goal)
    requires t in mem
    requires var e := mem[t][Index(virt, goal)]; e.present && !Descends(e, goal)
    ensures var o, e := Walk(mem, root, 4, va), mem[t][Index(virt, goal)];
      o.Page? && o.level == goal && o.writable == e.writable && o.exec == !e.noExec && o.leaf == e
  {
    hide At, Open;
    SamePageSameIndices(va, virt, goal);
    SameIndicesSamePath(mem, root, 4, virt, va, goal);
    assert Index(va, goal) == Index(virt, goal);
    OpenPathDecides(mem, root, 4, va, goal, t);
  }

  lemma LeafAddress(o: Outcome, phys: nat, hhdm: nat, va: nat, goal: nat, e: Entry)
    requires 1 <= goal <= 3 && hhdm % Span(goal) == 0 && SamePage(va, phys + hhdm, goal)
    requires o.Page? && o.level == goal && o.leaf == e && e.frame == (phys - phys % Span(goal)) / PAGE
    ensures hhdm <= va && PhysicalAddress(o, va) == Some(va - hhdm)
  {
    LeafMapsOffset(phys, hhdm, va, goal);
  }

  lemma SamePageItself(va: nat, level: nat)
    requires 1 <= level <= 3
    ensures SamePage(va, va, level)
  {
  }

  // A page entered where nothing was present maps its addresses to themselves less the offset.
  lemma FreshLeafMaps(mem0: Memory, mem: Memory, root: nat, hhdm: nat, size: nat, phys: nat, goal: nat, e: Entry)
    requires 1 <= goal <= 3 && hhdm % Span(goal) == 0
    requires MapsOffset(mem0, root, hhdm, size)
    requires OthersWidened(mem0, mem, root, phys + hhdm, goal)
    requires e.frame == (phys - phys % Span(goal)) / PAGE
    requires LeafServes(mem, root, phys + hhdm, goal, e)
    ensures MapsOffset(mem, root, hhdm, size)
    ensures Canonical(phys + hhdm) ==> Translate(mem, root, phys + hhdm) == Some(phys)
  {
    hide Walk, Span, SamePage, Canonical, PhysicalAddress, Widened;
    SamePageItself(phys + hhdm, goal);
    forall va: nat | Canonical(va)
      ensures SamePage(va, phys + hhdm, goal) ==> hhdm <= va && Translate(mem, root, va) == Some(va - hhdm)
      ensures !SamePage(va, phys + hhdm, goal) ==> Translate(mem, root, va) == Translate(mem0, root, va)
    {
      if SamePage(va, phys + hhdm, goal) {
        LeafAddress(Walk(mem, root, 4, va), phys, hhdm, va, goal, e);
      } else {
        WidenedKeepsTranslation(Walk(mem0, root, 4, va), Walk(mem, root, 4, va), va);
      }
    }
  }

  // A page that was present, and had only its permissions changed, maps what it mapped.
  lemma PresentLeafMaps(mem0: Memory, mem1: Memory, mem: Memory, root: nat, hhdm: nat, size: nat, virt: nat,
          goal: nat, e: Entry)
    requires 1 <= goal <= 3
    requires MapsOffset(mem0, root, hhdm, size) && AllWidened(mem0, mem1, root)
    requires OthersWidened(mem0, mem, root, virt, goal)
    requires forall va: nat :: Canonical(va) && SamePage(va, virt, goal) ==>
      var o1, o := Walk(mem1, root, 4, va), Walk(mem, root, 4, va);
      o1.Page? && o.Page? && o1.level == o.level == goal && o1.leaf.frame == o.leaf.frame == e.frame
    ensures MapsOffset(mem, root, hhdm, size)
    ensures Canonical(virt) ==> Translate(mem, root, virt) == Translate(mem0, root, virt)
    ensures Canonical(virt) ==> Translate(mem0, root, virt).Some?
  {
    hide Walk;
    forall va: nat | Canonical(va)
      ensures Translate(mem, root, va) == Translate(mem0, root, va)
      ensures SamePage(va, virt, goal) ==>
        Walk(mem0, root, 4, va).Page? && Walk(mem0, root, 4, va).level == Walk(mem, root, 4, va).level
    {
      if SamePage(va, virt, goal) {
        assert Widened(Walk(mem0, root, 4, va), Walk(mem1, root, 4, va));
      } else {
        WidenedKeepsTranslation(Walk(mem0, root, 4, va), Walk(mem, root, 4, va), va);
      }
    }
  }

  // The leaf written where nothing was present: masked_phys_addr with its flags.
  function NewLeaf(phys: nat, level: nat, flags: MemFlags): Entry
    requires 1 <= level <= 3
  {
    var masked := phys - phys % Span(level);
    SetFlags(ZERO_ENTRY.(frame := masked / PAGE, large := level != 1, present := true), flags, false)
  }

  lemma FlagsGrow(e: Entry, flags: MemFlags, stayPermissive: bool)
    requires e.present
    ensures EntryGrown(e, SetFlags(e, flags, stayPermissive))
  {
  }

  lemma NewLeafGrows(e: Entry, phys: nat, level: nat, flags: MemFlags)
    requires 1 <= level <= 3 && !e.present
    ensures EntryGrown(e, NewLeaf(phys, level, flags))
  {
  }

  lemma LinkGrows(e: Entry, frame: nat, flags: MemFlags)
    requires !e.present
    ensures EntryGrown(e, SetFlags(ZERO_ENTRY.(frame := frame, present := true), flags, true))
  {
  }

  // The state in which add_to_hhdm returns: the page is entered, and everything else is as it was.
  ghost predicate Finished(mem0: Memory, mem: Memory, levels: Levels, root: nat, hhdm: nat, size: nat,
                           virt: nat, goal: nat, flags: MemFlags)
    requires 1 <= goal <= 3
  {
    && InTree(mem, levels, root, 4)
    && OthersWidened(mem0, mem, root, virt, goal)
    && PageEntered(mem0, root, mem, root, hhdm, virt, goal, flags)
    && MapsOffset(mem, root, hhdm, size)
    && (hhdm <= virt < hhdm + size ==> Translate(mem, root, virt) == Some(virt - hhdm))
  }

  lemma FreshLeafFinishes(mem0: Memory, mem: Memory, levels: Levels, root: nat, hhdm: nat, size: nat, phys: nat,
                          goal: nat, t: nat, e: Entry, flags: MemFlags)
    requires 1 <= goal <= 3 && Canonical(phys + hhdm) && hhdm % Span(goal) == 0
    requires MapsOffset(mem0, root, hhdm, size)
    requires Descending(mem0, mem, levels, root, phys + hhdm, goal, t, goal)
    requires e == NewLeaf(phys, goal, flags) && t in mem && !mem[t][Index(phys + hhdm, goal)].present
    ensures
      Finished(mem0, Store(mem, t, Index(phys + hhdm, goal), e), levels, root, hhdm, size, phys + hhdm, goal, flags)
  {
    hide Walk, At, Open, Blocked, Widened, Separate;
    EntryTells(mem0, mem, levels, root, phys + hhdm, goal, t, goal);
    LeafStored(mem0, mem, levels, root, phys + hhdm, goal, t, e);
    FreshLeafMaps(mem0, Store(mem, t, Index(phys + hhdm, goal), e), root, hhdm, size, phys, goal, e);
    FreshPageEntered(mem0, mem, Store(mem, t, Index(phys + hhdm, goal), e), root, hhdm, phys, goal, t, flags);
  }

  // Nothing was present on the page, so what its addresses find now is the new leaf alone.
  lemma FreshPageEntered(mem0: Memory, mem: Memory, mem': Memory, root: nat, hhdm: nat, phys: nat, goal: nat, t: nat,
                         flags: MemFlags)
    requires 1 <= goal <= 3 && hhdm % Span(goal) == 0
    requires AllWidened(mem0, mem, root) && At(mem, root, 4, phys + hhdm, goal) == Some(t)
    requires t in mem && !mem[t][Index(phys + hhdm, goal)].present
    requires LeafServes(mem', root, phys + hhdm, goal, NewLeaf(phys, goal, flags))
    ensures PageEntered(mem0, root, mem', root, hhdm, phys + hhdm, goal, flags)
  {
    hide Walk, At, Index, Canonical;
    forall va: nat | Canonical(va) && SamePage(va, phys + hhdm, goal)
      ensures EnteredAt(Walk(mem0, root, 4, va), Walk(mem', root, 4, va), hhdm, va, goal, flags)
    {
      SamePageSameIndices(va, phys + hhdm, goal);
      assert Index(va, goal) == Index(phys + hhdm, goal);
      SameIndicesSamePath(mem, root, 4, phys + hhdm, va, goal);
      NothingBelow(mem, root, 4, va, goal, t);
      assert Widened(Walk(mem0, root, 4, va), Walk(mem, root, 4, va));
      UserInLeaf(mem', root, 4, va);
      NewLeafAddress(phys, hhdm, va, goal, flags);
    }
  }

  lemma NewLeafAddress(phys: nat, hhdm: nat, va: nat, goal: nat, flags: MemFlags)
    requires 1 <= goal <= 3 && hhdm % Span(goal) == 0 && SamePage(va, phys + hhdm, goal)
    ensures NewLeaf(phys, goal, flags).frame * PAGE + va % Span(goal) + hhdm == va
  {
    LeafMapsOffset(phys, hhdm, va, goal);
    MultipleOfSpan(phys, goal);
  }

  lemma PresentLeafFinishes(mem0: Memory, mem: Memory, levels: Levels, root: nat, hhdm: nat, size: nat, virt: nat,
                            goal: nat, t: nat, flags: MemFlags)
    requires 1 <= goal <= 3 && Canonical(virt)
    requires MapsOffset(mem0, root, hhdm, size)
    requires Descending(mem0, mem, levels, root, virt, goal, t, goal)
    requires var e := mem[t][Index(virt, goal)]; e.present && !Descends(e, goal)
    ensures var i := Index(virt, goal);
      Finished(mem0, Store(mem, t, i, SetFlags(mem[t][i], flags, false)), levels, root, hhdm, size, virt, goal, flags)
  {
    hide Walk, At, Open, Blocked, Widened, Separate;
    EntryTells(mem0, mem, levels, root, virt, goal, t, goal);
    var e, e' := mem[t][Index(virt, goal)], SetFlags(mem[t][Index(virt, goal)], flags, false);
    var mem' := Store(mem, t, Index(virt, goal), e');
    LeafStored(mem0, mem, levels, root, virt, goal, t, e');
    forall va: nat | Canonical(va) && SamePage(va, virt, goal)
      ensures var o1, o := Walk(mem, root, 4, va), Walk(mem', root, 4, va);
        o1.Page? && o.Page? && o1.level == o.level == goal && o1.leaf.frame == o.leaf.frame == e.frame
    {
      LeafFound(mem, root, virt, goal, t, va);
    }
    PresentLeafMaps(mem0, mem, mem', root, hhdm, size, virt, goal, e);
    PresentPageEntered(mem0, mem, levels, root, hhdm, virt, goal, t, flags);
  }

  lemma PresentPageEntered(mem0: Memory, mem: Memory, levels: Levels, root: nat, hhdm: nat, virt: nat, goal: nat,
                           t: nat, flags: MemFlags)
    requires 1 <= goal <= 3
    requires Descending(mem0, mem, levels, root, virt, goal, t, goal)
    requires var e := mem[t][Index(virt, goal)]; e.present && !Descends(e, goal)
    requires var i := Index(virt, goal);
      LeafServes(Store(mem, t, i, SetFlags(mem[t][i], flags, false)), root, virt, goal,
                 SetFlags(mem[t][i], flags, false))
    ensures var i := Index(virt, goal);
      PageEntered(mem0, root, Store(mem, t, i, SetFlags(mem[t][i], flags, false)), root, hhdm, virt, goal, flags)
  {
    assert t in mem;
    hide Walk, At, Open, Index, Canonical, Blocked, Separate, SamePage;
    var i := Index(virt, goal);
    var e' := SetFlags(mem[t][i], flags, false);
    forall va: nat | Canonical(va) && SamePage(va, virt, goal)
      ensures EnteredAt(Walk(mem0, root, 4, va), Walk(Store(mem, t, i, e'), root, 4, va), hhdm, va, goal, flags)
    {
      LeafFound(mem, root, virt, goal, t, va);
      assert Widened(Walk(mem0, root, 4, va), Walk(mem, root, 4, va));
      FlagsKeepUser(mem, levels, t, i, e', root, 4, va);
    }
  }

  lemma StartDescending(mem: Memory, levels: Levels, root: nat, virt: nat, goal: nat)
    requires 1 <= goal <= 3 && InTree(mem, levels, root, 4)
    ensures Descending(mem, mem, levels, root, virt, goal, root, 4)
  {
  }

  // What the tests at the head of the loop tell about the whole walk.
  lemma EntryTells(mem0: Memory, mem: Memory, levels: Levels, root: nat, virt: nat, goal: nat, t: nat, level: nat)
    requires 1 <= goal <= level <= 4
    requires Descending(mem0, mem, levels, root, virt, goal, t, level)
    ensures t in mem && AllWidened(mem0, mem, root) && InTree(mem, levels, root, 4)
    ensures var e := mem[t][Index(virt, level)];
      && (!e.present ==> !Blocked(mem0, root, 4, virt, goal))
      && (e.present && level == goal ==> (Blocked(mem0, root, 4, virt, goal) <==> Descends(e, level)))
      && (e.present && level != goal && !Descends(e, level) ==> Blocked(mem0, root, 4, virt, goal))
      && (Descends(e, level) ==> e.frame in levels)
  {
    if Descends(mem[t][Index(virt, level)], level) {
      Child(mem, levels, t, level, Index(virt, level));
    }
  }

  // --- Who may have gained permissions --------------------------------------------------------------

  // The walk for va leaves the one for virt at level l or above it, and that one has been open so far.
  ghost predicate LeavesOpenPath(mem: Memory, root: nat, virt: nat, va: nat, l: nat)
    requires 1 <= l <= 4
  {
    Index(va, l) != Index(virt, l) && Open(mem, root, 4, virt, l)
  }

  // An address that leaves an open path above or at the level asked for keeps its walk: the same page
  // with the same permissions. One with another level 4 index always does.
  ghost predicate ElsewhereKept(mem0: Memory, mem: Memory, root: nat, virt: nat, goal: nat)
    requires 1 <= goal <= 3
  {
    forall va: nat, l: nat :: goal <= l <= 4 && LeavesOpenPath(mem0, root, virt, va, l) ==>
      Walk(mem, root, 4, va) == Walk(mem0, root, 4, va)
  }

  // The part of the path that was open is so still.
  ghost predicate StillOpen(mem0: Memory, mem: Memory, root: nat, virt: nat, goal: nat, t: nat, level: nat)
    requires 1 <= goal <= level <= 4
  {
    forall l :: goal <= l <= level && Open(mem0, root, 4, virt, l) ==> Open(mem, t, level, virt, l)
  }

  lemma KeptAtStart(mem: Memory, root: nat, virt: nat, goal: nat)
    requires 1 <= goal <= 3
    ensures ElsewhereKept(mem, mem, root, virt, goal) && StillOpen(mem, mem, root, virt, goal, root, 4)
  {
  }

  lemma KeptMeans(mem0: Memory, mem: Memory, root: nat, virt: nat, goal: nat, va: nat)
    requires 1 <= goal <= 3 && ElsewhereKept(mem0, mem, root, virt, goal)
    requires root in mem0 && Index(va, 4) != Index(virt, 4)
    ensures Walk(mem, root, 4, va) == Walk(mem0, root, 4, va)
  {
    hide Walk;
    assert LeavesOpenPath(mem0, root, virt, va, 4);
  }

  lemma NotRead(mem: Memory, levels: Levels, root: nat, virt: nat, t: nat, level: nat, va: nat, l: nat)
    requires InTree(mem, levels, root, 4) && 1 <= level <= l <= 4
    requires At(mem, root, 4, virt, level) == Some(t) && Index(va, l) != Index(virt, l)
    ensures !Reads(mem, root, 4, va, t, level, Index(virt, level))
  {
    hide At;
    if Reads(mem, root, 4, va, t, level, Index(virt, level)) {
      OneWayIn(mem, levels, root, 4, va, virt, level, t);
      assert false;
    }
  }

  // A store into the table where the loop stands, of a leaf at the level asked for, or of the entry
  // opened. Where the path was open from there on, opening the entry does not change it.
  lemma KeptByStore(mem0: Memory, mem: Memory, levels: Levels, root: nat, virt: nat, goal: nat, t: nat, level: nat,
                    e: Entry)
    requires 1 <= goal <= 3 && goal <= level <= 4
    requires InTree(mem, levels, root, 4) && InTree(mem, levels, t, level) && At(mem, root, 4, virt, level) == Some(t)
    requires ElsewhereKept(mem0, mem, root, virt, goal) && StillOpen(mem0, mem, root, virt, goal, t, level)
    requires goal < level && Open(mem, t, level, virt, level - 1) ==> e == mem[t][Index(virt, level)]
    ensures ElsewhereKept(mem0, Store(mem, t, Index(virt, level), e), root, virt, goal)
  {
    assert t in mem;
    hide Walk, At, Separate, Index;
    var i := Index(virt, level);
    var mem' := Store(mem, t, i, e);
    forall va: nat, l: nat | goal <= l <= 4 && LeavesOpenPath(mem0, root, virt, va, l)
      ensures Walk(mem', root, 4, va) == Walk(mem0, root, 4, va)
    {
      if level <= l {
        NotRead(mem, levels, root, virt, t, level, va, l);
        UnreadStore(mem, levels, t, i, e, root, 4, va);
      } else {
        OpenFurther(mem, t, level, virt, l);
        StoreSame(mem, t, i);
      }
    }
  }

  lemma StoreSame(mem: Memory, t: nat, i: nat)
    requires t in mem && i < ENTRIES
    ensures Store(mem, t, i, mem[t][i]) == mem
  {
    assert mem[t][i := mem[t][i]] == mem[t];
  }

  lemma OpenFurther(mem: Memory, t: nat, level: nat, virt: nat, l: nat)
    requires 1 <= l < level <= 4 && Open(mem, t, level, virt, l)
    ensures Open(mem, t, level, virt, level - 1)
    ensures var e := mem[t][Index(virt, level)];
      e.writable && !e.noExec && Descends(e, level) && Open(mem, e.frame, level - 1, virt, l)
  {
  }

  lemma KeptByOpening(mem0: Memory, mem: Memory, levels: Levels, root: nat, virt: nat, goal: nat, t: nat, level: nat,
                      flags: MemFlags)
    requires 1 <= goal < level <= 4 && goal <= 3
    requires Descending(mem0, mem, levels, root, virt, goal, t, level)
    requires Descends(mem[t][Index(virt, level)], level)
    requires ElsewhereKept(mem0, mem, root, virt, goal) && StillOpen(mem0, mem, root, virt, goal, t, level)
    ensures var e := mem[t][Index(virt, level)];
      var mem' := Store(mem, t, Index(virt, level), SetFlags(e, flags, true));
      ElsewhereKept(mem0, mem', root, virt, goal) && StillOpen(mem0, mem', root, virt, goal, e.frame, level - 1)
  {
    assert t in mem;
    hide Walk, At, Separate, Index, AllWidened, Blocked, ElsewhereKept, Open;
    var i := Index(virt, level);
    var e := mem[t][i];
    var mem' := Store(mem, t, i, SetFlags(e, flags, true));
    if Open(mem, t, level, virt, level - 1) {
      OpenFurther(mem, t, level, virt, level - 1);
    }
    KeptByStore(mem0, mem, levels, root, virt, goal, t, level, SetFlags(e, flags, true));
    forall l | goal <= l <= level - 1 && Open(mem0, root, 4, virt, l)
      ensures Open(mem', e.frame, level - 1, virt, l)
    {
      OpenFurther(mem, t, level, virt, l);
      StoreSame(mem, t, i);
    }
  }

  lemma KeptByLinking(mem0: Memory, mem: Memory, levels: Levels, root: nat, virt: nat, goal: nat, t: nat, level: nat,
                      e: Entry)
    requires 1 <= goal < level <= 4 && goal <= 3
    requires Descending(mem0, mem, levels, root, virt, goal, t, level)
    requires !mem[t][Index(virt, level)].present && e.frame !in mem && Descends(e, level)
    requires ElsewhereKept(mem0, mem, root, virt, goal) && StillOpen(mem0, mem, root, virt, goal, t, level)
    ensures var mem' := Store(mem[e.frame := EMPTY], t, Index(virt, level), e);
      ElsewhereKept(mem0, mem', root, virt, goal) && StillOpen(mem0, mem', root, virt, goal, t, level)
  {
    assert t in mem;
    hide Walk, At, Separate, Index, AllWidened, Blocked;
    var i := Index(virt, level);
    var mem' := Store(mem[e.frame := EMPTY], t, i, e);
    forall va: nat
      ensures Walk(mem', root, 4, va) == Walk(mem, root, 4, va)
    {
      EmptyTableMapsNothing(mem, levels, t, i, e, root, 4, va);
    }
    forall l | goal <= l <= level && Open(mem0, root, 4, virt, l)
      ensures Open(mem', t, level, virt, l)
    {
      if l < level {
        OpenFurther(mem, t, level, virt, l);
        assert false;
      }
    }
  }

  lemma KeptByLeaf(mem0: Memory, mem: Memory, levels: Levels, root: nat, virt: nat, goal: nat, t: nat, e: Entry)
    requires 1 <= goal <= 3
    requires Descending(mem0, mem, levels, root, virt, goal, t, goal)
    requires ElsewhereKept(mem0, mem, root, virt, goal) && StillOpen(mem0, mem, root, virt, goal, t, goal)
    ensures ElsewhereKept(mem0, Store(mem, t, Index(virt, goal), e), root, virt, goal)
  {
    hide Walk, At, Open, Separate, Index, AllWidened, Blocked, ElsewhereKept, StillOpen;
    KeptByStore(mem0, mem, levels, root, virt, goal, t, goal, e);
  }

  lemma AllWidenedMaps(mem0: Memory, mem: Memory, root: nat, hhdm: nat, size: nat)
    requires MapsOffset(mem0, root, hhdm, size) && AllWidened(mem0, mem, root)
    ensures MapsOffset(mem, root, hhdm, size)
  {
    hide Walk;
    forall va: nat
      ensures Translate(mem, root, va) == Translate(mem0, root, va)
    {
      WidenedKeepsTranslation(Walk(mem0, root, 4, va), Walk(mem, root, 4, va), va);
    }
  }

  // A table at this frame can be reached through the direct map, at a canonical address.
  predicate Addressable(hhdm: nat, frame: nat) {
    Canonical(frame * PAGE + hhdm)
  }

  // The tree under `root` has separate tables; they and the free pages are addressable.
  ghost predicate ValidState(hhdm: nat, mem: Memory, heap: seq<nat>, levels: Levels, root: nat) {
    && InTree(mem, levels, root, 4)
    && FreshHeap(mem, heap)
    && (forall t :: t in levels ==> Addressable(hhdm, t))
    && (forall t :: t in heap ==> Addressable(hhdm, t))
  }

  lemma ValidFacts(hhdm: nat, mem: Memory, heap: seq<nat>, levels: Levels, root: nat)
    requires ValidState(hhdm, mem, heap, levels, root)
    ensures InTree(mem, levels, root, 4)
    ensures forall t :: t in levels ==> Addressable(hhdm, t)
    ensures heap != [] ==> heap[0] !in mem
  {
  }

  lemma ValidAfterStore(hhdm: nat, mem: Memory, heap: seq<nat>, levels: Levels, root: nat, mem': Memory)
    requires ValidState(hhdm, mem, heap, levels, root)
    requires InTree(mem', levels, root, 4) && mem'.Keys == mem.Keys
    ensures ValidState(hhdm, mem', heap, levels, root)
  {
  }

  lemma FinishedFacts(hhdm: nat, mem0: Memory, mem1: Memory, heap: seq<nat>, levels: Levels, root: nat, mem: Memory,
                      size: nat, virt: nat, goal: nat, flags: MemFlags)
    requires 1 <= goal <= 3
    requires ValidState(hhdm, mem1, heap, levels, root) && mem.Keys == mem1.Keys
    requires Finished(mem0, mem, levels, root, hhdm, size, virt, goal, flags)
    ensures ValidState(hhdm, mem, heap, levels, root) && MapsOffset(mem, root, hhdm, size)
    ensures OthersWidened(mem0, mem, root, virt, goal)
    ensures PageEntered(mem0, root, mem, root, hhdm, virt, goal, flags)
    ensures hhdm <= virt < hhdm + size ==> Translate(mem, root, virt) == Some(virt - hhdm)
  {
    hide MapsOffset, OthersWidened, PageEntered, Translate, Separate;
  }

  lemma ValidAfterLink(hhdm: nat, mem: Memory, heap: seq<nat>, levels: Levels, root: nat, mem': Memory, level: nat)
    requires ValidState(hhdm, mem, heap, levels, root) && heap != []
    requires InTree(mem', levels[heap[0] := level], root, 4) && mem'.Keys == mem.Keys + {heap[0]}
    ensures ValidState(hhdm, mem', heap[1..], levels[heap[0] := level], root)
  {
  }
}
