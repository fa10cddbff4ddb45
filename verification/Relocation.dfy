// apply_rel and the DO_REL passes of dynld_link in loader/src/dynld.c.
module Relocation {
  import opened Arithmetic
  import opened Bytes

  type Word = w: nat | w < WORDS
  // The 64-bit words of the image and of everything it refers to, by address.
  type Memory = map<nat, Word>

  datatype Kind = JumpSlot | GlobDat | Relative | IRelative | Unknown

  datatype Rel = Rel(offset: nat, kind: Kind, sym: nat, addend: Word)

  // A table entry together with how its table has it read: REL tables add the word in place, RELA
  // tables the addend of the entry.
  datatype Job = Job(rel: Rel, inPlace: bool)

  // What the symbol part of apply_rel comes to: the base of the defining library and the symbol.
  datatype Symbol = Found(base: Word, value: Word, ifunc: bool) | Missing

  // The image base, the symbol lookup, and what a resolver function at an address returns.
  datatype Env = Env(base: nat, lookup: nat -> Symbol, resolve: (Word, Memory) -> Word)

  function Target(env: Env, j: Job): nat {
    env.base + j.rel.offset
  }

  predicate Supported(env: Env, j: Job) {
    env.lookup(j.rel.sym).Found? && j.rel.kind != Unknown
  }

  predicate Deferred(env: Env, j: Job) {
    j.rel.kind == IRelative || (j.rel.kind == JumpSlot && env.lookup(j.rel.sym).Found? && env.lookup(j.rel.sym).ifunc)
  }

  // S + A, B + A and so on: the symbol, or the base alone, plus the addend of the entry or in place.
  function Sum(env: Env, j: Job, mem: Memory): Word
    requires Supported(env, j) && Target(env, j) in mem
  {
    var s := env.lookup(j.rel.sym);
    var symbol := if j.rel.kind in {JumpSlot, GlobDat} then s.base + s.value else s.base;
    (symbol + (if j.inPlace then mem[Target(env, j)] else j.rel.addend)) % WORDS
  }

  // The word that the relocation stores, given the memory it finds.
  function Effect(env: Env, j: Job, mem: Memory): Word
    requires Supported(env, j) && Target(env, j) in mem
  {
    if Deferred(env, j) then env.resolve(Sum(env, j, mem), mem) else Sum(env, j, mem)
  }

  predicate Ready(env: Env, jobs: seq<Job>, mem: Memory) {
    forall j :: j in jobs ==> Supported(env, j) && Target(env, j) in mem
  }

  // Carry out relocations one after the other.
  function Execute(env: Env, jobs: seq<Job>, mem: Memory): (r: Memory)
    requires Ready(env, jobs, mem)
    ensures r.Keys == mem.Keys
  {
    if jobs == [] then mem
    else Execute(env, jobs[1..], mem[Target(env, jobs[0]) := Effect(env, jobs[0], mem)])
  }

  // The jobs of one phase, in table order.
  function Phase(env: Env, jobs: seq<Job>, deferred: bool): (r: seq<Job>)
    ensures forall j :: j in r <==> j in jobs && Deferred(env, j) == deferred
    ensures |r| <= |jobs|
  {
    if jobs == [] then []
    else (if Deferred(env, jobs[0]) == deferred then [jobs[0]] else []) + Phase(env, jobs[1..], deferred)
  }

  // What dynld_link is to carry out: first everything that needs no resolver, of both tables.
  function Schedule(env: Env, rel: seq<Job>, plt: seq<Job>): seq<Job> {
    Phase(env, rel, false) + Phase(env, plt, false) + Phase(env, rel, true) + Phase(env, plt, true)
  }

  // --- Properties of the schedule -----------------------------------------------------------------

  lemma {:induction false} PhasesSplit(env: Env, jobs: seq<Job>)
    ensures multiset(Phase(env, jobs, false)) + multiset(Phase(env, jobs, true)) == multiset(jobs)
    decreases |jobs|
  {
    hide Deferred;
    if jobs != [] {
      PhasesSplit(env, jobs[1..]);
      assert jobs == [jobs[0]] + jobs[1..];
    }
  }

  // Every relocation of both tables is carried out exactly once.
  lemma ScheduleIsComplete(env: Env, rel: seq<Job>, plt: seq<Job>)
    ensures multiset(Schedule(env, rel, plt)) == multiset(rel) + multiset(plt)
  {
    PhasesSplit(env, rel);
    PhasesSplit(env, plt);
  }

  // No resolver runs before the last relocation that needs none.
  predicate ResolversLast(env: Env, jobs: seq<Job>) {
    forall i, k :: 0 <= i < k < |jobs| && Deferred(env, jobs[i]) ==> Deferred(env, jobs[k])
  }

  lemma ScheduleIsOrdered(env: Env, rel: seq<Job>, plt: seq<Job>)
    ensures ResolversLast(env, Schedule(env, rel, plt))
  {
    var first := Phase(env, rel, false) + Phase(env, plt, false);
    var last := Phase(env, rel, true) + Phase(env, plt, true);
    assert Schedule(env, rel, plt) == first + last;
    assert forall m :: 0 <= m < |first| ==> !Deferred(env, first[m]);
    assert forall m :: 0 <= m < |last| ==> Deferred(env, last[m]);
  }

  predicate DistinctTargets(env: Env, jobs: seq<Job>) {
    forall i, k :: 0 <= i < k < |jobs| ==> WordsApart(Target(env, jobs[i]), Target(env, jobs[k]))
  }

  lemma {:induction false} Others(env: Env, jobs: seq<Job>, mem: Memory, a: nat)
    requires Ready(env, jobs, mem) && a in mem
    requires forall j :: j in jobs ==> Target(env, j) != a
    ensures Execute(env, jobs, mem)[a] == mem[a]
    decreases |jobs|
  {
    if jobs != [] {
      Others(env, jobs[1..], mem[Target(env, jobs[0]) := Effect(env, jobs[0], mem)], a);
    }
  }

  lemma {:induction false} ExecuteSplit(env: Env, a: seq<Job>, b: seq<Job>, mem: Memory)
    requires Ready(env, a + b, mem)
    ensures Ready(env, a, mem) && Ready(env, b, Execute(env, a, mem))
    ensures Execute(env, a + b, mem) == Execute(env, b, Execute(env, a, mem))
    decreases |a|
  {
    assert forall j :: j in a + b <==> j in a || j in b;
    if a == [] {
      assert a + b == b;
    } else {
      assert (a + b)[1..] == a[1..] + b;
      ExecuteSplit(env, a[1..], b, mem[Target(env, a[0]) := Effect(env, a[0], mem)]);
    }
  }

  lemma ReadyPart(env: Env, jobs: seq<Job>, mem: Memory, i: nat)
    requires Ready(env, jobs, mem) && i <= |jobs|
    ensures Ready(env, jobs[..i], mem) && jobs[..i] + jobs[i..] == jobs
  {
  }

  // With distinct targets, job i finds its own word as it was in the beginning, also when it reads
  // its addend there; it finds the words of the jobs before it as they will stay; and what it
  // stores stays.
  lemma ExecuteAt(env: Env, jobs: seq<Job>, mem: Memory, i: nat)
    requires Ready(env, jobs, mem) && DistinctTargets(env, jobs) && i < |jobs|
    ensures Ready(env, jobs[..i], mem)
    ensures var found := Execute(env, jobs[..i], mem);
      && found[Target(env, jobs[i])] == mem[Target(env, jobs[i])]
      && Execute(env, jobs, mem)[Target(env, jobs[i])] == Effect(env, jobs[i], found)
      && forall k :: 0 <= k < i ==> found[Target(env, jobs[k])] == Execute(env, jobs, mem)[Target(env, jobs[k])]
  {
    ReadyPart(env, jobs, mem, i);
    ExecuteSplit(env, jobs[..i], jobs[i..], mem);
    var found := Execute(env, jobs[..i], mem);
    Others(env, jobs[..i], mem, Target(env, jobs[i]));
    assert jobs[i..][0] == jobs[i] && jobs[i..][1..] == jobs[i + 1..];
    Others(env, jobs[i + 1..], found[Target(env, jobs[i]) := Effect(env, jobs[i], found)], Target(env, jobs[i]));
    forall k | 0 <= k < i
      ensures found[Target(env, jobs[k])] == Execute(env, jobs, mem)[Target(env, jobs[k])]
    {
      Others(env, jobs[i..], found, Target(env, jobs[k]));
    }
  }

  lemma ScheduleReady(env: Env, rel: seq<Job>, plt: seq<Job>, mem: Memory)
    requires Ready(env, rel + plt, mem) && DistinctTargets(env, rel + plt)
    ensures Ready(env, Schedule(env, rel, plt), mem) && DistinctTargets(env, Schedule(env, rel, plt))
    ensures forall j :: j in rel + plt <==> j in Schedule(env, rel, plt)
  {
    hide Schedule;
    ScheduleIsComplete(env, rel, plt);
    SameJobs(env, rel + plt, Schedule(env, rel, plt));
  }

  // What the kinds ask of the word at the target (section Relocation Types of the System V ABI, AMD64
  // supplement): the symbol's address plus addend, or the base plus addend, or what the resolver at that
  // address returns when it finds the memory `found`. mem is the memory before the passes.
  predicate HoldsSum(env: Env, j: Job, mem: Memory, word: Word)
    requires Target(env, j) in mem
  {
    var a := if j.inPlace then mem[Target(env, j)] else j.rel.addend;
    var s := env.lookup(j.rel.sym);
    s.Found? &&
    match j.rel.kind
    case GlobDat => word == (s.base + s.value + a) % WORDS
    case JumpSlot => s.ifunc || word == (s.base + s.value + a) % WORDS
    case Relative => word == (s.base + a) % WORDS
    case IRelative => true
    case Unknown => false
  }

  predicate HoldsResolved(env: Env, j: Job, mem: Memory, found: Memory, word: Word)
    requires Target(env, j) in mem
  {
    var a := if j.inPlace then mem[Target(env, j)] else j.rel.addend;
    var s := env.lookup(j.rel.sym);
    s.Found? &&
    match j.rel.kind
    case JumpSlot => s.ifunc ==> word == env.resolve((s.base + s.value + a) % WORDS, found)
    case IRelative => word == env.resolve((s.base + a) % WORDS, found)
    case _ => true
  }

  // All sums are in place.
  ghost predicate SumsInPlace(env: Env, jobs: seq<Job>, mem: Memory, found: Memory) {
    forall q :: q in jobs ==> Target(env, q) in mem && Target(env, q) in found &&
                              HoldsSum(env, q, mem, found[Target(env, q)])
  }

  // After linking, job j holds its sum, or what its resolver made of it with all sums in place.
  ghost predicate LinkedByKind(env: Env, jobs: seq<Job>, mem: Memory, linked: Memory, j: Job) {
    && Target(env, j) in mem && Target(env, j) in linked
    && HoldsSum(env, j, mem, linked[Target(env, j)])
    && exists found: Memory :: SumsInPlace(env, jobs, mem, found) &&
         HoldsResolved(env, j, mem, found, linked[Target(env, j)])
  }

  lemma DoneSumsInPlace(env: Env, jobs: seq<Job>, mem: Memory, found: Memory)
    requires Ready(env, jobs, mem) && found.Keys == mem.Keys && AllOthersDone(env, jobs, mem, found)
    ensures SumsInPlace(env, jobs, mem, found)
  {
  }

  // The word that one call of apply_rel stores, and what it leaves alone
  ghost predicate AppliedByKind(env: Env, j: Job, resolveDeferred: bool, mem: Memory, mem': Memory) {
    && Target(env, j) in mem && Target(env, j) in mem'
    && mem' == mem[Target(env, j) := mem'[Target(env, j)]]
    && var resolved := j.rel.kind == IRelative || (j.rel.kind == JumpSlot && env.lookup(j.rel.sym).Found? &&
                                                   env.lookup(j.rel.sym).ifunc);
    if resolved != resolveDeferred then mem' == mem
    else HoldsSum(env, j, mem, mem'[Target(env, j)]) && HoldsResolved(env, j, mem, mem, mem'[Target(env, j)])
  }

  // A memory in which all relocations that need no resolver have been carried out.
  ghost predicate AllOthersDone(env: Env, jobs: seq<Job>, mem: Memory, found: Memory)
    requires Ready(env, jobs, mem)
  {
    forall q :: q in jobs && !Deferred(env, q) ==> Target(env, q) in found && found[Target(env, q)] == Sum(env, q, mem)
  }

  lemma ResolverFinds(env: Env, jobs: seq<Job>, mem: Memory, i: nat)
    requires Ready(env, jobs, mem) && DistinctTargets(env, jobs) && ResolversLast(env, jobs)
    requires i < |jobs| && Deferred(env, jobs[i])
    ensures Ready(env, jobs[..i], mem) && AllOthersDone(env, jobs, mem, Execute(env, jobs[..i], mem))
  {
    hide Execute;
    ExecuteAt(env, jobs, mem, i);
    var found := Execute(env, jobs[..i], mem);
    forall q | q in jobs && !Deferred(env, q)
      ensures Target(env, q) in found && found[Target(env, q)] == Sum(env, q, mem)
    {
      var k :| 0 <= k < |jobs| && jobs[k] == q;
      ExecuteAt(env, jobs, mem, k);
    }
  }

  // What job j has stored in the end: what its symbol and its addend, as it was before the passes,
  // come to, or what the resolver at that address returned when all others were done.
  ghost predicate Linked(env: Env, jobs: seq<Job>, mem: Memory, linked: Memory, j: Job)
    requires Ready(env, jobs, mem) && j in jobs && Target(env, j) in linked
  {
    if Deferred(env, j) then
      exists found: Memory ::
        && found.Keys == mem.Keys && AllOthersDone(env, jobs, mem, found)
        && linked[Target(env, j)] == env.resolve(Sum(env, j, mem), found)
    else linked[Target(env, j)] == Sum(env, j, mem)
  }

  lemma OrderedJobLinked(env: Env, jobs: seq<Job>, mem: Memory, j: Job)
    requires Ready(env, jobs, mem) && DistinctTargets(env, jobs) && ResolversLast(env, jobs)
    requires j in jobs
    ensures Linked(env, jobs, mem, Execute(env, jobs, mem), j)
  {
    hide Execute, ResolversLast;
    var i :| 0 <= i < |jobs| && jobs[i] == j;
    ExecuteAt(env, jobs, mem, i);
    if Deferred(env, j) {
      ResolverFinds(env, jobs, mem, i);
      hide AllOthersDone, DistinctTargets;
      var found := Execute(env, jobs[..i], mem);
      assert AllOthersDone(env, jobs, mem, found);
      SumInPlace(env, j, mem, found);
    }
  }

  lemma OrderedJobLinkedByKind(env: Env, jobs: seq<Job>, mem: Memory, j: Job)
    requires Ready(env, jobs, mem) && DistinctTargets(env, jobs) && ResolversLast(env, jobs)
    requires j in jobs
    ensures LinkedByKind(env, jobs, mem, Execute(env, jobs, mem), j)
  {
    hide Execute, ResolversLast, SumsInPlace, AllOthersDone, DistinctTargets;
    var linked := Execute(env, jobs, mem);
    OrderedJobLinked(env, jobs, mem, j);
    if Deferred(env, j) {
      var found: Memory :| found.Keys == mem.Keys && AllOthersDone(env, jobs, mem, found) &&
        linked[Target(env, j)] == env.resolve(Sum(env, j, mem), found);
      DoneSumsInPlace(env, jobs, mem, found);
    } else {
      assert AllOthersDone(env, jobs, mem, linked) by {
        SumsDone(env, jobs, mem);
      }
      DoneSumsInPlace(env, jobs, mem, linked);
    }
  }

  lemma SumsDone(env: Env, jobs: seq<Job>, mem: Memory)
    requires Ready(env, jobs, mem) && DistinctTargets(env, jobs) && ResolversLast(env, jobs)
    ensures AllOthersDone(env, jobs, mem, Execute(env, jobs, mem))
  {
    hide Execute, ResolversLast, DistinctTargets;
    forall q | q in jobs && !Deferred(env, q)
      ensures Execute(env, jobs, mem)[Target(env, q)] == Sum(env, q, mem)
    {
      OrderedJobLinked(env, jobs, mem, q);
    }
  }

  lemma SumInPlace(env: Env, j: Job, mem: Memory, found: Memory)
    requires Supported(env, j) && Target(env, j) in mem && Target(env, j) in found
    requires found[Target(env, j)] == mem[Target(env, j)]
    ensures Sum(env, j, found) == Sum(env, j, mem)
  {
  }

  // The promise of the two passes over the two tables.
  lemma AllLinkedByKind(env: Env, rel: seq<Job>, plt: seq<Job>, mem: Memory)
    requires Ready(env, rel + plt, mem) && DistinctTargets(env, rel + plt)
    ensures Ready(env, Schedule(env, rel, plt), mem)
    ensures forall j :: j in rel + plt ==>
      LinkedByKind(env, rel + plt, mem, Execute(env, Schedule(env, rel, plt), mem), j)
  {
    ScheduleReady(env, rel, plt, mem);
    ScheduleIsOrdered(env, rel, plt);
    hide Schedule, Execute, HoldsSum, HoldsResolved, DistinctTargets, ResolversLast;
    var jobs := Schedule(env, rel, plt);
    forall j | j in rel + plt
      ensures LinkedByKind(env, rel + plt, mem, Execute(env, jobs, mem), j)
    {
      OrderedJobLinkedByKind(env, jobs, mem, j);
    }
  }

  lemma LinkingTouchesNothingElse(env: Env, rel: seq<Job>, plt: seq<Job>, mem: Memory, a: nat)
    requires Ready(env, rel + plt, mem) && DistinctTargets(env, rel + plt)
    requires a in mem && forall q :: q in rel + plt ==> WordsApart(Target(env, q), a)
    ensures Ready(env, Schedule(env, rel, plt), mem)
    ensures Execute(env, Schedule(env, rel, plt), mem)[a] == mem[a]
  {
    ScheduleReady(env, rel, plt, mem);
    hide Schedule, Execute;
    Others(env, Schedule(env, rel, plt), mem, a);
  }

  // Two tables with the same jobs the same number of times
  lemma SameJobs(env: Env, a: seq<Job>, b: seq<Job>)
    requires multiset(a) == multiset(b)
    ensures forall j :: j in a <==> j in b
    ensures DistinctTargets(env, a) ==> DistinctTargets(env, b)
  {
    forall j
      ensures j in a <==> j in b
    {
      assert j in a <==> j in multiset(a);
      assert j in b <==> j in multiset(b);
    }
    if DistinctTargets(env, a) {
      forall i, k | 0 <= i < k < |b|
        ensures WordsApart(Target(env, b[i]), Target(env, b[k]))
      {
        if !WordsApart(Target(env, b[i]), Target(env, b[k])) {
          assert b[i] in a && b[k] in a;
          var x :| 0 <= x < |a| && a[x] == b[i];
          var y :| 0 <= y < |a| && a[y] == b[k];
          assert x == y;
          TwiceInMultiset(b, i, k);
          OnceInMultiset(a, x);
        }
      }
    }
  }

  lemma TwiceInMultiset(b: seq<Job>, i: nat, k: nat)
    requires i < k < |b| && b[i] == b[k]
    ensures multiset(b)[b[i]] >= 2
  {
    assert b == b[..i] + [b[i]] + b[i + 1..k] + [b[k]] + b[k + 1..];
  }

  lemma OnceInMultiset(a: seq<Job>, x: nat)
    requires x < |a| && forall k :: 0 <= k < |a| && k != x ==> a[k] != a[x]
    ensures multiset(a)[a[x]] == 1
  {
    assert a == a[..x] + [a[x]] + a[x + 1..];
    assert a[x] !in a[..x] && a[x] !in a[x + 1..];
  }

  // --- The passes of dynld_link -------------------------------------------------------------------

  datatype Result = Ok(value: Word) | Error

  // DT_NULL, DT_REL and DT_RELA, and any other tag
  datatype TableType = NoTable | RelTable | RelaTable | OtherTable

  // The entries of a table that the passes walk, as DO_REL reads them.
  function Walked(t: TableType, entries: seq<Rel>): seq<Job> {
    if t == NoTable || t == OtherTable then []
    else seq(|entries|, i requires 0 <= i < |entries| => Job(entries[i], t == RelTable))
  }

  // apply_rel knows the kind of the entry, and finds its symbol.
  predicate Known(env: Env, e: Rel) {
    e.kind != Unknown && env.lookup(e.sym).Found?
  }

  lemma SupportedIs(env: Env, j: Job)
    ensures Supported(env, j) <==> Known(env, j.rel)
  {
  }

  // All entries of a table hold what their kinds ask for.
  ghost predicate TableLinked(env: Env, t: TableType, entries: seq<Rel>, jobs: seq<Job>, mem: Memory, linked: Memory) {
    t in {RelTable, RelaTable} ==>
      forall i :: 0 <= i < |entries| ==> LinkedByKind(env, jobs, mem, linked, Job(entries[i], t == RelTable))
  }

  lemma WalkedEntries(env: Env, t: TableType, entries: seq<Rel>)
    ensures (forall j :: j in Walked(t, entries) ==> Supported(env, j)) <==>
      (t in {RelTable, RelaTable} ==> forall i :: 0 <= i < |entries| ==> Known(env, entries[i]))
    ensures t in {RelTable, RelaTable} ==>
      forall i :: 0 <= i < |entries| ==> Job(entries[i], t == RelTable) in Walked(t, entries)
  {
    if t in {RelTable, RelaTable} {
      forall i | 0 <= i < |entries|
        ensures Walked(t, entries)[i] == Job(entries[i], t == RelTable)
        ensures Supported(env, Walked(t, entries)[i]) <==> Known(env, entries[i])
      {
      }
    }
  }

  // What linking has done to the words of the targets, and to the others.
  ghost predicate TablesLinked(env: Env, relType: TableType, rel: seq<Rel>, pltType: TableType, plt: seq<Rel>,
                               bindNow: bool, mem: Memory, linked: Memory) {
    var jobs := Walked(relType, rel) + if bindNow then Walked(pltType, plt) else [];
    DistinctTargets(env, jobs) ==>
      && TableLinked(env, relType, rel, jobs, mem, linked)
      && (bindNow ==> TableLinked(env, pltType, plt, jobs, mem, linked))
      && forall x :: x in mem && (forall j :: j in jobs ==> WordsApart(Target(env, j), x)) ==>
           x in linked && linked[x] == mem[x]
  }

  lemma ScheduleLinksTables(env: Env, relType: TableType, rel: seq<Rel>, pltType: TableType, plt: seq<Rel>,
                            bindNow: bool, mem: Memory)
    requires var a, b := Walked(relType, rel), if bindNow then Walked(pltType, plt) else [];
      Ready(env, a + b, mem) && Ready(env, Schedule(env, a, b), mem)
    ensures var a, b := Walked(relType, rel), if bindNow then Walked(pltType, plt) else [];
      TablesLinked(env, relType, rel, pltType, plt, bindNow, mem, Execute(env, Schedule(env, a, b), mem))
  {
    hide Execute, Schedule, LinkedByKind, DistinctTargets, Walked, Ready;
    var a, b := Walked(relType, rel), if bindNow then Walked(pltType, plt) else [];
    WalkedEntries(env, relType, rel);
    WalkedEntries(env, pltType, plt);
    if DistinctTargets(env, a + b) {
      AllLinkedByKind(env, a, b, mem);
      assert forall j :: j in a || j in b ==> j in a + b;
      forall x | x in mem && (forall j :: j in a + b ==> WordsApart(Target(env, j), x))
        ensures Execute(env, Schedule(env, a, b), mem)[x] == mem[x]
      {
        LinkingTouchesNothingElse(env, a, b, mem, x);
      }
    }
  }

  class Image {
    const env: Env
    var mem: Memory

    constructor (env: Env, mem: Memory)
      ensures this.env == env && this.mem == mem
    {
      this.env := env;
      this.mem := mem;
    }

    // apply_rel. A null value says that nothing was stored, or that this was not worth telling
    // apart: RELATIVE, and a word that happens to be 0.
    method ApplyRel(j: Job, resolveDeferred: bool, skipNonDeferred: bool) returns (r: Result)
      requires Target(env, j) in mem
      requires resolveDeferred == skipNonDeferred
      modifies this
      ensures r == Error <==> !Known(env, j.rel)
      ensures r == Error ==> mem == old(mem)
      ensures r != Error ==> mem == Applied(env, j, resolveDeferred, old(mem))
      ensures r != Error ==> AppliedByKind(env, j, resolveDeferred, old(mem), mem)
      ensures r.Ok? && r.value != 0 ==> Deferred(env, j) == resolveDeferred
    {
      var sym := env.lookup(j.rel.sym);
      if sym.Missing? {
        return Error;
      }
      var addr := Target(env, j);
      var add := if j.inPlace then mem[addr] else j.rel.addend;
      match j.rel.kind {
        case JumpSlot =>
          var rrel := (sym.base + sym.value + add) % WORDS;
          if sym.ifunc {
            if resolveDeferred {
              mem := mem[addr := env.resolve(rrel, mem)];
              return Ok(rrel);
            }
          } else if !skipNonDeferred {
            mem := mem[addr := rrel];
            return Ok(rrel);
          }
        case GlobDat =>
          if !skipNonDeferred {
            var rrel := (sym.base + sym.value + add) % WORDS;
            mem := mem[addr := rrel];
            return Ok(rrel);
          }
        case Relative =>
          if !skipNonDeferred {
            mem := mem[addr := (sym.base + add) % WORDS];
          }
        case IRelative =>
          if resolveDeferred {
            var vaddr := env.resolve((sym.base + add) % WORDS, mem);
            mem := mem[addr := vaddr];
            return Ok(vaddr);
          }
        case Unknown =>
          return Error;
      }
      return Ok(0);
    }

    // DO_REL: one pass over a table. The flag that comes back is set whenever something may be left
    // for a second pass.
    method DoRel(jobs: seq<Job>, deferred: bool) returns (ok: bool, hasDeferred: bool)
      requires forall j :: j in jobs ==> Target(env, j) in mem
      modifies this
      ensures mem.Keys == old(mem).Keys
      ensures ok <==> forall j :: j in jobs ==> Supported(env, j)
      ensures ok ==> Passed(env, jobs, deferred, old(mem), mem)
      ensures ok && !deferred && !hasDeferred ==> Phase(env, jobs, true) == []
    {
      hide Effect, Deferred, Passed, Applied, AppliedByKind, Supported, Known, Phase;
      hasDeferred := false;
      ghost var mem0 := mem;
      PassedNothing(env, jobs, deferred, mem0);
      var i := 0;
      while i < |jobs|
        invariant 0 <= i <= |jobs|
        invariant mem.Keys == mem0.Keys
        invariant forall k :: 0 <= k < i ==> Supported(env, jobs[k])
        invariant Passed(env, jobs[..i], deferred, mem0, mem)
        invariant !deferred && !hasDeferred ==> Phase(env, jobs[..i], true) == []
      {
        ghost var mem1 := mem;
        SupportedIs(env, jobs[i]);
        var res := ApplyRel(jobs[i], deferred, deferred);
        if res == Error {
          return false, hasDeferred;
        }
        if res.value == 0 {
          hasDeferred := true;
        }
        PassedMore(env, jobs, i, deferred, mem0, mem1, mem);
        i := i + 1;
      }
      assert jobs[..i] == jobs;
      return true, hasDeferred;
    }

    // The relocation part of dynld_link: the first pass over each table, and a second one where the
    // first asked for it. The PLT table takes part only with DT_BIND_NOW.
    method Link(relType: TableType, rel: seq<Rel>, pltType: TableType, plt: seq<Rel>, bindNow: bool) returns (ok: bool)
      requires forall j :: j in Walked(relType, rel) ==> Target(env, j) in mem
      requires forall j :: j in Walked(pltType, plt) ==> Target(env, j) in mem
      modifies this
      ensures ok <==>
        && relType != OtherTable && (bindNow ==> pltType != OtherTable)
        && (relType != NoTable ==> forall i :: 0 <= i < |rel| ==> Known(env, rel[i]))
        && (bindNow && pltType != NoTable ==> forall i :: 0 <= i < |plt| ==> Known(env, plt[i]))
      ensures var a, b := Walked(relType, rel), if bindNow then Walked(pltType, plt) else [];
        ok ==> Ready(env, Schedule(env, a, b), old(mem)) && mem == Execute(env, Schedule(env, a, b), old(mem))
      ensures ok ==> TablesLinked(env, relType, rel, pltType, plt, bindNow, old(mem), mem)
    {
      hide Phase, Execute, Supported, Deferred, Walked, Passed, Schedule, Ready, TablesLinked, Known;
      WalkedEntries(env, relType, rel);
      WalkedEntries(env, pltType, plt);
      ghost var a, b := Walked(relType, rel), if bindNow then Walked(pltType, plt) else [];
      if relType == OtherTable {
        return false;
      }
      ghost var mem0 := mem;
      var done, relDeferred := DoRel(Walked(relType, rel), false);
      if !done {
        return false;
      }
      ghost var mem1 := mem;
      var pltDeferred := false;
      if bindNow {
        if pltType == OtherTable {
          return false;
        }
        done, pltDeferred := DoRel(Walked(pltType, plt), false);
        if !done {
          return false;
        }
      }
      ghost var mem2 := mem;
      NoJobsPassed(env, b, mem1);
      NothingDeferredPassed(env, a, mem2);
      if relDeferred {
        done, relDeferred := DoRel(Walked(relType, rel), true);
      }
      ghost var mem3 := mem;
      NothingDeferredPassed(env, b, mem3);
      NoJobsPassed(env, b, mem3);
      if bindNow && pltDeferred {
        done, pltDeferred := DoRel(Walked(pltType, plt), true);
      }
      FourPasses(env, a, b, mem0, mem1, mem2, mem3, mem);
      BothReady(env, a, b, mem0);
      ScheduleLinksTables(env, relType, rel, pltType, plt, bindNow, mem0);
      return true;
    }
  }

  // --- Passes and phases --------------------------------------------------------------------------

  // One relocation in a pass: carried out if this is its phase, and otherwise left alone.
  function Applied(env: Env, j: Job, deferred: bool, mem: Memory): (r: Memory)
    requires Supported(env, j) && Target(env, j) in mem
    ensures r.Keys == mem.Keys
  {
    if Deferred(env, j) == deferred then mem[Target(env, j) := Effect(env, j, mem)] else mem
  }

  ghost predicate Passed(env: Env, jobs: seq<Job>, deferred: bool, mem0: Memory, mem: Memory) {
    Ready(env, Phase(env, jobs, deferred), mem0) && mem == Execute(env, Phase(env, jobs, deferred), mem0)
  }

  lemma PassedNothing(env: Env, jobs: seq<Job>, deferred: bool, mem: Memory)
    ensures Passed(env, jobs[..0], deferred, mem, mem) && Phase(env, jobs[..0], true) == []
  {
  }

  lemma NoJobsPassed(env: Env, jobs: seq<Job>, mem: Memory)
    ensures jobs == [] ==> Passed(env, jobs, false, mem, mem) && Passed(env, jobs, true, mem, mem)
  {
  }

  lemma NothingDeferredPassed(env: Env, jobs: seq<Job>, mem: Memory)
    ensures Phase(env, jobs, true) == [] ==> Passed(env, jobs, true, mem, mem)
  {
  }

  lemma PassedMore(env: Env, jobs: seq<Job>, i: nat, deferred: bool, mem0: Memory, mem1: Memory, mem: Memory)
    requires i < |jobs| && Supported(env, jobs[i]) && Target(env, jobs[i]) in mem1
    requires Passed(env, jobs[..i], deferred, mem0, mem1)
    requires mem == Applied(env, jobs[i], deferred, mem1)
    ensures Passed(env, jobs[..i + 1], deferred, mem0, mem)
    ensures Phase(env, jobs[..i], true) == [] && !Deferred(env, jobs[i]) ==> Phase(env, jobs[..i + 1], true) == []
  {
    assert jobs[..i + 1] == jobs[..i] + [jobs[i]];
    PhaseAppend(env, jobs[..i], jobs[i], deferred);
    PhaseAppend(env, jobs[..i], jobs[i], true);
    hide Phase, Effect, Execute;
    var before := Phase(env, jobs[..i], deferred);
    assert before + [] == before;
    if Deferred(env, jobs[i]) == deferred {
      ReadyOneMore(env, before, jobs[i], mem0);
      ExecuteSplit(env, before, [jobs[i]], mem0);
      ExecuteOne(env, jobs[i], mem1);
    }
  }

  lemma BothReady(env: Env, a: seq<Job>, b: seq<Job>, mem: Memory)
    requires forall j :: j in a ==> Supported(env, j) && Target(env, j) in mem
    requires forall j :: j in b ==> Supported(env, j) && Target(env, j) in mem
    ensures Ready(env, a + b, mem)
  {
  }

  lemma ExecuteOne(env: Env, j: Job, mem: Memory)
    requires Supported(env, j) && Target(env, j) in mem
    ensures Execute(env, [j], mem) == mem[Target(env, j) := Effect(env, j, mem)]
  {
  }

  lemma ReadyOneMore(env: Env, jobs: seq<Job>, j: Job, mem: Memory)
    requires Ready(env, jobs, mem) && Supported(env, j) && Target(env, j) in mem
    ensures Ready(env, jobs + [j], mem)
  {
  }

  lemma {:induction false} PhaseAppend(env: Env, jobs: seq<Job>, j: Job, deferred: bool)
    ensures Phase(env, jobs + [j], deferred)
      == Phase(env, jobs, deferred) + if Deferred(env, j) == deferred then [j] else []
    decreases |jobs|
  {
    hide Deferred;
    if jobs == [] {
      assert [j][1..] == [] && [] + [j] == [j];
    } else {
      assert (jobs + [j])[1..] == jobs[1..] + [j];
      PhaseAppend(env, jobs[1..], j, deferred);
    }
  }

  lemma ExecuteTwice(env: Env, a: seq<Job>, b: seq<Job>, mem0: Memory, mem1: Memory, mem2: Memory)
    requires Ready(env, a, mem0) && mem1 == Execute(env, a, mem0)
    requires Ready(env, b, mem1) && mem2 == Execute(env, b, mem1)
    ensures Ready(env, a + b, mem0) && mem2 == Execute(env, a + b, mem0)
  {
    assert forall j :: j in a + b <==> j in a || j in b;
    ExecuteSplit(env, a, b, mem0);
  }

  lemma FourPasses(env: Env, a: seq<Job>, b: seq<Job>, mem0: Memory, mem1: Memory, mem2: Memory, mem3: Memory,
          mem: Memory)
    requires Passed(env, a, false, mem0, mem1) && Passed(env, b, false, mem1, mem2)
    requires Passed(env, a, true, mem2, mem3) && Passed(env, b, true, mem3, mem)
    ensures Ready(env, Schedule(env, a, b), mem0) && mem == Execute(env, Schedule(env, a, b), mem0)
  {
    hide Phase, Execute, Ready;
    ExecuteTwice(env, Phase(env, a, false), Phase(env, b, false), mem0, mem1, mem2);
    ExecuteTwice(env, Phase(env, a, false) + Phase(env, b, false), Phase(env, a, true), mem0, mem2, mem3);
    ExecuteTwice(env, Phase(env, a, false) + Phase(env, b, false) + Phase(env, a, true), Phase(env, b, true), mem0,
        mem3, mem);
  }
}
