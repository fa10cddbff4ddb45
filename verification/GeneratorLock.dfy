// The kernel generator of kernel/src/common/entropy.c and its lock word, used by any number of
// callers in any interleaving, and the per-thread user generators. What the generator computes is
// left open: only the order of its operations and its tick count (randlib/src/random.c) matter.
module GeneratorLock {
  const KERNEL_TICKS := 16
  const USER_TICKS := 128

  // An operation on the generator, and the critical section it belongs to: a poll, an ingest of slow
  // entropy, or one of the caller's data. Sections are numbered in the order in which the lock was taken.
  datatype GenOp = Poll(section: nat) | Seed(section: nat) | Ingest(section: nat)

  datatype Pc =
    | Idle
    // random_kglobal_gen
    | GenTry | GenCheck | GenSeed | GenPoll | GenUnlock | Refused
    // random_kglobal_ingest
    | IngestLock | IngestCheck | IngestSeed | IngestData | IngestUnlock

  // Who took the lock for a section, and for what: random_kglobal_gen or random_kglobal_ingest
  datatype Taker = Taker(caller: nat, gen: bool)

  datatype State = State(locked: bool, ticks: nat, ops: seq<GenOp>, takers: seq<Taker>, pc: seq<Pc>)

  predicate Initial(s: State) {
    && !s.locked && s.ticks <= KERNEL_TICKS && s.ops == [] && s.takers == []
    && forall c :: 0 <= c < |s.pc| ==> s.pc[c] == Idle
  }

  function Goto(s: State, c: nat, pc: Pc): State
    requires c < |s.pc|
  {
    s.(pc := s.pc[c := pc])
  }

  // rand_ingest and rand_poll, inside the current section
  function DoSeed(s: State): State {
    s.(ticks := 0, ops := s.ops + [Seed(|s.takers|)])
  }

  function DoIngest(s: State): State {
    s.(ticks := 0, ops := s.ops + [Ingest(|s.takers|)])
  }

  function DoPoll(s: State): State {
    s.(ticks := s.ticks + 1, ops := s.ops + [Poll(|s.takers|)])
  }

  function TakeLock(s: State, c: nat, gen: bool): State {
    s.(locked := true, takers := s.takers + [Taker(c, gen)])
  }

  // The next step of a caller that is in a call
  function Advanced(s: State, c: nat): State
    requires c < |s.pc| && !s.pc[c].Idle?
  {
    match s.pc[c]
    case GenTry => if s.locked then Goto(s, c, Refused) else Goto(TakeLock(s, c, true), c, GenCheck)
    case GenCheck => Goto(s, c, if s.ticks >= KERNEL_TICKS then GenSeed else GenPoll)
    case GenSeed => Goto(DoSeed(s), c, GenPoll)
    case GenPoll => Goto(DoPoll(s), c, GenUnlock)
    case GenUnlock => Goto(s.(locked := false), c, Idle)
    case Refused => Goto(s, c, Idle)
    case IngestLock => if s.locked then s else Goto(TakeLock(s, c, false), c, IngestCheck)
    case IngestCheck => Goto(s, c, if s.ticks >= KERNEL_TICKS / 2 then IngestSeed else IngestData)
    case IngestSeed => Goto(DoSeed(s), c, IngestData)
    case IngestData => Goto(DoIngest(s), c, IngestUnlock)
    case IngestUnlock => Goto(s.(locked := false), c, Idle)
  }

  // An idle caller starts a gen or an ingest.
  ghost predicate Step(s: State, c: nat, s': State)
    requires c < |s.pc|
  {
    if s.pc[c].Idle? then s' == Goto(s, c, GenTry) || s' == Goto(s, c, IngestLock) else s' == Advanced(s, c)
  }

  ghost predicate Next(s: State, s': State) {
    exists c: nat :: c < |s.pc| && Step(s, c, s')
  }

  ghost predicate Run(r: seq<State>) {
    && |r| > 0 && Initial(r[0])
    && forall i :: 0 <= i < |r| - 1 ==> Next(r[i], r[i + 1])
  }

  predicate Inside(s: State, c: nat) {
    c < |s.pc| && !s.pc[c].Idle? && !s.pc[c].GenTry? && !s.pc[c].Refused? && !s.pc[c].IngestLock?
  }

  datatype Holder = Nobody | Caller(c: nat)

  // Polls since the last ingest; `base` is the count the generator started with.
  function Trailing(ops: seq<GenOp>, base: nat): nat {
    if ops == [] then base
    else if !ops[|ops| - 1].Poll? then 0
    else Trailing(ops[..|ops| - 1], base) + 1
  }

  ghost predicate Inv(s: State, h: Holder, base: nat) {
    && (s.locked <==> h.Caller?)
    && (forall c: nat :: Inside(s, c) <==> h == Caller(c))
    && s.ticks <= KERNEL_TICKS
    && (h.Caller? && s.pc[h.c] == GenPoll ==> s.ticks < KERNEL_TICKS)
    && s.ticks == Trailing(s.ops, base)
    && InOrder(s.ops, |s.takers|)
    && AlwaysFresh(s.ops, KERNEL_TICKS)
    && (h.Caller? ==> s.takers != [])
    && FinishedSections(s.ops, s.takers, if h.Caller? then |s.takers| - 1 else |s.takers|, base)
    && (h.Caller? ==> AtPc(s.ops, s.takers, s.pc[h.c], base) && s.takers[|s.takers| - 1].caller == h.c)
  }

  ghost predicate InOrder(ops: seq<GenOp>, sections: nat) {
    && (forall i, j :: 0 <= i <= j < |ops| ==> ops[i].section <= ops[j].section)
    && (forall i :: 0 <= i < |ops| ==> ops[i].section <= sections)
  }

  ghost predicate FreshWithin(ops: seq<GenOp>, i: nat, j: nat) {
    exists k :: i <= k <= j && k < |ops| && !ops[k].Poll?
  }

  // The operations of section n, and of the sections before it
  function OpsOf(ops: seq<GenOp>, n: nat): seq<GenOp> {
    if ops == [] then []
    else OpsOf(ops[..|ops| - 1], n) + if ops[|ops| - 1].section == n then [ops[|ops| - 1]] else []
  }

  function OpsBefore(ops: seq<GenOp>, n: nat): seq<GenOp> {
    if ops == [] then []
    else OpsBefore(ops[..|ops| - 1], n) + if ops[|ops| - 1].section < n then [ops[|ops| - 1]] else []
  }

  // Slow entropy is due when the polls since the last ingest have come to the limit, or to half of it for
  // an ingest.
  predicate Due(ops: seq<GenOp>, n: nat, gen: bool, base: nat, limit: nat) {
    Trailing(OpsBefore(ops, n), base) >= if gen then limit else limit / 2
  }

  // A gen polls once and an ingest takes in its data once, after the slow entropy that is due.
  function SectionOps(n: nat, due: bool, gen: bool): seq<GenOp> {
    (if due then [Seed(n)] else []) + [if gen then Poll(n) else Ingest(n)]
  }

  predicate SectionDone(ops: seq<GenOp>, n: nat, gen: bool, base: nat, limit: nat) {
    OpsOf(ops, n) == SectionOps(n, Due(ops, n, gen, base, limit), gen)
  }

  ghost predicate FinishedSections(ops: seq<GenOp>, takers: seq<Taker>, n: nat, base: nat)
    requires n <= |takers|
  {
    forall k: nat :: k < n ==> SectionDone(ops, k + 1, takers[k].gen, base, KERNEL_TICKS)
  }

  // What the caller has done of its section n when it is at this line
  predicate AtLine(done: seq<GenOp>, n: nat, due: bool, gen: bool, pc: Pc) {
    match pc
    case GenCheck => gen && done == []
    case GenSeed => gen && done == [] && due
    case GenPoll => gen && done == if due then [Seed(n)] else []
    case GenUnlock => gen && done == SectionOps(n, due, gen)
    case IngestCheck => !gen && done == []
    case IngestSeed => !gen && done == [] && due
    case IngestData => !gen && done == if due then [Seed(n)] else []
    case IngestUnlock => !gen && done == SectionOps(n, due, gen)
    case _ => true
  }

  predicate AtPc(ops: seq<GenOp>, takers: seq<Taker>, pc: Pc, base: nat)
    requires takers != []
  {
    var n, gen := |takers|, takers[|takers| - 1].gen;
    AtLine(OpsOf(ops, n), n, Due(ops, n, gen, base, KERNEL_TICKS), gen, pc)
  }

  lemma OpsOfMore(ops: seq<GenOp>, op: GenOp, n: nat)
    ensures OpsOf(ops + [op], n) == if op.section == n then OpsOf(ops, n) + [op] else OpsOf(ops, n)
    ensures OpsBefore(ops + [op], n) == if op.section < n then OpsBefore(ops, n) + [op] else OpsBefore(ops, n)
  {
    assert (ops + [op])[..|ops|] == ops;
  }

  lemma NoneOf(n: nat)
    ensures OpsOf([], n) == [] && OpsBefore([], n) == []
  {
  }

  lemma InOrderFirst(ops: seq<GenOp>, sections: nat)
    requires ops != [] && InOrder(ops, sections)
    ensures InOrder(ops[..|ops| - 1], sections) && ops[|ops| - 1].section <= sections
    ensures ops == ops[..|ops| - 1] + [ops[|ops| - 1]]
  {
  }

  lemma {:induction false} NoOpsYet(ops: seq<GenOp>, sections: nat, n: nat)
    requires InOrder(ops, sections) && sections < n
    ensures OpsOf(ops, n) == [] && OpsBefore(ops, n) == ops
    decreases |ops|
  {
    hide InOrder, OpsOf, OpsBefore;
    NoneOf(n);
    if ops != [] {
      InOrderFirst(ops, sections);
      NoOpsYet(ops[..|ops| - 1], sections, n);
      OpsOfMore(ops[..|ops| - 1], ops[|ops| - 1], n);
    }
  }

  // As long as the last section has no operation, those before it are all.
  lemma {:induction false} OpsInOrder(ops: seq<GenOp>, n: nat)
    requires InOrder(ops, n)
    ensures OpsOf(ops, n) == [] ==> OpsBefore(ops, n) == ops
    decreases |ops|
  {
    hide InOrder, OpsOf, OpsBefore;
    NoneOf(n);
    if ops != [] {
      InOrderFirst(ops, n);
      OpsInOrder(ops[..|ops| - 1], n);
      OpsOfMore(ops[..|ops| - 1], ops[|ops| - 1], n);
    }
  }

  // What is added to the last section leaves the others as they are.
  lemma FinishedStay(ops: seq<GenOp>, op: GenOp, takers: seq<Taker>, n: nat, base: nat)
    requires n < |takers| && op.section == |takers| && FinishedSections(ops, takers, n, base)
    ensures FinishedSections(ops + [op], takers, n, base)
  {
    hide Trailing, OpsOf, OpsBefore;
    forall k: nat | k < n
      ensures SectionDone(ops + [op], k + 1, takers[k].gen, base, KERNEL_TICKS)
    {
      OpsOfMore(ops, op, k + 1);
    }
  }

  // Any limit + 1 operations in a row include an ingest.
  ghost predicate AlwaysFresh(ops: seq<GenOp>, limit: nat) {
    forall i: nat, j: nat :: i + limit <= j < |ops| ==> FreshWithin(ops, i, j)
  }

  // A stretch of polls at the end is no longer than the count of polls since the last ingest.
  lemma {:induction false} TrailingPolls(ops: seq<GenOp>, base: nat, i: nat)
    requires i < |ops| && forall k :: i <= k < |ops| ==> ops[k].Poll?
    ensures Trailing(ops, base) >= |ops| - i
    decreases |ops|
  {
    if i < |ops| - 1 {
      TrailingPolls(ops[..|ops| - 1], base, i);
    }
  }

  lemma OneMoreOp(ops: seq<GenOp>, op: GenOp, base: nat)
    ensures Trailing(ops + [op], base) == if op.Poll? then Trailing(ops, base) + 1 else 0
  {
    assert (ops + [op])[..|ops|] == ops;
  }

  lemma OpAdded(ops: seq<GenOp>, op: GenOp, sections: nat, base: nat, limit: nat)
    requires Trailing(ops + [op], base) <= limit
    requires InOrder(ops, sections) && AlwaysFresh(ops, limit) && op.section == sections
    ensures InOrder(ops + [op], sections) && AlwaysFresh(ops + [op], limit)
  {
    var more := ops + [op];
    forall i: nat, j: nat | i + limit <= j < |more|
      ensures FreshWithin(more, i, j)
    {
      if j < |ops| {
        assert FreshWithin(ops, i, j);
        var k :| i <= k <= j && k < |ops| && !ops[k].Poll?;
        assert !more[k].Poll?;
      } else if !FreshWithin(more, i, j) {
        TrailingPolls(more, base, i);
      }
    }
  }

  lemma StepKeepsInv(s: State, c: nat, s': State, h: Holder, base: nat) returns (h': Holder)
    requires Inv(s, h, base) && c < |s.pc| && Step(s, c, s')
    ensures Inv(s', h', base)
  {
    hide AlwaysFresh, InOrder, Trailing, FinishedSections, AtPc, SectionDone;
    h' := match s.pc[c]
      case GenTry => (if s.locked then h else Caller(c))
      case IngestLock => (if s.locked then h else Caller(c))
      case GenUnlock => Nobody
      case IngestUnlock => Nobody
      case _ => h;
    assert Inside(s, c) <==> h == Caller(c);
    assert forall d: nat :: d != c ==> (Inside(s', d) <==> Inside(s, d));
    if h == Caller(c) {
      OpsTakenOver(s, c, s');
      if s'.ops != s.ops {
        OpKeeps(s.ops, s'.ops[|s.ops|], s.takers, base);
      }
      SectionGoesOn(s, c, s', base);
      OneMoreFinished(s.ops, s.takers, base);
    } else if h'.Caller? && h.Nobody? {
      SectionBegins(s.ops, s.takers, s'.takers[|s.takers|], s'.pc[c], base);
      LaterSection(s.ops, |s.takers|);
    }
  }

  lemma OneMoreFinished(ops: seq<GenOp>, takers: seq<Taker>, base: nat)
    requires takers != [] && FinishedSections(ops, takers, |takers| - 1, base)
    ensures SectionDone(ops, |takers|, takers[|takers| - 1].gen, base, KERNEL_TICKS) ==>
      FinishedSections(ops, takers, |takers|, base)
  {
  }

  lemma OpKeeps(ops: seq<GenOp>, op: GenOp, takers: seq<Taker>, base: nat)
    requires takers != [] && op.section == |takers| && InOrder(ops, |takers|) && AlwaysFresh(ops, KERNEL_TICKS)
    requires FinishedSections(ops, takers, |takers| - 1, base)
    requires op.Poll? ==> Trailing(ops, base) < KERNEL_TICKS
    ensures Trailing(ops + [op], base) == if op.Poll? then Trailing(ops, base) + 1 else 0
    ensures InOrder(ops + [op], |takers|) && AlwaysFresh(ops + [op], KERNEL_TICKS)
    ensures FinishedSections(ops + [op], takers, |takers| - 1, base)
  {
    hide AlwaysFresh, InOrder, Trailing, FinishedSections;
    OneMoreOp(ops, op, base);
    OpAdded(ops, op, |takers|, base, KERNEL_TICKS);
    FinishedStay(ops, op, takers, |takers| - 1, base);
  }

  // One step of the caller inside
  lemma SectionGoesOn(s: State, c: nat, s': State, base: nat)
    requires c < |s.pc| && Step(s, c, s') && Inside(s, c) && s.takers != []
    requires s.ticks == Trailing(s.ops, base) && InOrder(s.ops, |s.takers|) && AtPc(s.ops, s.takers, s.pc[c], base)
    ensures Inside(s', c) ==> AtPc(s'.ops, s'.takers, s'.pc[c], base)
    ensures !Inside(s', c) ==> SectionDone(s.ops, |s.takers|, s.takers[|s.takers| - 1].gen, base, KERNEL_TICKS)
  {
    hide Trailing, OpsOf, OpsBefore, InOrder, AtLine, SectionOps;
    var n, gen := |s.takers|, s.takers[|s.takers| - 1].gen;
    OpsInOrder(s.ops, n);
    var due := Due(s.ops, n, gen, base, KERNEL_TICKS);
    LineStep(OpsOf(s.ops, n), n, due, gen, s, c, s');
    OpsTakenOver(s, c, s');
    hide Step, Advanced;
    var more := s'.ops[|s.ops|..];
    if more != [] {
      OpsOfMore(s.ops, more[0], n);
    } else {
      assert OpsOf(s.ops, n) + more == OpsOf(s.ops, n);
    }
    assert Inside(s', c) ==> AtLine(OpsOf(s'.ops, n), n, Due(s'.ops, n, gen, base, KERNEL_TICKS), gen, s'.pc[c]);
  }

  // The caller inside adds at most one operation, to its own section.
  lemma OpsTakenOver(s: State, c: nat, s': State)
    requires c < |s.pc| && Step(s, c, s') && Inside(s, c)
    ensures s'.takers == s.takers && |s.ops| <= |s'.ops|
    ensures var more := s'.ops[|s.ops|..];
      (more == [] && s'.ops == s.ops)
      || (|more| == 1 && s'.ops == s.ops + [more[0]] && more == [more[0]] && more[0].section == |s.takers|)
  {
  }

  lemma LineStep(done: seq<GenOp>, n: nat, due: bool, gen: bool, s: State, c: nat, s': State)
    requires c < |s.pc| && Step(s, c, s') && Inside(s, c) && n == |s.takers|
    requires AtLine(done, n, due, gen, s.pc[c])
    requires done == [] ==> due == (s.ticks >= if gen then KERNEL_TICKS else KERNEL_TICKS / 2)
    ensures Inside(s', c) ==> AtLine(done + s'.ops[|s.ops|..], n, due, gen, s'.pc[c])
    ensures !Inside(s', c) ==> done == SectionOps(n, due, gen)
  {
  }

  lemma SectionBegins(ops: seq<GenOp>, takers: seq<Taker>, t: Taker, pc: Pc, base: nat)
    requires InOrder(ops, |takers|) && FinishedSections(ops, takers, |takers|, base)
    requires pc == if t.gen then GenCheck else IngestCheck
    ensures AtPc(ops, takers + [t], pc, base) && FinishedSections(ops, takers + [t], |takers|, base)
  {
    hide Trailing, OpsOf, OpsBefore, InOrder;
    NoOpsYet(ops, |takers|, |takers| + 1);
    forall k: nat | k < |takers|
      ensures SectionDone(ops, k + 1, (takers + [t])[k].gen, base, KERNEL_TICKS)
    {
      assert (takers + [t])[k] == takers[k];
    }
  }

  lemma LaterSection(ops: seq<GenOp>, sections: nat)
    requires InOrder(ops, sections)
    ensures InOrder(ops, sections + 1)
  {
  }

  lemma {:induction false} RunKeepsInv(r: seq<State>, i: nat) returns (h: Holder)
    requires Run(r) && i < |r|
    ensures Inv(r[i], h, r[0].ticks)
    decreases i
  {
    if i == 0 {
      h := Nobody;
    } else {
      var h0 := RunKeepsInv(r, i - 1);
      assert Next(r[i - 1], r[i]);
      var c: nat :| c < |r[i - 1].pc| && Step(r[i - 1], c, r[i]);
      h := StepKeepsInv(r[i - 1], c, r[i], h0, r[0].ticks);
    }
  }

  // In every state of every interleaving at most one caller is inside, and the tick count stays
  // within its limit.
  lemma KernelGeneratorSafe(r: seq<State>, i: nat)
    requires Run(r) && i < |r|
    ensures forall c: nat, d: nat :: Inside(r[i], c) && Inside(r[i], d) ==> c == d
    ensures r[i].ticks <= KERNEL_TICKS
  {
    var h := RunKeepsInv(r, i);
  }

  // The operations of one section are not interleaved with others, and among any 17 operations in a
  // row there is fresh data.
  lemma KernelGeneratorOrder(r: seq<State>, n: nat, i: nat, j: nat, k: nat)
    requires Run(r) && n < |r| && i <= j <= k < |r[n].ops|
    ensures r[n].ops[i].section == r[n].ops[k].section ==> r[n].ops[j].section == r[n].ops[i].section
    ensures k - i >= KERNEL_TICKS ==> FreshWithin(r[n].ops, i, k)
  {
    var h := RunKeepsInv(r, n);
  }

  // What the finished sections hold, in every state of every interleaving. Section k + 1 is finished when
  // it is not the last one, or its caller is outside.
  lemma KernelSections(r: seq<State>, i: nat, k: nat)
    requires Run(r) && i < |r| && k < |r[i].takers|
    requires k + 1 < |r[i].takers| || !Inside(r[i], r[i].takers[k].caller)
    ensures var ops, n := r[i].ops, k + 1;
      var polls := Trailing(OpsBefore(ops, n), r[0].ticks);
      OpsOf(ops, n) ==
        if r[i].takers[k].gen then (if polls >= 16 then [Seed(n), Poll(n)] else [Poll(n)])
        else if polls >= 8 then [Seed(n), Ingest(n)] else [Ingest(n)]
  {
    hide Trailing, OpsOf, OpsBefore, InOrder, AlwaysFresh;
    var h := RunKeepsInv(r, i);
    assert SectionDone(r[i].ops, k + 1, r[i].takers[k].gen, r[0].ticks, KERNEL_TICKS);
  }

  // The sections of one caller, in order: true for a gen.
  function Own(takers: seq<Taker>, c: nat): seq<bool> {
    if takers == [] then []
    else
      var last := takers[|takers| - 1];
      Own(takers[..|takers| - 1], c) + if last.caller == c then [last.gen] else []
  }

  lemma OwnMore(takers: seq<Taker>, t: Taker, c: nat)
    ensures Own(takers + [t], c) == if t.caller == c then Own(takers, c) + [t.gen] else Own(takers, c)
  {
    assert (takers + [t])[..|takers|] == takers;
  }

  // Caller c makes one call from state a to state b.
  ghost predicate OneCall(r: seq<State>, a: nat, b: nat, c: nat) {
    && a + 1 < b < |r| && c < |r[a].pc| && c < |r[b].pc| && r[a].pc[c] == Idle && r[b].pc[c] == Idle
    && forall k :: a < k < b ==> c < |r[k].pc| && r[k].pc[c] != Idle
  }

  ghost predicate InUse(s: State, c: nat) {
    exists d: nat :: d != c && Inside(s, d)
  }

  // Some time between a and b the caller was refused while another one was inside.
  ghost predicate RefusedBetween(r: seq<State>, a: nat, b: nat, c: nat) {
    exists k: nat :: a < k < b && k + 1 < |r| && c < |r[k].pc| && c < |r[k + 1].pc| &&
      r[k].pc[c] == GenTry && r[k + 1].pc[c] == Refused && InUse(r[k], c)
  }

  // How far a call has come whose caller is at this line: `own0` are its sections before the call.
  predicate Stands(pc: Pc, own0: seq<bool>, own: seq<bool>, gen: bool) {
    match pc
    case Idle => false
    case GenTry | Refused => gen && own == own0
    case IngestLock => !gen && own == own0
    case GenCheck | GenSeed | GenPoll | GenUnlock => gen && own == own0 + [gen]
    case IngestCheck | IngestSeed | IngestData | IngestUnlock => !gen && own == own0 + [gen]
  }

  // How one step moves its caller
  predicate Moves(pc: Pc, pc': Pc, locked: bool) {
    match pc
    case Idle => pc'.GenTry? || pc'.IngestLock?
    case GenTry => pc' == if locked then Refused else GenCheck
    case GenCheck => pc'.GenSeed? || pc'.GenPoll?
    case GenSeed => pc'.GenPoll?
    case GenPoll => pc'.GenUnlock?
    case IngestLock => pc' == if locked then IngestLock else IngestCheck
    case IngestCheck => pc'.IngestSeed? || pc'.IngestData?
    case IngestSeed => pc'.IngestData?
    case IngestData => pc'.IngestUnlock?
    case GenUnlock | Refused | IngestUnlock => pc'.Idle?
  }

  predicate Takes(pc: Pc, locked: bool) {
    !locked && (pc.GenTry? || pc.IngestLock?)
  }

  lemma OwnStep(s: State, s': State, c: nat)
    requires c < |s.pc| && Step(s, c, s')
    ensures |s'.pc| == |s.pc| && Moves(s.pc[c], s'.pc[c], s.locked)
    ensures Own(s'.takers, c) ==
      if Takes(s.pc[c], s.locked) then Own(s.takers, c) + [s.pc[c].GenTry?] else Own(s.takers, c)
  {
    hide Own;
    if Takes(s.pc[c], s.locked) {
      OwnMore(s.takers, Taker(c, s.pc[c].GenTry?), c);
    }
  }

  lemma OthersStep(s: State, d: nat, s': State, c: nat)
    requires c < |s.pc| && d < |s.pc| && d != c && Step(s, d, s')
    ensures |s'.pc| == |s.pc| && s'.pc[c] == s.pc[c] && Own(s'.takers, c) == Own(s.takers, c)
  {
    hide Own;
    if Takes(s.pc[d], s.locked) {
      OwnMore(s.takers, Taker(d, s.pc[d].GenTry?), c);
    }
  }

  lemma MovesStands(pc: Pc, pc': Pc, locked: bool, own0: seq<bool>, own: seq<bool>, own': seq<bool>, gen: bool)
    requires Moves(pc, pc', locked) && own' == if Takes(pc, locked) then own + [pc.GenTry?] else own
    ensures Stands(pc, own0, own, gen) && !pc'.Idle? ==> Stands(pc', own0, own', gen)
    ensures Stands(pc, own0, own, gen) && pc'.Idle? ==>
      (pc.Refused? ==> gen) && own' == if pc.Refused? then own0 else own0 + [gen]
    ensures Stands(pc, own0, own, gen) && pc'.Refused? ==> pc.GenTry? && locked
    ensures pc.Idle? && own == own0 ==> Stands(pc', own0, own', pc'.GenTry?)
  {
  }

  // One step of any caller d, seen from the call of c
  lemma StandsStep(s: State, d: nat, s': State, c: nat, own0: seq<bool>, gen: bool)
    requires c < |s.pc| && d < |s.pc| && Step(s, d, s')
    ensures |s'.pc| == |s.pc|
    ensures var before, after := s.pc[c], s'.pc[c];
      && (before.Idle? && !after.Idle? && own0 == Own(s.takers, c) && gen == after.GenTry? ==>
            Stands(after, own0, Own(s'.takers, c), gen) && !after.Refused?)
      && (Stands(before, own0, Own(s.takers, c), gen) ==>
            && (!after.Idle? ==> Stands(after, own0, Own(s'.takers, c), gen))
            && (after.Idle? ==>
                  (before.Refused? ==> gen) && Own(s'.takers, c) == if before.Refused? then own0 else own0 + [gen])
            && (after.Refused? ==> before.Refused? || (before.GenTry? && s.locked)))
  {
    hide Own, Step, Advanced, Stands, Moves, Takes;
    if d == c {
      OwnStep(s, s', c);
      MovesStands(s.pc[c], s'.pc[c], s.locked, own0, Own(s.takers, c), Own(s'.takers, c), gen);
    } else {
      OthersStep(s, d, s', c);
      NeverIdle(s.pc[c], own0, Own(s.takers, c), gen);
    }
  }

  lemma StepBefore(r: seq<State>, k: nat) returns (d: nat)
    requires Run(r) && 0 < k < |r|
    ensures d < |r[k - 1].pc| && Step(r[k - 1], d, r[k])
  {
    assert Next(r[k - 1], r[k]);
    d :| d < |r[k - 1].pc| && Step(r[k - 1], d, r[k]);
  }

  lemma NeverIdle(pc: Pc, own0: seq<bool>, own: seq<bool>, gen: bool)
    ensures Stands(pc, own0, own, gen) ==> !pc.Idle?
  {
  }

  lemma {:induction false} CallGoesOn(r: seq<State>, a: nat, k: nat, c: nat, own0: seq<bool>, gen: bool)
    requires Run(r) && a < k < |r| && c < |r[a].pc| && r[a].pc[c] == Idle && own0 == Own(r[a].takers, c)
    requires forall m :: a < m <= k ==> c < |r[m].pc| && r[m].pc[c] != Idle
    requires gen == r[a + 1].pc[c].GenTry?
    ensures Stands(r[k].pc[c], own0, Own(r[k].takers, c), gen)
    ensures r[k].pc[c] == Refused ==> RefusedBetween(r, a, k, c)
    decreases k
  {
    hide Own, Step, Advanced, Run, RefusedBetween, Stands;
    var s, s' := r[k - 1], r[k];
    var d := StepBefore(r, k);
    if k == a + 1 {
      StandsStep(s, d, s', c, own0, gen);
    } else {
      CallGoesOn(r, a, k - 1, c, own0, gen);
      StandsStep(s, d, s', c, own0, gen);
      if s'.pc[c] == Refused {
        RefusedLater(r, a, k, c);
      }
    }
  }

  lemma RefusedLater(r: seq<State>, a: nat, k: nat, c: nat)
    requires Run(r) && a + 1 < k < |r| && c < |r[k - 1].pc| && c < |r[k].pc| && r[k].pc[c] == Refused
    requires r[k - 1].pc[c] == Refused || (r[k - 1].pc[c] == GenTry && r[k - 1].locked)
    requires r[k - 1].pc[c] == Refused ==> RefusedBetween(r, a, k - 1, c)
    ensures RefusedBetween(r, a, k, c)
  {
    hide RefusedBetween;
    if r[k - 1].pc[c] == Refused {
      RefusedEarlier(r, a, k, c);
    } else {
      RefusalSeen(r, a, k, c);
    }
  }

  lemma RefusalSeen(r: seq<State>, a: nat, k: nat, c: nat)
    requires Run(r) && a + 1 < k < |r| && c < |r[k - 1].pc| && c < |r[k].pc|
    requires r[k - 1].pc[c] == GenTry && r[k].pc[c] == Refused && r[k - 1].locked
    ensures RefusedBetween(r, a, k, c)
  {
    var h := RunKeepsInv(r, k - 1);
    hide Run;
    assert Inside(r[k - 1], h.c);
    assert InUse(r[k - 1], c);
    var m: nat := k - 1;
    assert r[m].pc[c] == GenTry && r[m + 1].pc[c] == Refused;
  }

  lemma RefusedEarlier(r: seq<State>, a: nat, k: nat, c: nat)
    requires 0 < k && RefusedBetween(r, a, k - 1, c)
    ensures RefusedBetween(r, a, k, c)
  {
  }

  // A finished call has had exactly one section, of its kind, or was a gen that was refused, because
  // another caller was inside, and has had none.
  lemma KernelCall(r: seq<State>, a: nat, b: nat, c: nat)
    requires Run(r) && OneCall(r, a, b, c)
    ensures var gen := r[a + 1].pc[c].GenTry?;
      || Own(r[b].takers, c) == Own(r[a].takers, c) + [gen]
      || (gen && Own(r[b].takers, c) == Own(r[a].takers, c) && RefusedBetween(r, a, b, c))
  {
    hide Own, Step, Advanced, Run, RefusedBetween, Stands;
    var s, s' := r[b - 1], r[b];
    var d := StepBefore(r, b);
    var own0, gen := Own(r[a].takers, c), r[a + 1].pc[c].GenTry?;
    CallGoesOn(r, a, b - 1, c, own0, gen);
    StandsStep(s, d, s', c, own0, gen);
    if s.pc[c] == Refused {
      RefusedEarlier(r, a, b, c);
    }
  }

  // The steps left to a caller until its call is over, not counting those that wait for the lock
  function Left(pc: Pc): (n: nat)
    ensures n <= 5
  {
    match pc
    case Idle => 0
    case GenTry | IngestLock => 5
    case GenCheck | IngestCheck => 4
    case GenSeed | IngestSeed => 3
    case GenPoll | IngestData => 2
    case GenUnlock | IngestUnlock | Refused => 1
  }

  function LeftInAll(pc: seq<Pc>): (n: nat)
    ensures n <= 5 * |pc|
  {
    if pc == [] then 0 else LeftInAll(pc[..|pc| - 1]) + Left(pc[|pc| - 1])
  }

  lemma {:induction false} LeftAfter(pc: seq<Pc>, c: nat, next: Pc)
    requires c < |pc|
    ensures LeftInAll(pc[c := next]) == LeftInAll(pc) - Left(pc[c]) + Left(next)
    decreases |pc|
  {
    var n := |pc| - 1;
    if c < n {
      LeftAfter(pc[..n], c, next);
      assert pc[c := next][..n] == pc[..n][c := next];
    } else {
      assert pc[c := next][..n] == pc[..n];
    }
  }

  // A step that changes something, of a caller that is in a call
  ghost predicate Busy(s: State, s': State) {
    exists c: nat :: c < |s.pc| && !s.pc[c].Idle? && Step(s, c, s') && s' != s
  }

  lemma {:induction false} BusySteps(r: seq<State>, i: nat, j: nat)
    requires i <= j < |r| && forall k :: i <= k < j ==> Busy(r[k], r[k + 1])
    ensures LeftInAll(r[j].pc) + (j - i) <= LeftInAll(r[i].pc)
    decreases j
  {
    hide LeftInAll, Busy;
    if i < j {
      BusySteps(r, i, j - 1);
      BusyShortens(r[j - 1], r[j]);
    }
  }

  lemma BusyShortens(s: State, s': State)
    requires Busy(s, s')
    ensures LeftInAll(s'.pc) < LeftInAll(s.pc)
  {
    hide LeftInAll;
    var c: nat :| c < |s.pc| && !s.pc[c].Idle? && Step(s, c, s') && s' != s;
    OneLeftLess(s, c);
    LeftAfter(s.pc, c, s'.pc[c]);
  }

  lemma OneLeftLess(s: State, c: nat)
    requires c < |s.pc| && !s.pc[c].Idle? && Advanced(s, c) != s
    ensures var pc := Advanced(s, c).pc;
      |pc| == |s.pc| && pc == s.pc[c := pc[c]] && Left(pc[c]) < Left(s.pc[c])
  {
  }

  // All calls end: as long as one has not ended, some caller in a call can change something; and callers
  // that do, with no new calls coming, are done after at most five steps each.
  lemma CallsEnd(r: seq<State>, i: nat, j: nat)
    requires Run(r) && i <= j < |r| && forall k :: i <= k < j ==> Busy(r[k], r[k + 1])
    ensures j - i <= 5 * |r[i].pc|
    ensures (exists s :: Busy(r[j], s)) <==> exists c: nat :: c < |r[j].pc| && r[j].pc[c] != Idle
  {
    BusySteps(r, i, j);
    var s := r[j];
    if c: nat :| c < |s.pc| && s.pc[c] != Idle {
      var h := RunKeepsInv(r, j);
      SomeoneBusy(s, c, h, r[0].ticks);
    }
  }

  lemma SomeoneBusy(s: State, c: nat, h: Holder, base: nat)
    requires Inv(s, h, base) && c < |s.pc| && s.pc[c] != Idle
    ensures exists s' :: Busy(s, s')
  {
    hide InOrder, AlwaysFresh, FinishedSections, AtPc, Trailing;
    assert h.Caller? ==> Inside(s, h.c);
    var d := if s.pc[c] == IngestLock && s.locked then h.c else c;
    var s' := Advanced(s, d);
    assert s'.pc[d] != s.pc[d];
    assert Busy(s, s');
  }

  // Only the caller inside touches the generator: a caller that is refused, or that waits, does not.
  lemma OutsidersLeaveGenerator(s: State, c: nat, s': State)
    requires c < |s.pc| && Step(s, c, s') && !Inside(s, c)
    ensures s'.ticks == s.ticks && s'.ops == s.ops
    ensures s.locked ==> s'.locked && !Inside(s', c)
  {
  }

  // --- The generator of one thread, used by that thread alone ------------------------------------

  // random_global_gen and random_global_ingest, one after the other in any order
  datatype Call = GenCall | IngestCall

  // The state that a thread's calls may leave: at most 128 polls since the last ingest, the calls in
  // order, and an ingest among any 129 operations in a row.
  ghost predicate UserInv(ops: seq<GenOp>, ticks: nat, calls: nat) {
    ticks == Trailing(ops, 0) <= USER_TICKS && InOrder(ops, calls) && AlwaysFresh(ops, USER_TICKS)
  }

  lemma UserOpAdded(ops: seq<GenOp>, op: GenOp, ticks: nat, calls: nat)
    requires UserInv(ops, ticks, calls) && op.section == calls && (op.Poll? ==> ticks < USER_TICKS)
    ensures UserInv(ops + [op], if op.Poll? then ticks + 1 else 0, calls)
  {
    hide Trailing, InOrder, AlwaysFresh;
    OneMoreOp(ops, op, 0);
    OpAdded(ops, op, calls, 0, USER_TICKS);
  }

  // Every gen polls the generator exactly once, and every ingest takes in its data once, with slow
  // entropy before it when it is due.
  ghost predicate CallsDone(ops: seq<GenOp>, calls: seq<Call>) {
    forall i: nat :: i < |calls| ==> SectionDone(ops, i + 1, calls[i].GenCall?, 0, USER_TICKS)
  }

  lemma NoCalls(ops: seq<GenOp>, cs: seq<Call>)
    ensures CallsDone(ops, cs[..0])
  {
  }

  // Call i + 1 adds its operations to those of the calls before it.
  lemma CallAdded(ops: seq<GenOp>, i: nat, seeded: bool, more: seq<GenOp>, cs: seq<Call>)
    requires i < |cs| && InOrder(ops, i) && CallsDone(ops, cs[..i])
    requires seeded <==> Trailing(ops, 0) >= if cs[i].GenCall? then USER_TICKS else USER_TICKS / 2
    requires more == ops + (if seeded then [Seed(i + 1)] else []) +
                     [if cs[i].GenCall? then Poll(i + 1) else Ingest(i + 1)]
    ensures CallsDone(more, cs[..i + 1])
  {
    hide InOrder, OpsOf, OpsBefore, Trailing;
    var last := more[|more| - 1];
    var between := if seeded then ops + [Seed(i + 1)] else ops;
    assert more == between + [last];
    var now := cs[..i + 1];
    forall k: nat | k < |now|
      ensures SectionDone(more, k + 1, now[k].GenCall?, 0, USER_TICKS)
    {
      if k == i {
        NoOpsYet(ops, i, k + 1);
      } else {
        assert cs[..i][k] == cs[k];
      }
      OpsOfMore(ops, Seed(i + 1), k + 1);
      OpsOfMore(between, last, k + 1);
    }
  }

  // The operations of the calls are recorded, each with the number of its call.
  class UserGenerator {
    var ticks: nat
    ghost var ops: seq<GenOp>
    ghost var calls: nat

    ghost predicate Valid()
      reads this
    {
      UserInv(ops, ticks, calls)
    }

    constructor ()
      ensures Valid() && ticks == 0 && ops == [] && calls == 0
    {
      ticks, ops, calls := 0, [], 0;
    }

    // With slow entropy, or with the data of the caller
    method RandIngest(slow: bool)
      requires Valid()
      modifies this`ticks, this`ops
      ensures Valid() && ops == old(ops) + [if slow then Seed(calls) else Ingest(calls)]
    {
      hide Trailing, InOrder, AlwaysFresh;
      ghost var op := if slow then Seed(calls) else Ingest(calls);
      UserOpAdded(ops, op, ticks, calls);
      ticks, ops := 0, ops + [op];
    }

    method RandPoll()
      requires Valid() && ticks < USER_TICKS
      modifies this`ticks, this`ops
      ensures Valid() && ops == old(ops) + [Poll(calls)]
    {
      hide Trailing, InOrder, AlwaysFresh;
      UserOpAdded(ops, Poll(calls), ticks, calls);
      ticks, ops := ticks + 1, ops + [Poll(calls)];
    }

    // random_global_gen. Whether the kernel generator was free decides only where the seed is from.
    method GlobalGen()
      requires Valid()
      modifies this
      ensures Valid() && calls == old(calls) + 1
      ensures ops == old(ops) + (if old(ticks) >= USER_TICKS then [Seed(calls)] else []) + [Poll(calls)]
    {
      hide Trailing, AlwaysFresh;
      ghost var before := ops;
      calls := calls + 1;
      LaterSection(ops, calls - 1);
      if ticks >= USER_TICKS {
        RandIngest(true);
        OneMoreOp(before, Seed(calls), 0);
      }
      RandPoll();
    }

    // random_global_ingest
    method GlobalIngest()
      requires Valid()
      modifies this
      ensures Valid() && ticks == 0 && calls == old(calls) + 1
      ensures ops == old(ops) + (if old(ticks) >= USER_TICKS / 2 then [Seed(calls)] else []) + [Ingest(calls)]
    {
      hide Trailing, AlwaysFresh;
      calls := calls + 1;
      LaterSection(ops, calls - 1);
      if ticks >= USER_TICKS / 2 {
        RandIngest(true);
      }
      OneMoreOp(ops, Ingest(calls), 0);
      RandIngest(false);
    }

    // Any sequence of calls. Valid() says what is true of the operations then.
    method Serve(cs: seq<Call>)
      requires Valid() && ops == [] && calls == 0
      modifies this
      ensures Valid() && calls == |cs| && CallsDone(ops, cs)
      ensures ticks <= USER_TICKS && AlwaysFresh(ops, USER_TICKS)
    {
      hide Trailing, AlwaysFresh, InOrder, CallsDone;
      NoCalls(ops, cs);
      var i := 0;
      while i < |cs|
        invariant 0 <= i <= |cs|
        invariant Valid() && calls == i && CallsDone(ops, cs[..i])
      {
        ghost var before, t := ops, ticks;
        assert InOrder(before, i);
        if cs[i] == GenCall {
          GlobalGen();
        } else {
          GlobalIngest();
        }
        CallAdded(before, i, if cs[i] == GenCall then t >= USER_TICKS else t >= USER_TICKS / 2, ops, cs);
        i := i + 1;
      }
      assert cs[..i] == cs;
    }
  }
}
