// call_once of common/include/once.h, run by any number of threads, as a state machine. Each atomic
// access is one step, and so are the start and the end of the callback.
module CallOnce {

  // What a thread does next. The numbers are the lines of once.h.
  datatype Pc =
    | Entering    // 13: loads the flag
    | Locking     // 14: sets the lock bit, or spins
    | Checking    // 16: loads the flag again, with the lock held
    | Calling     // 17: the callback runs
    | Releasing   // 19: stores the init bit, which also gives the lock back
    | Returned

  // The word _once_state by its two bits, the threads, and how often the callback began and ended.
  datatype State = State(init: bool, locked: bool, pc: seq<Pc>, started: nat, finished: nat)

  predicate Initial(s: State) {
    && !s.init && !s.locked && s.started == 0 && s.finished == 0
    && forall t :: 0 <= t < |s.pc| ==> s.pc[t] == Entering
  }

  function Goto(s: State, t: nat, pc: Pc): State
    requires t < |s.pc|
  {
    s.(pc := s.pc[t := pc])
  }

  // The step of thread t. A thread that has returned may call again.
  function Step(s: State, t: nat): State
    requires t < |s.pc|
  {
    match s.pc[t]
    case Entering => Goto(s, t, if s.init then Returned else Locking)
    case Locking => if s.locked then s else Goto(s, t, Checking).(locked := true)
    case Checking =>
      if s.init then Goto(s, t, Releasing) else Goto(s, t, Calling).(started := s.started + 1)
    case Calling => Goto(s, t, Releasing).(finished := s.finished + 1)
    case Releasing => Goto(s, t, Returned).(init := true, locked := false)
    case Returned => Goto(s, t, Entering)
  }

  predicate Next(s: State, s': State) {
    exists t: nat :: t < |s.pc| && s' == Step(s, t)
  }

  predicate Run(r: seq<State>) {
    && |r| > 0 && Initial(r[0])
    && forall i :: 0 <= i < |r| - 1 ==> Next(r[i], r[i + 1])
  }

  // The thread is between taking the lock bit and giving it back.
  predicate Holds(s: State, t: nat) {
    t < |s.pc| && s.pc[t] in {Checking, Calling, Releasing}
  }

  datatype Holder = Nobody | Thread(t: nat)

  // The inductive invariant, for the thread that has the lock.
  ghost predicate Inv(s: State, h: Holder) {
    && (s.locked <==> h.Thread?)
    && (forall t: nat :: Holds(s, t) <==> h == Thread(t))
    && (forall t :: 0 <= t < |s.pc| && s.pc[t] == Returned ==> s.init)
    && (if h.Thread? && s.pc[h.t] == Calling then s.started == 1 && s.finished == 0 && !s.init
        else if h.Thread? && s.pc[h.t] == Releasing then s.started == 1 && s.finished == 1
        else s.started == s.finished == if s.init then 1 else 0)
  }

  lemma StepKeepsInv(s: State, t: nat, h: Holder) returns (h': Holder)
    requires Inv(s, h) && t < |s.pc|
    ensures Inv(Step(s, t), h')
  {
    var s' := Step(s, t);
    h' := match s.pc[t] case Locking => (if s.locked then h else Thread(t)) case Releasing => Nobody case _ => h;
    assert Holds(s, t) <==> h == Thread(t);
    assert forall u: nat :: u != t ==> (Holds(s', u) <==> Holds(s, u));
  }

  lemma {:induction false} RunKeepsInv(r: seq<State>, i: nat) returns (h: Holder)
    requires Run(r) && i < |r|
    ensures Inv(r[i], h)
    decreases i
  {
    if i == 0 {
      h := Nobody;
    } else {
      var h0 := RunKeepsInv(r, i - 1);
      assert Next(r[i - 1], r[i]);
      var t: nat :| t < |r[i - 1].pc| && r[i] == Step(r[i - 1], t);
      h := StepKeepsInv(r[i - 1], t, h0);
    }
  }

  // The promises of call_once, in every state of every interleaving.
  lemma OnceSafe(r: seq<State>, i: nat)
    requires Run(r) && i < |r|
    ensures r[i].started <= 1
    ensures forall t: nat, u: nat :: Holds(r[i], t) && Holds(r[i], u) ==> t == u
    ensures forall t :: 0 <= t < |r[i].pc| && r[i].pc[t] == Returned ==> r[i].started == 1 && r[i].finished == 1
  {
    var h := RunKeepsInv(r, i);
  }

  // Once the callback has finished it stays finished, and it never starts again.
  lemma {:induction false} FinishedForever(r: seq<State>, i: nat, j: nat)
    requires Run(r) && i <= j < |r|
    ensures r[i].started <= r[j].started <= 1 && r[i].finished <= r[j].finished
    ensures r[i].init ==> r[j].init
    decreases j
  {
    var h := RunKeepsInv(r, j);
    if i < j {
      FinishedForever(r, i, j - 1);
      assert Next(r[j - 1], r[j]);
    }
  }

  // No interleaving ends in a deadlock: as long as some thread has not returned, some thread has a
  // step that changes the state.
  lemma NeverStuck(r: seq<State>, i: nat, t: nat)
    requires Run(r) && i < |r| && t < |r[i].pc| && r[i].pc[t] != Returned
    ensures exists u :: 0 <= u < |r[i].pc| && r[i].pc[u] != Returned && Step(r[i], u) != r[i]
  {
    var h := RunKeepsInv(r, i);
    var s := r[i];
    assert h.Thread? ==> Holds(s, h.t);
    var u := if s.pc[t] == Locking && s.locked then h.t else t;
    assert Step(s, u).pc[u] != s.pc[u];
  }

  // The steps left to a thread until it returns, not counting those that spin
  function Left(pc: Pc): (n: nat)
    ensures n <= 5
  {
    match pc
    case Entering => 5
    case Locking => 4
    case Checking => 3
    case Calling => 2
    case Releasing => 1
    case Returned => 0
  }

  function LeftInAll(pc: seq<Pc>): (n: nat)
    ensures n <= 5 * |pc|
  {
    if pc == [] then 0 else LeftInAll(pc[..|pc| - 1]) + Left(pc[|pc| - 1])
  }

  lemma {:induction false} LeftAfter(pc: seq<Pc>, t: nat, next: Pc)
    requires t < |pc|
    ensures LeftInAll(pc[t := next]) == LeftInAll(pc) - Left(pc[t]) + Left(next)
    decreases |pc|
  {
    var n := |pc| - 1;
    if t < n {
      LeftAfter(pc[..n], t, next);
      assert pc[t := next][..n] == pc[..n][t := next];
    } else {
      assert pc[t := next][..n] == pc[..n];
    }
  }

  // A step that changes something, of a thread that has not returned
  ghost predicate Busy(s: State, s': State) {
    exists t: nat :: t < |s.pc| && s.pc[t] != Returned && s' == Step(s, t) && s' != s
  }

  lemma BusyShortens(s: State, s': State)
    requires Busy(s, s')
    ensures LeftInAll(s'.pc) < LeftInAll(s.pc)
  {
    hide LeftInAll;
    var t: nat :| t < |s.pc| && s.pc[t] != Returned && s' == Step(s, t) && s' != s;
    assert s'.pc == s.pc[t := s'.pc[t]];
    LeftAfter(s.pc, t, s'.pc[t]);
  }

  lemma {:induction false} BusySteps(r: seq<State>, i: nat, j: nat)
    requires i <= j < |r| && forall k :: i <= k < j ==> Busy(r[k], r[k + 1])
    ensures LeftInAll(r[j].pc) + (j - i) <= LeftInAll(r[i].pc)
    decreases j
  {
    hide LeftInAll, Busy;
    if i < j {
      BusySteps(r, i, j - 1);
      BusyShortens(r[j - 1], r[j]);
    }
  }

  // Every call returns: as long as one has not, some thread can change something; and threads that do,
  // with no new calls coming, have all returned after at most five steps each.
  lemma CallsReturn(r: seq<State>, i: nat, j: nat)
    requires Run(r) && i <= j < |r| && forall k :: i <= k < j ==> Busy(r[k], r[k + 1])
    ensures j - i <= 5 * |r[i].pc|
    ensures (exists s :: Busy(r[j], s)) <==> exists t: nat :: t < |r[j].pc| && r[j].pc[t] != Returned
  {
    BusySteps(r, i, j);
    if t: nat :| t < |r[j].pc| && r[j].pc[t] != Returned {
      NeverStuck(r, j, t);
      var u: nat :| u < |r[j].pc| && r[j].pc[u] != Returned && Step(r[j], u) != r[j];
      assert Busy(r[j], Step(r[j], u));
    }
  }
}
