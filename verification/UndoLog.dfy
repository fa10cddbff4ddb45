// Byte arrays, writes into them, and the log of overwritten bytes that limine.c keeps so that an
// installation can be undone.
module UndoLog {
  import opened Bytes

  datatype Saved = Saved(data: seq<byte>, loc: nat)

  function End(e: Saved): nat {
    e.loc + |e.data|
  }

  predicate Fits(log: seq<Saved>, size: nat) {
    forall i :: 0 <= i < |log| ==> Fit(log[i].loc, |log[i].data|, size)
  }

  // Write all entries, first to last.
  function Replay(d: seq<byte>, log: seq<Saved>): (r: seq<byte>)
    requires Fits(log, |d|)
    ensures |r| == |d|
  {
    if log == [] then d
    else
      var shorter := log[..|log| - 1];
      Splice(Replay(d, shorter), log[|log| - 1].loc, log[|log| - 1].data)
  }

  function Reversed(log: seq<Saved>): (r: seq<Saved>)
    ensures |r| == |log|
    ensures forall i :: 0 <= i < |log| ==> r[i] == log[|log| - 1 - i]
  {
    if log == [] then [] else Reversed(log[1..]) + [log[0]]
  }

  predicate Covers(e: Saved, x: nat) {
    e.loc <= x < End(e)
  }

  // The oldest saved value of byte x, or, when no entry covers x, the byte that is there.
  function Oldest(log: seq<Saved>, d: seq<byte>, x: nat): byte
    requires x < |d|
  {
    if log == [] then d[x]
    else if Covers(log[0], x) then log[0].data[x - log[0].loc]
    else Oldest(log[1..], d, x)
  }

  // Replaying a log backwards leaves the oldest saved value in every byte, whatever the order and
  // the overlaps of the entries.
  lemma {:induction false} BackwardsReplay(log: seq<Saved>, d: seq<byte>, x: nat)
    requires Fits(log, |d|) && x < |d|
    ensures Fits(Reversed(log), |d|)
    ensures Replay(d, Reversed(log))[x] == Oldest(log, d, x)
    decreases |log|
  {
    if log != [] {
      assert Fits(log[1..], |d|);
      BackwardsReplay(log[1..], d, x);
      assert Reversed(log)[..|log| - 1] == Reversed(log[1..]);
    }
  }

  // Entry e is added to the log, and d becomes d' at x.
  lemma {:induction false} OldestAfter(log: seq<Saved>, e: Saved, d: seq<byte>, d': seq<byte>, x: nat)
    requires x < |d| && x < |d'|
    requires if Covers(e, x) then e.data[x - e.loc] == d[x] else d'[x] == d[x]
    ensures Oldest(log + [e], d', x) == Oldest(log, d, x)
    decreases |log|
  {
    if log == [] {
      assert (log + [e])[1..] == [];
    } else {
      assert (log + [e])[1..] == log[1..] + [e];
      OldestAfter(log[1..], e, d, d', x);
    }
  }

  lemma {:induction false} OldestSame(log: seq<Saved>, d: seq<byte>, d': seq<byte>, x: nat)
    requires x < |d| && x < |d'| && d'[x] == d[x]
    ensures Oldest(log, d', x) == Oldest(log, d, x)
    decreases |log|
  {
    if log != [] {
      OldestSame(log[1..], d, d', x);
    }
  }

  // The log undoes d: it gives back the bytes of d0, wherever it is replayed on d.
  ghost predicate Undoes(log: seq<Saved>, d: seq<byte>, d0: seq<byte>) {
    && |d| == |d0|
    && Fits(log, |d|)
    && forall x :: 0 <= x < |d| ==> Oldest(log, d, x) == d0[x]
  }

  lemma UndoesMeans(log: seq<Saved>, d: seq<byte>, d0: seq<byte>)
    requires Undoes(log, d, d0)
    ensures Fits(Reversed(log), |d|) && Replay(d, Reversed(log)) == d0
  {
    if |d| == 0 {
      assert |Reversed(log)| == |log|;
      assert forall i :: 0 <= i < |log| ==> Reversed(log)[i] == log[|log| - 1 - i];
    }
    forall x | 0 <= x < |d|
      ensures Fits(Reversed(log), |d|) && Replay(d, Reversed(log))[x] == d0[x]
    {
      BackwardsReplay(log, d, x);
    }
  }

  // Saving what a write overwrites keeps the log able to undo: both the contents after the write,
  // and any d' that holds, outside the write, bytes that could be undone before.
  lemma UndoesAfterWrite(log: seq<Saved>, e: Saved, d: seq<byte>, v: seq<byte>, d': seq<byte>, d0: seq<byte>)
    requires Undoes(log, d, d0) && Undoes(log, v, d0)
    requires Fit(e.loc, |e.data|, |v|) && e.data == Slice(v, e.loc, |e.data|)
    requires |d'| == |v|
    requires forall x :: 0 <= x < |v| && !Covers(e, x) ==> d'[x] == d[x] || d'[x] == v[x]
    ensures Undoes(log + [e], d', d0)
  {
    forall x | 0 <= x < |v|
      ensures Oldest(log + [e], d', x) == d0[x]
    {
      if Covers(e, x) || d'[x] == v[x] {
        OldestAfter(log, e, v, d', x);
      } else {
        OldestAfter(log, e, d, d', x);
      }
    }
  }

  lemma UndoesMixed(log: seq<Saved>, d: seq<byte>, v: seq<byte>, d': seq<byte>, d0: seq<byte>)
    requires Undoes(log, d, d0) && Undoes(log, v, d0)
    requires |d'| == |v|
    requires forall x :: 0 <= x < |v| ==> d'[x] == d[x] || d'[x] == v[x]
    ensures Undoes(log, d', d0)
  {
    forall x | 0 <= x < |v|
      ensures Oldest(log, d', x) == d0[x]
    {
      if d'[x] == v[x] {
        OldestSame(log, v, d', x);
      } else {
        OldestSame(log, d, d', x);
      }
    }
  }
}
