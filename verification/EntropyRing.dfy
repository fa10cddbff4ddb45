// The entropy ring of kernel/src/common/entropy.c: push_event runs in interrupts, and can come
// between any two memory accesses of poll_ebuf.
module EntropyRing {
  const SIZE := 1024
  const CAPACITY := 1023

  type Event = nat

  // What the ring stands for: a queue that drops new events while it is full.
  function Push(q: seq<Event>, e: Event): seq<Event> {
    if |q| < CAPACITY then q + [e] else q
  }

  function PushAll(q: seq<Event>, es: seq<Event>): (r: seq<Event>)
    ensures q <= r
    ensures |q| <= CAPACITY ==> |r| <= CAPACITY
    decreases |es|
  {
    if es == [] then q else PushAll(Push(q, es[0]), es[1..])
  }

  lemma PushAllKeepsFirst(q: seq<Event>, es: seq<Event>)
    ensures q != [] ==> PushAll(q, es) != [] && PushAll(q, es)[0] == q[0]
  {
  }

  // What an undisturbed queue loses: with room for all events, none.
  lemma {:induction false} PushAllFits(q: seq<Event>, es: seq<Event>)
    requires |q| + |es| <= CAPACITY
    ensures PushAll(q, es) == q + es
    decreases |es|
  {
    PushAllStep(q, es);
    hide PushAll;
    if es == [] {
      assert q + es == q;
    } else {
      PushAllFits(q + [es[0]], es[1..]);
      assert q + [es[0]] + es[1..] == q + es;
    }
  }

  lemma PushAllStep(q: seq<Event>, es: seq<Event>)
    ensures PushAll(q, es) == if es == [] then q else PushAll(Push(q, es[0]), es[1..])
  {
  }

  // Poll meets the queue in these states, when preempt(n) are the events pushed before its n-th
  // access: where the write head is first compared, where the exchange takes the head, and where
  // the write head is compared again.
  function Seen(q: seq<Event>, preempt: nat -> seq<Event>): seq<Event> {
    PushAll(PushAll(q, preempt(0)), preempt(1))
  }

  function Taken(q: seq<Event>, preempt: nat -> seq<Event>): seq<Event> {
    PushAll(PushAll(Seen(q, preempt), preempt(2)), preempt(3))
  }

  function Rest(q: seq<Event>, preempt: nat -> seq<Event>): seq<Event>
    requires Seen(q, preempt) != []
  {
    PushAll(Taken(q, preempt)[1..], preempt(4))
  }

  lemma {:induction false} LengthOfPushAll(q: seq<Event>, es: seq<Event>)
    requires |q| <= CAPACITY
    ensures |PushAll(q, es)| == if |q| + |es| <= CAPACITY then |q| + |es| else CAPACITY
    decreases |es|
  {
    PushAllStep(q, es);
    hide PushAll;
    if es != [] {
      LengthOfPushAll(Push(q, es[0]), es[1..]);
    }
  }

  // Poll loses the event that it took if and only if the ring is filled up before its second comparison.
  lemma EventLostIff(q: seq<Event>, preempt: nat -> seq<Event>)
    requires |q| <= CAPACITY && Seen(q, preempt) != []
    ensures var pushed := |q| + |preempt(0)| + |preempt(1)| + |preempt(2)| + |preempt(3)|;
      |Rest(q, preempt)| == CAPACITY <==>
        (if pushed <= CAPACITY then pushed else CAPACITY) + |preempt(4)| > CAPACITY
  {
    LengthOfPushAll(q, preempt(0));
    LengthOfPushAll(PushAll(q, preempt(0)), preempt(1));
    LengthOfPushAll(Seen(q, preempt), preempt(2));
    LengthOfPushAll(PushAll(Seen(q, preempt), preempt(2)), preempt(3));
    LengthOfPushAll(Taken(q, preempt)[1..], preempt(4));
  }

  // The n events from slot `start` on, around the end of the buffer.
  function QueueIn(buffer: seq<Event>, start: nat, n: nat): (q: seq<Event>)
    requires |buffer| == SIZE
    ensures |q| == n
  {
    seq(n, i requires 0 <= i < n => buffer[(start + i) % SIZE])
  }

  // The slot that the consumer freed last. While the ring is full the producer stops before it.
  function FreedBefore(head: nat): (i: nat)
    requires head < SIZE
    ensures i < SIZE
  {
    (head + SIZE - 1) % SIZE
  }

  lemma OtherSlot(start: nat, i: nat, n: nat)
    requires start < SIZE && i < n < CAPACITY
    ensures (start + i) % SIZE != (start + n) % SIZE
    ensures (start + n) % SIZE != (start + SIZE - 1) % SIZE
  {
  }

  lemma QueueGrows(buffer: seq<Event>, start: nat, n: nat, w: nat, e: Event)
    requires |buffer| == SIZE && start < SIZE && n < CAPACITY && w == (start + n) % SIZE
    ensures QueueIn(buffer[w := e], start, n + 1) == QueueIn(buffer, start, n) + [e]
    ensures buffer[w := e][FreedBefore(start)] == buffer[FreedBefore(start)]
  {
    var q, q' := QueueIn(buffer, start, n), QueueIn(buffer[w := e], start, n + 1);
    forall i | 0 <= i < n
      ensures q'[i] == q[i]
    {
      OtherSlot(start, i, n);
    }
    assert (start + n) % SIZE != (start + SIZE - 1) % SIZE;
  }

  lemma NextSlot(start: nat, i: nat)
    requires start < SIZE
    ensures ((start + 1) % SIZE + i) % SIZE == (start + (i + 1)) % SIZE
  {
  }

  lemma QueueShrinks(buffer: seq<Event>, start: nat, n: nat)
    requires |buffer| == SIZE && start < SIZE && 0 < n
    ensures QueueIn(buffer, (start + 1) % SIZE, n - 1) == QueueIn(buffer, start, n)[1..]
  {
    var q, q' := QueueIn(buffer, start, n), QueueIn(buffer, (start + 1) % SIZE, n - 1);
    forall i | 0 <= i < n - 1
      ensures q'[i] == q[1..][i]
    {
      NextSlot(start, i);
    }
  }

  // How many slots from the read head on hold events.
  function Between(head: nat, tail: nat): (n: nat)
    requires head < SIZE && tail < SIZE
    ensures n <= CAPACITY
  {
    if tail >= head then tail - head else tail + SIZE - head
  }

  lemma BetweenGrows(head: nat, tail: nat)
    requires head < SIZE && tail < SIZE
    ensures tail == (head + Between(head, tail)) % SIZE
    ensures tail == FreedBefore(head) <==> Between(head, tail) == CAPACITY
    ensures tail != FreedBefore(head) ==> Between(head, (tail + 1) % SIZE) == Between(head, tail) + 1
  {
  }

  lemma BetweenShrinks(head: nat, tail: nat)
    requires head < SIZE && tail < SIZE && head != tail
    ensures Between((head + 1) % SIZE, tail) == Between(head, tail) - 1
    ensures FreedBefore((head + 1) % SIZE) == head
  {
  }

  lemma BetweenZero(head: nat, tail: nat)
    requires head < SIZE && tail < SIZE
    ensures head == tail <==> Between(head, tail) == 0
    ensures head != FreedBefore(head)
  {
  }

  class Ring {
    const buffer: array<Event>
    var readHead: nat
    var writeHead: nat

    ghost predicate Valid()
      reads this
    {
      buffer.Length == SIZE && readHead < SIZE && writeHead < SIZE
    }

    function Length(): (n: nat)
      requires Valid()
      reads this
      ensures n <= CAPACITY
    {
      Between(readHead, writeHead)
    }

    ghost function Queue(): (q: seq<Event>)
      requires Valid()
      reads this, buffer
      ensures |q| == Length()
    {
      QueueIn(buffer[..], readHead, Length())
    }

    constructor ()
      ensures Valid() && Queue() == []
    {
      buffer := new Event[SIZE](_ => 0);
      readHead, writeHead := 0, 0;
    }

    // push_event. Nothing can interrupt it, so its exchange succeeds.
    method PushEvent(e: Event)
      requires Valid()
      modifies this`writeHead, buffer
      ensures Valid()
      ensures Queue() == Push(old(Queue()), e)
      ensures buffer[FreedBefore(readHead)] == old(buffer[FreedBefore(readHead)])
    {
      hide Between, FreedBefore, QueueIn;
      var writePos := writeHead;
      BetweenGrows(readHead, writeHead);
      if writePos == FreedBefore(readHead) {
        return;
      }
      ghost var was, n := buffer[..], Length();
      QueueGrows(was, readHead, n, writePos, e);
      buffer[writePos] := e;
      assert buffer[..] == was[writePos := e];
      writeHead := (writePos + 1) % SIZE;
    }

    // Comparing a position with the write head tells an empty ring or a full one.
    lemma HeadsMeet()
      requires Valid()
      ensures readHead == writeHead <==> Queue() == []
      ensures FreedBefore(readHead) == writeHead <==> |Queue()| == CAPACITY
      ensures FreedBefore(readHead) != readHead
    {
      hide Between, FreedBefore;
      BetweenZero(readHead, writeHead);
      BetweenGrows(readHead, writeHead);
    }

    lemma FirstInQueue()
      requires Valid()
      ensures Queue() != [] ==> buffer[readHead] == Queue()[0]
    {
    }

    // The exchange of poll_ebuf
    method Advance()
      requires Valid() && Queue() != []
      modifies this`readHead
      ensures Valid() && readHead == (old(readHead) + 1) % SIZE
      ensures Queue() == old(Queue())[1..]
      ensures FreedBefore(readHead) == old(readHead) && buffer[FreedBefore(readHead)] == old(Queue())[0]
    {
      hide Between, FreedBefore;
      BetweenZero(readHead, writeHead);
      BetweenShrinks(readHead, writeHead);
      QueueShrinks(buffer[..], readHead, Length());
      FirstInQueue();
      hide QueueIn;
      readHead := (readHead + 1) % SIZE;
    }

    // Any number of interrupts.
    method Interrupts(es: seq<Event>)
      requires Valid()
      modifies this`writeHead, buffer
      ensures Valid()
      ensures Queue() == PushAll(old(Queue()), es)
      ensures buffer[FreedBefore(readHead)] == old(buffer[FreedBefore(readHead)])
    {
      ghost var q := Queue();
      var i := 0;
      while i < |es|
        invariant 0 <= i <= |es|
        invariant Valid() && buffer[FreedBefore(readHead)] == old(buffer[FreedBefore(readHead)])
        invariant PushAll(q, es) == PushAll(Queue(), es[i..])
      {
        assert es[i..][1..] == es[i + 1..];
        PushEvent(es[i]);
        i := i + 1;
      }
    }

    // One turn of the loop of poll_ebuf, with the events a, b, c pushed before its three accesses.
    // Its first turn starts at the head and exchanges it; a second one starts at the slot just freed.
    method Turn(readPos: nat, a: seq<Event>, b: seq<Event>, c: seq<Event>)
      returns (gone: bool, exchanged: bool, val: Event, next: nat)
      requires Valid() && (readPos == readHead || readPos == FreedBefore(readHead))
      modifies this, buffer
      ensures Valid()
      ensures var q := PushAll(old(Queue()), a);
        if readPos == old(readHead) then
          && (gone <==> q == [])
          && (gone ==> readHead == old(readHead) && Queue() == [])
          && (!gone ==> exchanged && val == q[0] && Queue() == PushAll(PushAll(q, b), c)[1..])
          && (!gone ==> readHead == (old(readHead) + 1) % SIZE)
          && (!gone ==> next == readPos == FreedBefore(readHead) && buffer[readPos] == q[0])
        else
          && readHead == old(readHead)
          && (gone <==> |q| == CAPACITY)
          && (gone ==> Queue() == q)
          && (!gone ==> !exchanged && val == old(buffer[readPos]) && Queue() == PushAll(PushAll(q, b), c))
    {
      hide PushAll, QueueIn, Queue, Length, FreedBefore;
      gone, exchanged, val, next := false, true, 0, readPos;
      Interrupts(a);
      HeadsMeet();
      var writePos := writeHead;
      if readPos == writePos {
        gone := true;
        return;
      }
      Interrupts(b);
      val := buffer[readPos];
      ghost var q := Queue();
      PushAllKeepsFirst(q, c);
      FirstInQueue();
      Interrupts(c);
      if readHead == readPos {
        Advance();
      } else {
        next, exchanged := readHead, false;
      }
    }

    // poll_ebuf, with the events preempt(n) pushed just before its n-th access of the ring. The
    // loop goes on after a successful exchange; a second turn then fails to exchange and leaves.
    // 0 is returned when the ring is empty, or was filled up between the exchange and the second
    // comparison of the write head. In the latter case the oldest event is lost.
    method Poll(preempt: nat -> seq<Event>) returns (val: Event)
      requires Valid()
      modifies this, buffer
      ensures Valid()
      ensures Seen(old(Queue()), preempt) == [] ==> val == 0 && readHead == old(readHead) && Queue() == []
      ensures Seen(old(Queue()), preempt) != [] ==>
        var rest := Rest(old(Queue()), preempt);
        && readHead == (old(readHead) + 1) % SIZE
        && (if |rest| == CAPACITY then val == 0 && Queue() == rest
            else
              && val == Seen(old(Queue()), preempt)[0]
              && Queue() == PushAll(PushAll(rest, preempt(5)), preempt(6)))
    {
      hide PushAll, Queue, QueueIn;
      ghost var q := Queue();
      Interrupts(preempt(0));
      var readPos, n := readHead, 1;
      var exchanged := true;
      val := 0;
      while exchanged
        invariant Valid()
        invariant exchanged ==> n == 1 || n == 4
        invariant n == 1 ==> exchanged && readPos == readHead == old(readHead) && Queue() == PushAll(q, preempt(0))
        invariant n != 1 ==> Seen(q, preempt) != [] && readHead == (old(readHead) + 1) % SIZE
        invariant exchanged && n == 4 ==>
          && Queue() == Taken(q, preempt)[1..]
          && readPos == FreedBefore(readHead) && buffer[readPos] == Seen(q, preempt)[0]
        invariant !exchanged ==> |Rest(q, preempt)| != CAPACITY && val == Seen(q, preempt)[0]
        invariant !exchanged ==> Queue() == PushAll(PushAll(Rest(q, preempt), preempt(5)), preempt(6))
        decreases if exchanged then 8 - n else 0
      {
        var gone;
        gone, exchanged, val, readPos := Turn(readPos, preempt(n), preempt(n + 1), preempt(n + 2));
        if gone {
          return 0;
        }
        n := n + 3;
      }
    }
  }

  // An event is lost: one is in the ring, and as many as the ring takes come after it has been taken.
  // Poll returns 0, and what it took is not in the ring either.
  method PollLosesEvent(r: Ring, es: seq<Event>) returns (val: Event)
    requires r.Valid() && |r.Queue()| == 1 && |es| == CAPACITY
    modifies r, r.buffer
    ensures r.Valid() && val == 0 && r.Queue() == es
  {
    ghost var q := r.Queue();
    var preempt := (n: nat) => if n == 4 then es else [];
    val := r.Poll(preempt);
    hide PushAll;
    assert Seen(q, preempt) == q && Taken(q, preempt) == q by {
      PushAllStep(q, []);
    }
    PushAllFits([], es);
    assert q[1..] == [];
    assert Rest(q, preempt) == es;
  }

  // Undisturbed, poll_ebuf is the queue's own operation.
  method PollAlone(r: Ring) returns (val: Event)
    requires r.Valid()
    modifies r, r.buffer
    ensures r.Valid()
    ensures if old(r.Queue()) == [] then val == 0 && r.Queue() == []
      else val == old(r.Queue())[0] && r.Queue() == old(r.Queue())[1..]
  {
    val := r.Poll(_ => []);
  }
}
