/** The blocking byte queue between one producer and one consumer: a ring under a lock, and a waiter
    field for each side (drivers/char/ioqueue.c:13-81). */
module IoQueue {
  import opened Bytes

  const BUFSIZE := 1024

  function NextPos(pos: nat): nat { (pos + 1) % BUFSIZE }

  /** head: next place to write; tail: next place to read. The waiter fields say whether a thread is
      registered. */
  datatype Queue = Queue(buf: Block, head: nat, tail: nat, producer: bool, consumer: bool)

  predicate QueueOk(q: Queue) { |q.buf| == BUFSIZE && q.head < BUFSIZE && q.tail < BUFSIZE }

  predicate Full(q: Queue) { NextPos(q.head) == q.tail }

  predicate Empty(q: Queue) { q.head == q.tail }

  /** `ioq_length`. */
  function Length(q: Queue): nat
    requires QueueOk(q)
  {
    if q.head >= q.tail then q.head - q.tail else BUFSIZE - (q.tail - q.head)
  }

  /** The bytes in the ring, oldest first. */
  function Contents(q: Queue): (r: Block)
    requires QueueOk(q)
    ensures |r| == Length(q)
  {
    if q.tail <= q.head then q.buf[q.tail..q.head] else q.buf[q.tail..] + q.buf[..q.head]
  }

  /** `ioq_length` is 0 exactly when the ring is empty and one less than its size exactly when full. */
  lemma LengthIs(q: Queue)
    requires QueueOk(q)
    ensures Empty(q) <==> Contents(q) == []
    ensures Full(q) <==> |Contents(q)| == BUFSIZE - 1
  {
  }

  /** The producer's critical section when there is room. */
  function Put(q: Queue, byte: Byte): Queue
    requires QueueOk(q)
  {
    q.(buf := q.buf[q.head := byte], head := NextPos(q.head), consumer := false)
  }

  /** The consumer's when there is a byte. */
  function Get(q: Queue): (Queue, Byte)
    requires QueueOk(q)
  {
    (q.(tail := NextPos(q.tail), producer := false), q.buf[q.tail])
  }

  lemma PutAppends(q: Queue, byte: Byte)
    requires QueueOk(q) && !Full(q)
    ensures QueueOk(Put(q, byte)) && Contents(Put(q, byte)) == Contents(q) + [byte]
  {
  }

  lemma GetTakes(q: Queue)
    requires QueueOk(q) && !Empty(q)
    ensures QueueOk(Get(q).0) && Contents(q) == [Get(q).1] + Contents(Get(q).0)
  {
  }

  /** The queue as the driver keeps it. Each method is one critical section: the flag ok says whether it
      went through, and wake whether it woke the other side. */
  class Ring {
    const buf: array<Byte>
    var head: nat
    var tail: nat
    var producer: bool
    var consumer: bool

    ghost function View(): Queue
      reads this, buf
    {
      Queue(buf[..], head, tail, producer, consumer)
    }

    ghost predicate Valid()
      reads this, buf
    {
      QueueOk(View())
    }

    constructor ()
      ensures Valid() && Contents(View()) == [] && !producer && !consumer && fresh(buf)
    {
      buf := new Byte[BUFSIZE](_ => 0);
      head, tail, producer, consumer := 0, 0, false, false;
    }

    /** `ioq_putchar` from taking the lock to releasing it. */
    method TryPut(byte: Byte) returns (ok: bool, wake: bool)
      requires Valid()
      modifies this, buf
      ensures Valid() && ok == !Full(old(View())) && wake == (ok && old(consumer))
      ensures View() == if ok then Put(old(View()), byte) else old(View()).(producer := true)
    {
      if NextPos(head) == tail {
        producer := true;
        return false, false;
      }
      buf[head] := byte;
      head := NextPos(head);
      wake, consumer := consumer, false;
      ok := true;
    }

    /** `ioq_getchar` likewise. */
    method TryGet() returns (ok: bool, byte: Byte, wake: bool)
      requires Valid()
      modifies this
      ensures Valid() && ok == !Empty(old(View())) && wake == (ok && old(producer))
      ensures if ok then (View(), byte) == Get(old(View())) else View() == old(View()).(consumer := true)
    {
      if head == tail {
        consumer := true;
        return false, 0, false;
      }
      byte := buf[tail];
      tail := NextPos(tail);
      wake, producer := producer, false;
      ok := true;
    }
  }

  // ----- the two threads

  /** Outside a call; about to take the lock; prepared to block, and still blocked or already woken. */
  datatype Side = Outside | Trying | Waiting(blocked: bool)

  /** byte: what the producer is putting. put, got: everything put and got so far. */
  datatype State = State(q: Queue, p: Side, byte: Byte, c: Side, put: Block, got: Block)

  datatype Move = StartPut(byte: Byte) | PutSection | PutWakes | StartGet | GetSection | GetWakes

  predicate Can(st: State, m: Move) {
    match m
    case StartPut(_) => st.p == Outside
    case PutSection => st.p == Trying
    case PutWakes => st.p == Waiting(false)
    case StartGet => st.c == Outside
    case GetSection => st.c == Trying
    case GetWakes => st.c == Waiting(false)
  }

  /** A registered side is woken: `thread_unblock` on the waiter. */
  function Woken(side: Side): Side { if side.Waiting? then Waiting(false) else side }

  function Step(st: State, m: Move): State
    requires QueueOk(st.q) && Can(st, m)
  {
    match m
    case StartPut(b) => st.(p := Trying, byte := b)
    case PutSection =>
      if Full(st.q) then st.(q := st.q.(producer := true), p := Waiting(true))
      else st.(q := Put(st.q, st.byte), p := Outside, put := st.put + [st.byte],
               c := if st.q.consumer then Woken(st.c) else st.c)
    case PutWakes => st.(p := Trying)
    case StartGet => st.(c := Trying)
    case GetSection =>
      if Empty(st.q) then st.(q := st.q.(consumer := true), c := Waiting(true))
      else
        var (q, b) := Get(st.q);
        st.(q := q, c := Outside, got := st.got + [b], p := if st.q.producer then Woken(st.p) else st.p)
    case GetWakes => st.(c := Trying)
  }

  /** What was got and what is queued is what was put; a side is registered exactly while it is
      blocked; a blocked producer means a full queue and a blocked consumer an empty one. */
  predicate Inv(st: State) {
    && QueueOk(st.q) && st.put == st.got + Contents(st.q)
    && (st.q.producer <==> st.p == Waiting(true)) && (st.q.producer ==> Full(st.q))
    && (st.q.consumer <==> st.c == Waiting(true)) && (st.q.consumer ==> Empty(st.q))
  }

  lemma StepKeepsInv(st: State, m: Move)
    requires Inv(st) && Can(st, m)
    ensures Inv(Step(st, m))
  {
    hide Contents;
    match m {
      case PutSection =>
        if !Full(st.q) {
          PutAppends(st.q, st.byte);
          assert st.got + (Contents(st.q) + [st.byte]) == st.got + Contents(st.q) + [st.byte];
        } else {
          SameContents(st.q, st.q.(producer := true));
        }
      case GetSection =>
        if !Empty(st.q) {
          GetTakes(st.q);
          var (q, b) := Get(st.q);
          assert st.got + ([b] + Contents(q)) == st.got + [b] + Contents(q);
        } else {
          SameContents(st.q, st.q.(consumer := true));
        }
      case _ =>
    }
  }

  lemma SameContents(q: Queue, q': Queue)
    requires QueueOk(q) && QueueOk(q') && q.buf == q'.buf && q.head == q'.head && q.tail == q'.tail
    ensures Contents(q) == Contents(q')
  {
  }

  predicate Run(st: State, moves: seq<Move>, r: State)
    decreases moves
  {
    if moves == [] then r == st
    else QueueOk(st.q) && Can(st, moves[0]) && Run(Step(st, moves[0]), moves[1..], r)
  }

  lemma {:induction false} RunKeepsInv(st: State, moves: seq<Move>, r: State)
    requires Inv(st) && Run(st, moves, r)
    ensures Inv(r)
    decreases moves
  {
    hide Inv, Step;
    if moves != [] {
      StepKeepsInv(st, moves[0]);
      RunKeepsInv(Step(st, moves[0]), moves[1..], r);
    }
  }

  /** After `ioq_init`. */
  predicate Initial(st: State) {
    QueueOk(st.q) && st.q.head == 0 && st.q.tail == 0 && !st.q.producer && !st.q.consumer
    && st.p == Outside && st.c == Outside && st.put == [] && st.got == []
  }

  /** In every state of every interleaving: the bytes got are a prefix of the bytes put, with the queued
      bytes in between; the two sides are never blocked together; a blocked side is registered, so
      the other side's next section wakes it, and what it waits for is really missing. */
  lemma NoLostWakeup(st: State, moves: seq<Move>, r: State)
    requires Initial(st) && Run(st, moves, r)
    ensures QueueOk(r.q) && r.put == r.got + Contents(r.q) && r.got <= r.put
    ensures !(r.p == Waiting(true) && r.c == Waiting(true))
    ensures r.p == Waiting(true) ==> r.q.producer && |Contents(r.q)| == BUFSIZE - 1
    ensures r.c == Waiting(true) ==> r.q.consumer && Contents(r.q) == []
  {
    RunKeepsInv(st, moves, r);
    LengthIs(r.q);
  }
}
