/** The protocol control block as the driver keeps it: a send buffer shifted in place, a receive
    ring with free-running 16-bit indices, and the loops that cut segments
    (drivers/net/tcp.c:115-152, 205-244, 375-452, 591-612). */
module TcpBlock {
  import opened Words
  import opened Bytes
  import opened Tcp

  const MAX_RETRY := 5
  const INIT_RTO := 1000

  /** `tcp_rx_len`. */
  function RxLen(head: nat, tail: nat): (n: nat)
    requires head < U16 && tail < U16
    ensures n < U16
  {
    if tail >= head then tail - head else tail - head + U16
  }

  function Next16(x: nat): nat
    requires x < U16
  {
    if x + 1 == U16 then 0 else x + 1
  }

  /** The n bytes of the ring from head. */
  ghost function Ring(a: seq<Byte>, head: nat, n: nat): (r: Block)
    requires |a| == RCV_BUF
    ensures |r| == n
  {
    seq(n, i requires 0 <= i < n => a[(head + i) % RCV_BUF])
  }

  /** Two of at most 4096 consecutive ring places never coincide. */
  lemma PlacesDiffer(head: nat, i: nat, j: nat)
    requires i < j < i + RCV_BUF
    ensures (head + i) % RCV_BUF != (head + j) % RCV_BUF
  {
    var q, r := (head + i) / RCV_BUF, (head + i) % RCV_BUF;
    assert head + j == q * RCV_BUF + (r + (j - i));
    assert (head + j) % RCV_BUF == if r + (j - i) < RCV_BUF then r + (j - i) else r + (j - i) - RCV_BUF;
  }

  /** Adding a byte at the tail. */
  lemma RingPut(a: seq<Byte>, head: nat, n: nat, v: Byte)
    requires |a| == RCV_BUF && n < RCV_BUF
    ensures Ring(a[(head + n) % RCV_BUF := v], head, n + 1) == Ring(a, head, n) + [v]
  {
    var a' := a[(head + n) % RCV_BUF := v];
    forall i | 0 <= i < n + 1
      ensures Ring(a', head, n + 1)[i] == (Ring(a, head, n) + [v])[i]
    {
      if i < n {
        PlacesDiffer(head, i, n);
      }
    }
  }

  /** Taking a byte from the head. */
  lemma RingGet(a: seq<Byte>, head: nat, n: nat)
    requires |a| == RCV_BUF && n > 0 && head < U16
    ensures Ring(a, head, n) == [a[head % RCV_BUF]] + Ring(a, Next16(head), n - 1)
  {
    var rest := Ring(a, Next16(head), n - 1);
    forall i | 0 <= i < n - 1
      ensures rest[i] == Ring(a, head, n)[i + 1]
    {
      assert (Next16(head) + i) % RCV_BUF == (head + (i + 1)) % RCV_BUF;
    }
  }

  lemma TailPlace(head: nat, tail: nat)
    requires head < U16 && tail < U16
    ensures tail % RCV_BUF == (head + RxLen(head, tail)) % RCV_BUF
  {
  }

  lemma TailNext(head: nat, tail: nat)
    requires head < U16 && tail < U16 && RxLen(head, tail) < RCV_BUF
    ensures RxLen(head, Next16(tail)) == RxLen(head, tail) + 1
  {
  }

  lemma HeadNext(head: nat, tail: nat)
    requires head < U16 && tail < U16 && RxLen(head, tail) > 0
    ensures Next16(head) < U16 && RxLen(Next16(head), tail) == RxLen(head, tail) - 1
  {
  }

  /** With segs emitted, `tcp_fire` continues at offset off. */
  ghost predicate FireLeft(v: Pcb, off0: nat, segs: seq<Segment>, off: nat)
    requires PcbOk(v) && off0 <= |v.tx|
  {
    off <= |v.tx| && segs + FireSegs(v, off) == FireSegs(v, off0) && FireEnd(v, off) == FireEnd(v, off0)
  }

  lemma FireStarts(v: Pcb)
    requires PcbOk(v)
    ensures var off := Sub32(v.nxt, v.una); FireLeft(v, off, [], off) && v.nxt == Add32(v.una, off)
  {
    var off := Sub32(v.nxt, v.una);
    assert [] + FireSegs(v, off) == FireSegs(v, off);
  }

  lemma FireTurns(v: Pcb, off0: nat, segs: seq<Segment>, off: nat)
    requires PcbOk(v) && off0 <= |v.tx| && FireLeft(v, off0, segs, off) && off < |v.tx| && off <= Window(v)
    ensures var n := CutLen(v, off);
            FireLeft(v, off0, segs + [Segment(Add32(v.una, off), v.rcv, v.tx[off..off + n], Advertised(v))], off + n)
  {
    var n := CutLen(v, off);
    var s := Segment(Add32(v.una, off), v.rcv, v.tx[off..off + n], Advertised(v));
    assert segs + ([s] + FireSegs(v, off + n)) == segs + [s] + FireSegs(v, off + n);
  }

  lemma FireStops(v: Pcb, off0: nat, segs: seq<Segment>, off: nat)
    requires PcbOk(v) && off0 <= |v.tx| && FireLeft(v, off0, segs, off) && (off >= |v.tx| || off > Window(v))
    ensures segs == FireSegs(v, off0) && off == FireEnd(v, off0)
  {
    assert segs + [] == segs;
  }

  // ----- the timer

  /** When it expires, and how often something was sent since everything was acknowledged. */
  datatype Timer = Timer(tmo: nat, retry: nat)

  /** After `tcp_fire`, which sets it if it moved `snd_nxt`. */
  function Fired(t: Timer, moved: bool, now: nat): Timer {
    if moved then Timer(now + INIT_RTO, if t.retry < MAX_RETRY then t.retry + 1 else t.retry) else t
  }

  /** After an acknowledgement, which stops it if it was for everything. */
  function Acked(t: Timer, all: bool): Timer { if all then Timer(0, 0) else t }

  /** After n sends that moved `snd_nxt`, with nothing acknowledged between. */
  function AfterSends(t: Timer, times: seq<nat>): Timer {
    if times == [] then t else Fired(AfterSends(t, times[..|times| - 1]), true, times[|times| - 1])
  }

  /** Sends count as retries: after five of them without a full acknowledgement the first timeout gives up. */
  lemma {:induction false} SendsCount(times: seq<nat>)
    ensures AfterSends(Timer(0, 0), times).retry >= MAX_RETRY <==> |times| >= 5
    ensures AfterSends(Timer(0, 0), times).retry == Min(|times|, 5)
    decreases |times|
  {
    if times != [] {
      SendsCount(times[..|times| - 1]);
    }
  }

  class ControlBlock {
    var una: nat
    var nxt: nat
    var rcv: nat
    var wnd: nat
    const txb: array<Byte>
    var txLen: nat
    const rx: array<Byte>
    var head: nat
    var tail: nat
    var tmo: nat
    var retry: nat
    var active: bool

    ghost predicate Valid()
      reads this, txb, rx
    {
      && txb.Length == SND_BUF && rx.Length == RCV_BUF && txb != rx
      && txLen <= SND_BUF && head < U16 && tail < U16 && RxLen(head, tail) <= RCV_BUF
      && PcbOk(View())
    }

    ghost function Timers(): Timer
      reads this
    {
      Timer(tmo, retry)
    }

    /** The timer runs while something is on the way. */
    ghost predicate Armed()
      reads this
    {
      una <= nxt && (una != nxt ==> tmo > 0)
    }

    /** The block as a value. */
    ghost function View(): Pcb
      reads this, txb, rx
      requires txLen <= txb.Length && rx.Length == RCV_BUF && head < U16 && tail < U16
    {
      Pcb(una, nxt, rcv, wnd, txb[..txLen], Ring(rx[..], head, RxLen(head, tail)))
    }

    constructor (iss: nat, irs: nat, wnd: nat)
      requires iss < U32 && irs < U32 && wnd < U16
      ensures Valid() && View() == Pcb(Add32(iss, 1), Add32(iss, 1), Add32(irs, 1), wnd, [], [])
      ensures fresh(txb) && fresh(rx) && Armed() && Timers() == Timer(0, 0) && active
    {
      una, nxt, rcv, this.wnd := Add32(iss, 1), Add32(iss, 1), Add32(irs, 1), wnd;
      txb, txLen := new Byte[SND_BUF](_ => 0), 0;
      rx, head, tail := new Byte[RCV_BUF](_ => 0), 0, 0;
      tmo, retry, active := 0, 0, true;
    }

    method AckSegment() returns (s: Segment)
      requires Valid()
      ensures s == Ack(View())
    {
      s := Segment(nxt, rcv, [], RCV_BUF - RxLen(head, tail));
    }

    /** `tcp_rx_put`. */
    method RxPut(data: Block)
      requires Valid() && RxLen(head, tail) + |data| <= RCV_BUF
      modifies this`tail, rx
      ensures Valid() && View() == old(View()).(rx := old(View()).rx + data)
    {
      ghost var n := RxLen(head, tail);
      for i := 0 to |data|
        invariant tail < U16 && RxLen(head, tail) == n + i && txb[..txLen] == old(txb[..txLen])
        invariant Ring(rx[..], head, n + i) == old(View()).rx + data[..i]
      {
        TailPlace(head, tail);
        TailNext(head, tail);
        RingPut(rx[..], head, n + i, data[i]);
        rx[tail % RCV_BUF] := data[i];
        tail := Next16(tail);
        assert data[..i + 1] == data[..i] + [data[i]];
      }
      assert data[..|data|] == data;
    }

    /** `tcp_recv`: -1 when nothing is there, else the bytes and a window update when one is due. */
    method Recv(len: nat) returns (rc: int, bytes: Block, segs: seq<Segment>)
      requires Valid()
      modifies this`head
      ensures Valid()
      ensures old(View()).rx == [] ==> rc == -1 && View() == old(View())
      ensures old(View()).rx != [] ==> rc == |bytes|
      ensures (View(), bytes, segs) == Tcp.Recv(old(View()), len)
    {
      hide Ring, Next16;
      ghost var v := View();
      var avail := RxLen(head, tail);
      segs, bytes := [], [];
      if avail == 0 {
        return -1, [], [];
      }
      var room := RCV_BUF - avail;
      if avail > len {
        avail := len;
      }
      for i := 0 to avail
        invariant head < U16 && RxLen(head, tail) == |v.rx| - i
        invariant bytes == v.rx[..i] && Ring(rx[..], head, |v.rx| - i) == v.rx[i..]
      {
        RingGet(rx[..], head, |v.rx| - i);
        HeadNext(head, tail);
        assert v.rx[i..][1..] == v.rx[i + 1..];
        bytes := bytes + [rx[head % RCV_BUF]];
        head := Next16(head);
      }
      if room < MSS && RCV_BUF - RxLen(head, tail) >= MSS {
        var a := AckSegment();
        segs := [a];
      }
      rc := |bytes|;
    }

    /** The loop of `tcp_fire`: cut segments from the send buffer while the window allows. */
    method Cut() returns (segs: seq<Segment>, cursor: nat)
      requires Valid()
      ensures segs == FireSegs(View(), Sub32(nxt, una))
      ensures cursor == Add32(una, FireEnd(View(), Sub32(nxt, una)))
    {
      hide FireSegs, FireEnd, FireLeft, Ring, RxLen, Add32, Sub32, SeqLt;
      var limit := Add32(una, txLen);
      var window := if wnd != 0 then wnd else MSS;
      cursor, segs := nxt, [];
      ghost var v, off0 := View(), Sub32(nxt, una);
      ghost var off := off0;
      FireStarts(v);
      while SeqLt(cursor, limit) && (Sub32(cursor, una) >= U31 || Sub32(cursor, una) < window + 1)
        invariant off <= txLen && cursor == Add32(una, off) && cursor < U32
        invariant FireLeft(v, off0, segs, off)
        decreases txLen - off
      {
        CursorPlace(una, off, txLen);
        FireTurns(v, off0, segs, off);
        var at := Sub32(cursor, una);
        var n := Min(Min(Sub32(limit, cursor), MSS), window);
        assert n == CutLen(v, off) && txb[at..at + n] == v.tx[off..off + n];
        segs := segs + [Segment(cursor, rcv, txb[at..at + n], RCV_BUF - RxLen(head, tail))];
        AddTwice(una, off, n);
        cursor, off := Add32(cursor, n), off + n;
      }
      CursorPlace(una, off, txLen);
      FireStops(v, off0, segs, off);
    }

    /** `tcp_fire`. */
    method Fire(now: nat) returns (segs: seq<Segment>)
      requires Valid()
      modifies this`nxt, this`tmo, this`retry
      ensures Valid() && (View(), segs) == Tcp.Fire(old(View()))
      ensures Timers() == Fired(old(Timers()), nxt != old(nxt), now) && nxt >= old(nxt)
    {
      var cursor;
      segs, cursor := Cut();
      if cursor > nxt {
        nxt := cursor;
        tmo := now + INIT_RTO;
        if retry < MAX_RETRY {
          retry := retry + 1;
        }
      }
    }

    /** `tcp_send` in the established state. */
    method Send(data: Block, now: nat) returns (rc: int, segs: seq<Segment>)
      requires Valid()
      modifies this`nxt, this`txLen, this`tmo, this`retry, txb
      ensures Valid() && (View(), segs, rc) == Tcp.Send(old(View()), data)
      ensures Timers() == Fired(old(Timers()), nxt != old(nxt), now) && (old(Armed()) ==> Armed())
    {
      if data == [] || SND_BUF - txLen < |data| {
        return -1, [];
      }
      ghost var v := View();
      for i := 0 to |data|
        modifies txb
        invariant txb[..txLen + i] == v.tx + data[..i]
      {
        txb[txLen + i] := data[i];
        assert data[..i + 1] == data[..i] + [data[i]];
      }
      assert data[..|data|] == data;
      txLen := txLen + |data|;
      segs := Fire(now);
      rc := |data|;
    }

    /** `memmove` of the unacknowledged bytes to the front. */
    method Release(d: nat)
      requires Valid() && d <= txLen
      modifies this`txLen, txb
      ensures txLen == old(txLen) - d && txb[..txLen] == old(txb[d..txLen])
    {
      var n := txLen - d;
      for i := 0 to n
        invariant txb[..i] == old(txb[d..d + i]) && txb[i..] == old(txb[i..])
      {
        assert txb[i + d] == txb[i..][d] == old(txb[i..])[d];
        txb[i] := txb[i + d];
        assert old(txb[d..d + i + 1]) == old(txb[d..d + i]) + [old(txb[d + i])];
      }
      txLen := n;
    }

    /** The acknowledgement part of `tcp_input_established`. */
    method TakeAck(ack: nat, now: nat) returns (segs: seq<Segment>)
      requires Valid() && ack < U32 && !SeqLt(nxt, ack)
      modifies this`una, this`nxt, this`txLen, this`tmo, this`retry, txb
      ensures Valid() && (View(), segs) == Tcp.TakeAck(old(View()), ack)
      ensures Timers() == Fired(Acked(old(Timers()), una != old(una) && una >= old(nxt)), nxt != old(nxt), now)
      ensures old(Armed()) ==> Armed()
    {
      hide Ring, RxLen, Tcp.Fire;
      segs := [];
      if SeqLt(una, ack) {
        var d := Sub32(ack, una);
        if d > txLen {
          d := txLen;
        }
        if d > 0 {
          ghost var v := View();
          Release(d);
          assert txb[..txLen] == v.tx[d..];
          una := ack;
          if una >= nxt {
            retry, tmo := 0, 0;
          }
          segs := Fire(now);
        }
      }
    }

    /** The data part of `tcp_input_established`. */
    method TakeData(seq_: nat, data: Block) returns (segs: seq<Segment>)
      requires Valid() && seq_ < U32
      modifies this`rcv, this`tail, rx
      ensures Valid()
      ensures forall s: Segment | s.seq_ == seq_ && s.data == data :: (View(), segs) == Tcp.TakeData(old(View()), s)
    {
      segs := [];
      if data == [] {
        return;
      }
      var past := if SeqLt(seq_, rcv) then Sub32(rcv, seq_) else 0;
      if past >= |data| || Add32(seq_, past) != rcv {
        var a := AckSegment();
        return [a];
      }
      var n := Min(|data| - past, RCV_BUF - RxLen(head, tail));
      RxPut(data[past..past + n]);
      rcv := Add32(rcv, n);
      var a := AckSegment();
      segs := [a];
    }

    /** `tcp_input` on an established block, for a segment with only the ACK flag. */
    method Input(s: Segment, now: nat) returns (segs: seq<Segment>)
      requires Valid() && s.seq_ < U32 && s.ack < U32 && s.wnd < U16
      modifies this, txb, rx
      ensures Valid() && (View(), segs) == Tcp.Input(old(View()), s) && active == old(active)
      ensures Timers() == Fired(Acked(old(Timers()), una != old(una) && una >= old(nxt)), nxt != old(nxt), now)
      ensures old(Armed()) ==> Armed()
    {
      hide Ring, RxLen, Tcp.TakeAck, Tcp.TakeData, SeqLt;
      wnd := if s.wnd != 0 then s.wnd else MSS;
      if SeqLt(nxt, s.ack) {
        var a := AckSegment();
        return [a];
      }
      var out1 := TakeAck(s.ack, now);
      var out2 := TakeData(s.seq_, s.data);
      segs := out1 + out2;
    }

    /** The retransmission branch of `tcp_tick`, once the timer has expired. */
    method Tick(now: nat) returns (segs: seq<Segment>)
      requires Valid()
      modifies this`retry, this`tmo, this`active
      ensures Valid() && View() == old(View())
      ensures var drop := SeqLt(una, nxt) && old(retry) >= MAX_RETRY;
              active == (old(active) && !drop) && segs == if drop then [] else Resend(View())
      ensures if SeqLt(una, nxt) then retry == old(retry) + 1
              && tmo == (if retry <= MAX_RETRY then now + INIT_RTO * Pow2(retry) else old(tmo))
              else retry == old(retry) && tmo == old(tmo)
      ensures old(Armed()) ==> Armed()
    {
      segs := [];
      if !SeqLt(una, nxt) {
        return;
      }
      retry := retry + 1;
      if retry > MAX_RETRY {
        active := false;
        return;
      }
      segs := ResendLoop();
      tmo := now + INIT_RTO * Pow2(retry);
    }

    /** Its loop: the whole buffer from `snd_una`, in full segments. */
    method ResendLoop() returns (segs: seq<Segment>)
      requires Valid()
      ensures segs == ResendSegs(View(), 0)
    {
      hide ResendSegs, Ring, Add32, Sub32, SeqLt;
      var limit, cursor := Add32(una, txLen), una;
      segs := [];
      ghost var v, off := View(), 0;
      AddZero(una);
      assert [] + ResendSegs(v, 0) == ResendSegs(v, 0);
      while SeqLt(cursor, limit)
        invariant off <= txLen && cursor == Add32(una, off) && cursor < U32
        invariant segs + ResendSegs(v, off) == ResendSegs(v, 0)
        decreases txLen - off
      {
        CursorPlace(una, off, txLen);
        ResendIs(v, off, segs);
        var at := Sub32(cursor, una);
        var n := Min(Sub32(limit, cursor), MSS);
        assert txb[at..at + n] == v.tx[off..off + n];
        segs := segs + [Segment(cursor, rcv, txb[at..at + n], RCV_BUF - RxLen(head, tail))];
        AddTwice(una, off, n);
        cursor, off := Add32(cursor, n), off + n;
      }
      CursorPlace(una, off, txLen);
      ResendEnds(v);
      assert segs + [] == segs;
    }
  }

  lemma ResendIs(v: Pcb, off: nat, segs: seq<Segment>)
    requires PcbOk(v) && off < |v.tx|
    ensures var n := Min(|v.tx| - off, MSS);
            segs + ResendSegs(v, off)
            == segs + [Segment(Add32(v.una, off), v.rcv, v.tx[off..off + n], Advertised(v))] + ResendSegs(v, off + n)
  {
  }

  lemma ResendEnds(v: Pcb)
    requires PcbOk(v)
    ensures ResendSegs(v, |v.tx|) == []
  {
  }

  lemma AddZero(a: nat)
    requires a < U32
    ensures Add32(a, 0) == a
  {
  }

  lemma AddTwice(a: nat, b: nat, c: nat)
    requires a < U32 && b + c < U32
    ensures Add32(Add32(a, b), c) == Add32(a, b + c)
  {
  }

  /** The comparisons of the cutting loops, in terms of offsets into the send buffer. */
  lemma CursorPlace(una: nat, off: nat, len: nat)
    requires una < U32 && off <= len <= SND_BUF
    ensures Sub32(Add32(una, off), una) == off && Sub32(Add32(una, len), Add32(una, off)) == len - off
    ensures SeqLt(Add32(una, off), Add32(una, len)) <==> off < len
  {
  }
}
