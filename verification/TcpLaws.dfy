/** What the calls of the TCP driver do for their callers, in terms of bytes: what is accepted, sent,
    released, taken and answered (drivers/net/tcp.c:128-152, 205-244, 375-452, 591-612). */
module TcpLaws {
  import opened Words
  import opened Bytes
  import opened Tcp

  // ----- what is sent

  /** The bytes of the segments, in order. */
  function Carried(segs: seq<Segment>): Block {
    if segs == [] then [] else segs[0].data + Carried(segs[1..])
  }

  /** Segments that follow each other from sequence number n on, none empty and none over the segment size,
      and say what the block says. */
  predicate InOrder(segs: seq<Segment>, n: nat, p: Pcb)
    requires |p.rx| <= RCV_BUF
  {
    segs == [] ||
    (&& segs[0].seq_ == n && 0 < |segs[0].data| <= MSS && segs[0].ack == p.rcv && segs[0].wnd + |p.rx| == RCV_BUF
     && InOrder(segs[1..], Add32(n, |segs[0].data|), p))
  }

  lemma NextPlace(una: nat, off: nat, n: nat)
    requires una < U32 && off + n < U32
    ensures Add32(Add32(una, off), n) == Add32(una, off + n)
  {
  }

  lemma Cons(s: Segment, rest: seq<Segment>, n: nat, p: Pcb)
    requires |p.rx| <= RCV_BUF
    ensures Carried([s] + rest) == s.data + Carried(rest)
    ensures InOrder([s] + rest, n, p) <==>
            && s.seq_ == n && 0 < |s.data| <= MSS && s.ack == p.rcv && s.wnd + |p.rx| == RCV_BUF
            && InOrder(rest, Add32(n, |s.data|), p)
  {
    hide Add32;
    assert ([s] + rest)[1..] == rest;
  }

  /** A fire sends the buffer from what was sent before up to its end, gapless. */
  lemma {:induction false} FireCovers(p: Pcb, off: nat)
    requires PcbOk(p) && off <= |p.tx|
    ensures Carried(FireSegs(p, off)) == p.tx[off..FireEnd(p, off)] && InOrder(FireSegs(p, off), Add32(p.una, off), p)
    decreases |p.tx| - off
  {
    hide FireSegs, FireEnd, Add32, Carried, InOrder;
    FireStep(p, off);
    if off < |p.tx| && off <= Window(p) {
      var n := CutLen(p, off);
      FireCovers(p, off + n);
      NextPlace(p.una, off, n);
      Cons(FireSegs(p, off)[0], FireSegs(p, off + n), Add32(p.una, off), p);
      assert p.tx[off..off + n] + p.tx[off + n..FireEnd(p, off)] == p.tx[off..FireEnd(p, off)];
    } else {
      Nothing(Add32(p.una, off), p);
    }
  }

  lemma FireStep(p: Pcb, off: nat)
    requires PcbOk(p) && off <= |p.tx|
    ensures if off < |p.tx| && off <= Window(p)
            then
              var n := CutLen(p, off);
              && 0 < n && off + n <= |p.tx| && FireEnd(p, off) == FireEnd(p, off + n)
              && FireSegs(p, off) ==
                 [Segment(Add32(p.una, off), p.rcv, p.tx[off..off + n], Advertised(p))] + FireSegs(p, off + n)
            else FireSegs(p, off) == [] && FireEnd(p, off) == off
  {
    hide Add32;
  }

  lemma Nothing(n: nat, p: Pcb)
    requires |p.rx| <= RCV_BUF
    ensures Carried([]) == [] && InOrder([], n, p)
  {
  }

  /** A retransmission sends the whole buffer, gapless. */
  lemma {:induction false} ResendCovers(p: Pcb, off: nat)
    requires PcbOk(p) && off <= |p.tx|
    ensures Carried(ResendSegs(p, off)) == p.tx[off..] && InOrder(ResendSegs(p, off), Add32(p.una, off), p)
    decreases |p.tx| - off
  {
    if off < |p.tx| {
      hide Add32, Carried, InOrder;
      var n := Min(|p.tx| - off, MSS);
      ResendCovers(p, off + n);
      NextPlace(p.una, off, n);
      Cons(ResendSegs(p, off)[0], ResendSegs(p, off + n), Add32(p.una, off), p);
      assert p.tx[off..off + n] + p.tx[off + n..] == p.tx[off..];
    }
  }

  /** The timer resends the buffer, all of it from the first byte not acknowledged on, if and only if something
      sent is not acknowledged. */
  lemma ResendIff(p: Pcb)
    requires PcbOk(p)
    ensures Carried(Resend(p)) == (if p.nxt != p.una then p.tx else []) && InOrder(Resend(p), p.una, p)
  {
    hide ResendSegs, Carried, InOrder;
    ResendCovers(p, 0);
    Nothing(p.una, p);
    assert p.tx[0..] == p.tx;
  }

  /** So a fire changes `snd_nxt` at most, and carries what the window lets through. */
  lemma FireDoes(p: Pcb)
    requires PcbOk(p)
    ensures var (p', segs) := Fire(p);
            var off := Sub32(p.nxt, p.una);
            && p' == p.(nxt := p'.nxt) && InOrder(segs, p.nxt, p)
            && Carried(segs) == p'.tx[off..off + Sendable(p', off)]
  {
    hide Add32, Sub32, FireEnd, FireSegs, Sendable, Carried, InOrder;
    var off := Sub32(p.nxt, p.una);
    FireCovers(p, off);
    FireEndIs(p, off);
    Cursor(p.una, p.nxt);
    SameSendable(p, Fire(p).0, off);
  }

  /** Data is accepted, whole, if and only if there is some and the buffer has room for all of it; then it
      is behind what waits, and what the window lets through of what was not sent leaves at once. */
  lemma SendIff(p: Pcb, data: Block)
    requires PcbOk(p)
    ensures var (p', segs, rc) := Send(p, data);
            if data != [] && |p.tx| + |data| <= SND_BUF
            then
              && rc == |data| && p' == p.(tx := p.tx + data, nxt := p'.nxt)
              && (var off := Sub32(p.nxt, p.una);
                  Carried(segs) == p'.tx[off..off + Sendable(p', off)] && InOrder(segs, p.nxt, p))
            else rc == -1 && p' == p && segs == []
  {
    hide Add32, Sub32, Fire, Sendable, Carried, InOrder;
    if data != [] && |p.tx| + |data| <= SND_BUF {
      var q := p.(tx := p.tx + data);
      FireDoes(q);
      SamePlace(Fire(q).1, p.nxt, q, p);
    }
  }

  lemma Cursor(una: nat, nxt: nat)
    requires una < U32 && nxt < U32
    ensures Add32(una, Sub32(nxt, una)) == nxt
  {
  }

  lemma {:induction false} SamePlace(segs: seq<Segment>, n: nat, p: Pcb, q: Pcb)
    requires |p.rx| == |q.rx| <= RCV_BUF && p.rcv == q.rcv
    ensures InOrder(segs, n, p) <==> InOrder(segs, n, q)
  {
    hide Add32;
    if segs != [] {
      SamePlace(segs[1..], Add32(n, |segs[0].data|), p, q);
    }
  }

  lemma SameSendable(p: Pcb, q: Pcb, off: nat)
    requires off <= |p.tx| == |q.tx| && p.wnd == q.wnd
    ensures Sendable(p, off) == Sendable(q, off)
  {
  }

  // ----- what is received

  /** The oldest bytes are returned, as many as asked for and there; the window is announced again exactly
      when it was below a segment and no longer is. */
  lemma RecvGives(p: Pcb, len: nat)
    requires PcbOk(p)
    ensures var (p', bytes, segs) := Recv(p, len);
            && bytes + p'.rx == p.rx && (|bytes| == len || p'.rx == []) && |bytes| <= len
            && p' == p.(rx := p'.rx)
            && segs == if RCV_BUF - |p.rx| < MSS <= RCV_BUF - |p'.rx| then [Ack(p')] else []
  {
  }

  /** The room that an acknowledgement announces is the room there is: data at the expected place is taken
      whole if and only if it is no longer than that. */
  lemma WindowIff(p: Pcb, s: Segment, a: Segment)
    requires PcbOk(p) && a == Ack(p) && s.seq_ == p.rcv
    ensures TakeData(p, s).0.rx == p.rx + s.data <==> |s.data| <= a.wnd
    ensures a.wnd == RCV_BUF - |p.rx| && a.ack == p.rcv && a.seq_ == p.nxt && a.data == []
  {
    if s.data != [] {
      var p' := TakeData(p, s).0;
      assert |p'.rx| == |p.rx| + Min(|s.data|, RCV_BUF - |p.rx|);
      assert |s.data| <= a.wnd ==> s.data[0..0 + |s.data|] == s.data;
    }
  }

  /** An acknowledgement that is not ahead and acknowledges something: exactly the bytes before it leave the
      buffer, and what the window lets through of what was not sent leaves. */
  lemma AckReleases(p: Pcb, ack: nat)
    requires PcbOk(p) && ack < U32 && !SeqLt(p.nxt, ack)
    ensures var d := Sub32(ack, p.una);
            var p' := TakeAck(p, ack).0;
            && p'.rx == p.rx && p'.rcv == p.rcv && p'.wnd == p.wnd
            && if SeqLt(p.una, ack)
               then
                 && d <= Sub32(p.nxt, p.una) && p'.una == ack && p'.tx == p.tx[d..]
                 && (var off := Sub32(p.nxt, p.una) - d;
                     && Carried(TakeAck(p, ack).1) == p'.tx[off..off + Sendable(p', off)]
                     && InOrder(TakeAck(p, ack).1, p.nxt, p))
               else p'.una == p.una && p'.tx == p.tx && p'.nxt == p.nxt && TakeAck(p, ack).1 == []
  {
    hide Fire, Sendable, Add32, Sub32, SeqLt, Carried, InOrder;
    if SeqLt(p.una, ack) {
      Between(p.una, p.nxt, ack);
      var q := p.(una := ack, tx := p.tx[Sub32(ack, p.una)..]);
      FireDoes(q);
      SamePlace(Fire(q).1, p.nxt, q, p);
    }
  }

  lemma Between(una: nat, nxt: nat, ack: nat)
    requires una < U32 && nxt < U32 && ack < U32 && Sub32(nxt, una) <= SND_BUF
    requires SeqLt(una, ack) && !SeqLt(nxt, ack)
    ensures 0 < Sub32(ack, una) <= Sub32(nxt, una) && Sub32(nxt, ack) == Sub32(nxt, una) - Sub32(ack, una)
  {
  }

  /** A segment arrives whose acknowledgement is not ahead: it releases what it acknowledges, exactly the
      bytes from the expected place on are taken as far as there is room, and data is answered by an
      acknowledgement of everything taken so far. */
  lemma InputDoes(p: Pcb, s: Segment)
    requires PcbOk(p) && s.seq_ < U32 && s.ack < U32 && s.wnd < U16 && |s.data| <= U31 && !SeqLt(p.nxt, s.ack)
    ensures var (p', segs) := Input(p, s);
            var x := Sub32(p.rcv, s.seq_);
            var n := if x < |s.data| then Min(|s.data| - x, RCV_BUF - |p.rx|) else 0;
            && p'.rx == p.rx + (if n > 0 then s.data[x..x + n] else []) && p'.rcv == Add32(p.rcv, n)
            && p'.wnd == (if s.wnd != 0 then s.wnd else MSS)
            && (if SeqLt(p.una, s.ack) then p'.una == s.ack && p'.tx == p.tx[Min(|p.tx|, Sub32(s.ack, p.una))..]
                else p'.una == p.una && p'.tx == p.tx)
            && (s.data != [] ==> segs != [] && segs[|segs| - 1] == Segment(p'.nxt, p'.rcv, [], RCV_BUF - |p'.rx|))
  {
    hide TakeAck, TakeData, Sub32, Add32, SeqLt;
    var p0 := p.(wnd := if s.wnd != 0 then s.wnd else MSS);
    var p1 := TakeAck(p0, s.ack).0;
    AckReleases(p0, s.ack);
    DataDoes(p1, s);
  }

  lemma DataDoes(p: Pcb, s: Segment)
    requires PcbOk(p) && s.seq_ < U32 && |s.data| <= U31
    ensures var (p', segs) := TakeData(p, s);
            var x := Sub32(p.rcv, s.seq_);
            var n := if x < |s.data| then Min(|s.data| - x, RCV_BUF - |p.rx|) else 0;
            && p' == p.(rx := p.rx + (if n > 0 then s.data[x..x + n] else []), rcv := Add32(p.rcv, n))
            && (s.data != [] ==> segs == [Segment(p'.nxt, p'.rcv, [], RCV_BUF - |p'.rx|)])
            && (s.data == [] ==> segs == [])
  {
    var x := Sub32(p.rcv, s.seq_);
    if x < |s.data| {
      assert Add32(s.seq_, x) == p.rcv;
      assert 0 < x ==> SeqLt(s.seq_, p.rcv);
    }
  }

  /** One whose acknowledgement is ahead is answered and otherwise ignored, but for its window. */
  lemma AheadRefused(p: Pcb, s: Segment)
    requires PcbOk(p) && s.seq_ < U32 && s.ack < U32 && s.wnd < U16 && SeqLt(p.nxt, s.ack)
    ensures Input(p, s) == (p.(wnd := if s.wnd != 0 then s.wnd else MSS), [Segment(p.nxt, p.rcv, [], RCV_BUF - |p.rx|)])
  {
  }
}
