/** The established data phase of the TCP driver: what each call does to a protocol control
    block and which segments it emits (drivers/net/tcp.c:25-27, 115-152, 205-244, 375-452, 591-612). */
module Tcp {
  import opened Words
  import opened Bytes
  import opened Division

  const MSS := 1460
  const RCV_BUF := 4096
  const SND_BUF := 8192

  /** Unsigned 32-bit subtraction. */
  function Sub32(a: nat, b: nat): (r: nat)
    requires a < U32 && b < U32
    ensures r < U32
  {
    if a >= b then a - b else a - b + U32
  }

  /** `seq_lt`: the difference, read as a signed word, is negative. */
  predicate SeqLt(a: nat, b: nat)
    requires a < U32 && b < U32
  {
    Sub32(a, b) >= U31
  }

  /** tx: sent or queued bytes not yet acknowledged; rx: received bytes not yet read. */
  datatype Pcb = Pcb(una: nat, nxt: nat, rcv: nat, wnd: nat, tx: Block, rx: Block)

  datatype Segment = Segment(seq_: nat, ack: nat, data: Block, wnd: nat)

  /** Sequence fields are words, and what was sent lies within the send buffer. */
  predicate PcbOk(p: Pcb) {
    && p.una < U32 && p.nxt < U32 && p.rcv < U32 && p.wnd < U16
    && |p.tx| <= SND_BUF && |p.rx| <= RCV_BUF
    && Sub32(p.nxt, p.una) <= |p.tx|
  }

  function Advertised(p: Pcb): nat
    requires |p.rx| <= RCV_BUF
  {
    RCV_BUF - |p.rx|
  }

  function Window(p: Pcb): nat { if p.wnd != 0 then p.wnd else MSS }

  /** A segment without data. */
  function Ack(p: Pcb): Segment
    requires |p.rx| <= RCV_BUF
  {
    Segment(p.nxt, p.rcv, [], Advertised(p))
  }

  // ----- sending

  /** The length of the segment `tcp_fire` cuts at offset off of the send buffer. */
  function CutLen(p: Pcb, off: nat): nat
    requires off < |p.tx|
  {
    Min(Min(|p.tx| - off, MSS), Window(p))
  }

  /** The segments `tcp_fire` emits from offset off on. */
  function FireSegs(p: Pcb, off: nat): seq<Segment>
    requires PcbOk(p)
    decreases |p.tx| - off
  {
    if off >= |p.tx| || off > Window(p) then []
    else
      var n := CutLen(p, off);
      [Segment(Add32(p.una, off), p.rcv, p.tx[off..off + n], Advertised(p))] + FireSegs(p, off + n)
  }

  /** Where its cursor ends. */
  function FireEnd(p: Pcb, off: nat): (e: nat)
    requires PcbOk(p) && off <= |p.tx|
    ensures off <= e <= |p.tx|
    decreases |p.tx| - off
  {
    if off >= |p.tx| || off > Window(p) then off else FireEnd(p, off + CutLen(p, off))
  }

  /** `tcp_fire`: `snd_nxt` moves to the cursor when the cursor is numerically larger. */
  function Fire(p: Pcb): (r: (Pcb, seq<Segment>))
    requires PcbOk(p)
    ensures PcbOk(r.0)
  {
    var off := Sub32(p.nxt, p.una);
    var cursor := Add32(p.una, FireEnd(p, off));
    (if cursor > p.nxt then p.(nxt := cursor) else p, FireSegs(p, off))
  }

  /** `tcp_send` in the established state. */
  function Send(p: Pcb, data: Block): (r: (Pcb, seq<Segment>, int))
    requires PcbOk(p)
    ensures PcbOk(r.0)
  {
    if data == [] || SND_BUF - |p.tx| < |data| then (p, [], -1)
    else
      var (p', segs) := Fire(p.(tx := p.tx + data));
      (p', segs, |data|)
  }

  /** Timer retransmission: the whole send buffer, in full segments. */
  function ResendSegs(p: Pcb, off: nat): seq<Segment>
    requires PcbOk(p)
    decreases |p.tx| - off
  {
    if off >= |p.tx| then []
    else
      var n := Min(|p.tx| - off, MSS);
      [Segment(Add32(p.una, off), p.rcv, p.tx[off..off + n], Advertised(p))] + ResendSegs(p, off + n)
  }

  function Resend(p: Pcb): seq<Segment>
    requires PcbOk(p)
  {
    if SeqLt(p.una, p.nxt) then ResendSegs(p, 0) else []
  }

  // ----- receiving

  /** `tcp_recv`. */
  function Recv(p: Pcb, len: nat): (r: (Pcb, Block, seq<Segment>))
    requires PcbOk(p)
    ensures PcbOk(r.0)
  {
    var n := Min(|p.rx|, len);
    var p' := p.(rx := p.rx[n..]);
    (p', p.rx[..n], if p.rx != [] && Advertised(p) < MSS <= Advertised(p') then [Ack(p')] else [])
  }

  /** The acknowledgement field of a segment, once it is not ahead of `snd_nxt`. */
  function TakeAck(p: Pcb, ack: nat): (r: (Pcb, seq<Segment>))
    requires PcbOk(p) && ack < U32 && !SeqLt(p.nxt, ack)
    ensures PcbOk(r.0)
  {
    if !SeqLt(p.una, ack) then (p, [])
    else
      var d := Min(Sub32(ack, p.una), |p.tx|);
      if d == 0 then (p, []) else Fire(p.(una := ack, tx := p.tx[d..]))
  }

  /** The data of a segment. */
  function TakeData(p: Pcb, s: Segment): (r: (Pcb, seq<Segment>))
    requires PcbOk(p) && s.seq_ < U32
    ensures PcbOk(r.0)
  {
    if s.data == [] then (p, [])
    else
      var past := if SeqLt(s.seq_, p.rcv) then Sub32(p.rcv, s.seq_) else 0;
      if past >= |s.data| then (p, [Ack(p)])
      else if Add32(s.seq_, past) != p.rcv then (p, [Ack(p)])
      else
        var n := Min(|s.data| - past, RCV_BUF - |p.rx|);
        var p' := p.(rx := p.rx + s.data[past..past + n], rcv := Add32(p.rcv, n));
        (p', [Ack(p')])
  }

  /** `tcp_input` and `tcp_input_established` on a segment with only the ACK flag set. */
  function Input(p: Pcb, s: Segment): (r: (Pcb, seq<Segment>))
    requires PcbOk(p) && s.seq_ < U32 && s.ack < U32 && s.wnd < U16
    ensures PcbOk(r.0)
  {
    var p0 := p.(wnd := if s.wnd != 0 then s.wnd else MSS);
    if SeqLt(p0.nxt, s.ack) then (p0, [Ack(p0)])
    else
      var (p1, out1) := TakeAck(p0, s.ack);
      var (p2, out2) := TakeData(p1, s);
      (p2, out1 + out2)
  }

  // ----- how much tcp_fire sends

  /** What the peer allows to be on the way; an announced window of 0 counts as one segment. */
  function Allowed(p: Pcb): nat { if p.wnd == 0 then 1460 else p.wnd }

  /** The length of a full segment under the window. */
  function FullLen(p: Pcb): nat { Min(1460, Allowed(p)) }

  /** The cuts of c bytes that start no further than x, laid end to end. */
  function Cuts(c: nat, x: nat): nat
    requires c > 0
  {
    c * (x / c + 1)
  }

  /** What `tcp_fire` sends from offset off: full segments as long as they start within the window,
      hence up to one segment beyond it, or all there is. */
  function Sendable(p: Pcb, off: nat): nat
    requires off <= |p.tx|
  {
    if off > Allowed(p) then 0 else Min(|p.tx| - off, Cuts(FullLen(p), Allowed(p) - off))
  }

  /** The loop ends where this amount has been sent. */
  lemma {:induction false} FireEndIs(p: Pcb, off: nat)
    requires PcbOk(p) && off <= |p.tx|
    ensures FireEnd(p, off) == off + Sendable(p, off)
    decreases |p.tx| - off
  {
    hide Cuts;
    var c, w := FullLen(p), Window(p);
    if off < |p.tx| && off <= w {
      CutsLeft(c, w - off);
      if |p.tx| - off > c {
        assert CutLen(p, off) == c;
        FireEndIs(p, off + c);
      }
    }
  }

  /** The number of cuts falls by one with each cut. */
  lemma CutsLeft(c: nat, x: nat)
    requires c > 0
    ensures Cuts(c, x) >= c
    ensures x < c ==> Cuts(c, x) == c
    ensures x >= c ==> Cuts(c, x) == c + Cuts(c, x - c)
  {
    if x < c {
      DivModIs(0, c, x);
    } else {
      var q := (x - c) / c;
      Distribute(q, 1, c);
      assert x == (q + 1) * c + (x - c) % c;
      DivModIs(q + 1, c, (x - c) % c);
    }
    MulAtLeast(x / c + 1, c);
  }

  // ----- sequence wrap-around in tcp_fire

  /** `snd_nxt` covers everything `tcp_fire` emitted if and only if the bytes sent do not reach 2^32. */
  lemma FireAdvancesIff(p: Pcb)
    requires PcbOk(p)
    ensures var sent := Sendable(p, Sub32(p.nxt, p.una));
            Fire(p).0.nxt == Add32(p.nxt, sent) <==> p.nxt + sent < U32
  {
    hide FireEnd, FireSegs, Add32, Sub32, Sendable;
    FireEndIs(p, Sub32(p.nxt, p.una));
    CursorMoves(p.una, p.nxt, FireEnd(p, Sub32(p.nxt, p.una)));
  }

  lemma CursorMoves(una: nat, nxt: nat, end: nat)
    requires una < U32 && nxt < U32 && Sub32(nxt, una) <= end <= SND_BUF
    ensures var sent := end - Sub32(nxt, una);
            var cursor := Add32(una, end);
            cursor == Add32(nxt, sent) && (cursor == nxt || cursor > nxt <==> nxt + sent < U32)
  {
  }

  /** After a wrap, a segment that acknowledges everything emitted is refused, data included:
      nothing leaves the send buffer and nothing enters the receive ring. */
  lemma WrapRefusesAck(p: Pcb, s: Segment)
    requires PcbOk(p) && s.seq_ < U32 && s.wnd < U16
    requires var sent := Sendable(p, Sub32(p.nxt, p.una));
             p.nxt + sent >= U32 && s.ack == Add32(p.nxt, sent)
    ensures var p' := Fire(p).0;
            Input(p', s).0.tx == p.tx && Input(p', s).0.rx == p.rx && Input(p', s).0.una == p.una
  {
    hide FireEnd, FireSegs, Sendable, TakeAck, TakeData;
    var off := Sub32(p.nxt, p.una);
    FireEndIs(p, off);
    CursorMoves(p.una, p.nxt, FireEnd(p, off));
    assert Fire(p).0 == p;
    assert SeqLt(p.nxt, s.ack);
  }

  // ----- segments too long for ip_output

  const IP_HEADER := 20
  const TCP_HEADER := 20

  /** `tcp_emit` takes up to `TCP_MSS` bytes behind its header; `ip_output` refuses more than `TCP_MSS`
      bytes behind its own (drivers/net/tcp.c:94-96, drivers/net/ip.c:75-78). */
  predicate Leaves(s: Segment) {
    TCP_HEADER + |s.data| <= TCP_HEADER + MSS && IP_HEADER + (TCP_HEADER + |s.data|) <= IP_HEADER + MSS
  }

  predicate AllLeave(segs: seq<Segment>) {
    forall k | 0 <= k < |segs| :: Leaves(segs[k])
  }

  /** No segment of a fire is longer than the first. */
  lemma {:induction false} FireShrinks(p: Pcb, off: nat, n: nat)
    requires PcbOk(p) && (off < |p.tx| ==> CutLen(p, off) <= n)
    ensures forall k | 0 <= k < |FireSegs(p, off)| :: |FireSegs(p, off)[k].data| <= n
    decreases |p.tx| - off
  {
    if off < |p.tx| && off <= Window(p) {
      FireShrinks(p, off + CutLen(p, off), n);
    }
  }

  lemma {:induction false} ResendShrinks(p: Pcb, off: nat, n: nat)
    requires PcbOk(p) && (off < |p.tx| ==> Min(|p.tx| - off, MSS) <= n)
    ensures forall k | 0 <= k < |ResendSegs(p, off)| :: |ResendSegs(p, off)[k].data| <= n
    decreases |p.tx| - off
  {
    if off < |p.tx| {
      ResendShrinks(p, off + Min(|p.tx| - off, MSS), n);
    }
  }

  /** All segments of a fire that sends something leave the host if and only if no more than 1440 bytes
      wait or the window is at most that: a full segment of 1460 bytes never does. */
  lemma FireLeavesIff(p: Pcb)
    requires PcbOk(p) && Sub32(p.nxt, p.una) < |p.tx| && Sub32(p.nxt, p.una) <= Window(p)
    ensures Fire(p).1 != []
    ensures AllLeave(Fire(p).1) <==> Min(|p.tx| - Sub32(p.nxt, p.una), Window(p)) <= MSS - TCP_HEADER
  {
    var off := Sub32(p.nxt, p.una);
    var segs := FireSegs(p, off);
    assert segs[0].data == p.tx[off..off + CutLen(p, off)];
    FireShrinks(p, off, CutLen(p, off));
    assert AllLeave(segs) ==> Leaves(segs[0]);
  }

  /** All segments of a retransmission leave the host if and only if the whole buffer holds no more
      than 1440 bytes. */
  lemma ResendLeavesIff(p: Pcb)
    requires PcbOk(p)
    ensures AllLeave(ResendSegs(p, 0)) <==> |p.tx| <= MSS - TCP_HEADER
  {
    var segs := ResendSegs(p, 0);
    if p.tx != [] {
      assert segs[0].data == p.tx[0..0 + Min(|p.tx|, MSS)];
      assert AllLeave(segs) ==> Leaves(segs[0]);
    }
    ResendShrinks(p, 0, Min(|p.tx|, MSS));
  }

  // ----- which data is taken

  /** Data is taken exactly when the receiver's next byte lies in the segment, modulo 2^32, and there is
      room; the bytes taken are those from that place on. So a segment between 2^31 and nearly 2^32
      bytes old is refused, and one older than that by a whole 2^32 is taken for new. */
  lemma TakenIff(p: Pcb, s: Segment)
    requires PcbOk(p) && s.seq_ < U32 && |s.data| <= U31
    ensures var x := Sub32(p.rcv, s.seq_);
            var p' := TakeData(p, s).0;
            if x < |s.data| && |p.rx| < RCV_BUF
            then var n := Min(|s.data| - x, RCV_BUF - |p.rx|); n > 0 && p'.rx == p.rx + s.data[x..x + n]
            else p'.rx == p.rx && p'.rcv == p.rcv
  {
    var x := Sub32(p.rcv, s.seq_);
    if x < |s.data| {
      assert Add32(s.seq_, x) == p.rcv;
      assert 0 < x ==> SeqLt(s.seq_, p.rcv);
    }
  }
}
