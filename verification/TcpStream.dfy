/** Two established endpoints over a network that loses, duplicates and reorders: what the
    receiver has read is always a prefix of what the sender accepted (drivers/net/tcp.c:115-152,
    205-244, 375-452, 591-612; sections 3.4 and 3.10.7.4 of RFC 9293). */
module TcpStream {
  import opened Words
  import opened Bytes
  import opened Tcp

  /** One endpoint. base is its first data sequence number; sent is every byte its send calls
      accepted; una is the place of `snd_una` in that stream and rcv the place of `rcv_nxt` in the
      peer's; got is every byte its receive calls returned. */
  datatype End = End(p: Pcb, base: nat, sent: Block, una: nat, rcv: nat, got: Block)

  /** The place of `snd_nxt`. */
  function Nxt(e: End): nat
    requires PcbOk(e.p)
  {
    e.una + Sub32(e.p.nxt, e.p.una)
  }

  /** A segment on the network with its place at in the sender's stream and the place ack of its
      acknowledgement in the peer's. */
  datatype Packet = Packet(seg: Segment, at: nat, ack: nat)

  /** ab and ba hold every packet ever sent; any of them may arrive any number of times. */
  datatype World = World(a: End, b: End, ab: set<Packet>, ba: set<Packet>)

  function Flip(w: World): World { World(w.b, w.a, w.ba, w.ab) }

  /** The word for place n of a stream that starts at base. */
  function Wire(base: nat, n: nat): (r: nat)
    ensures r < U32
  {
    (base + n) % U32
  }

  // ----- sequence arithmetic

  lemma WireAdd(base: nat, n: nat, k: nat)
    requires k < U32
    ensures Add32(Wire(base, n), k) == Wire(base, n + k)
  {
  }

  lemma WireSub(base: nat, m: nat, n: nat)
    requires m <= n < m + U32
    ensures Sub32(Wire(base, n), Wire(base, m)) == n - m
  {
    WireAdd(base, m, n - m);
  }

  /** `seq_lt` compares places in the stream when they are less than 2^31 apart. */
  lemma SeqLtIsBefore(base: nat, m: nat, n: nat)
    requires m < n + U31 && n < m + U31
    ensures SeqLt(Wire(base, m), Wire(base, n)) <==> m < n
  {
    if m < n {
      WireSub(base, m, n);
    } else {
      WireSub(base, n, m);
    }
  }

  // ----- the invariant

  /** The packet carries the stream's bytes at its place, and acknowledges no more than was received. */
  predicate PacketOk(k: Packet, base: nat, sent: Block, peerBase: nat, rcv: nat) {
    && k.at + |k.seg.data| <= |sent|
    && k.seg.data == sent[k.at..k.at + |k.seg.data|]
    && k.seg.seq_ == Wire(base, k.at)
    && k.ack <= rcv && k.seg.ack == Wire(peerBase, k.ack)
    && k.seg.wnd < U16
  }

  /** The sender's fields: the buffer is the unacknowledged part of the stream, so that
      una <= Nxt <= end of stream. */
  predicate SenderOk(e: End) {
    PcbOk(e.p) && e.una <= |e.sent| && e.p.una == Wire(e.base, e.una) && e.p.tx == e.sent[e.una..]
  }

  /** The stream from e to f: what f has returned and holds is the first f.rcv bytes of it. */
  predicate StreamOk(e: End, f: End) {
    && e.una <= f.rcv <= |e.sent|
    && f.p.rcv == Wire(e.base, f.rcv)
    && f.got + f.p.rx == e.sent[..f.rcv]
  }

  ghost predicate HalfOk(w: World) {
    && SenderOk(w.a)
    && StreamOk(w.a, w.b)
    && forall k | k in w.ab :: PacketOk(k, w.a.base, w.a.sent, w.b.base, w.a.rcv)
  }

  ghost predicate Inv(w: World) {
    HalfOk(w) && HalfOk(Flip(w))
  }

  // ----- the steps

  /** The packet for a segment that e emits. */
  function Placed(e: End, s: Segment): Packet
    requires PcbOk(e.p)
  {
    Packet(s, if s.seq_ < U32 then e.una + Sub32(s.seq_, e.p.una) else 0, e.rcv)
  }

  function Packets(e: End, segs: seq<Segment>): set<Packet>
    requires PcbOk(e.p)
  {
    set s | s in segs :: Placed(e, s)
  }

  function SendEnd(e: End, data: Block): (End, set<Packet>)
    requires PcbOk(e.p)
  {
    var (p, segs, rc) := Send(e.p, data);
    var e' := e.(p := p, sent := if rc > 0 then e.sent + data else e.sent);
    (e', Packets(e', segs))
  }

  function RecvEnd(e: End, len: nat): (End, set<Packet>)
    requires PcbOk(e.p)
  {
    var (p, bytes, segs) := Recv(e.p, len);
    var e' := e.(p := p, got := e.got + bytes);
    (e', Packets(e', segs))
  }

  function TickEnd(e: End): (End, set<Packet>)
    requires PcbOk(e.p)
  {
    (e, Packets(e, Resend(e.p)))
  }

  function AckEnd(e: End, ack: nat): (End, set<Packet>)
    requires PcbOk(e.p) && ack < U32 && !SeqLt(e.p.nxt, ack)
  {
    var (p, segs) := TakeAck(e.p, ack);
    var e' := e.(p := p, una := e.una + Sub32(p.una, e.p.una));
    (e', Packets(e', segs))
  }

  function DataEnd(e: End, s: Segment): (End, set<Packet>)
    requires PcbOk(e.p) && s.seq_ < U32
  {
    var (p, segs) := TakeData(e.p, s);
    var e' := e.(p := p, rcv := e.rcv + Sub32(p.rcv, e.p.rcv));
    (e', Packets(e', segs))
  }

  function InputEnd(e: End, s: Segment): (End, set<Packet>)
    requires PcbOk(e.p) && s.seq_ < U32 && s.ack < U32 && s.wnd < U16
  {
    var e0 := e.(p := e.p.(wnd := if s.wnd != 0 then s.wnd else MSS));
    if SeqLt(e0.p.nxt, s.ack) then (e0, Packets(e0, [Ack(e0.p)]))
    else
      var (e1, k1) := AckEnd(e0, s.ack);
      assert PcbOk(e1.p);
      var (e2, k2) := DataEnd(e1, s);
      (e2, k1 + k2)
  }

  function Segs(ks: set<Packet>): set<Segment> { set k | k in ks :: k.seg }

  lemma PacketSegs(e: End, segs: seq<Segment>)
    requires PcbOk(e.p)
    ensures Segs(Packets(e, segs)) == set s | s in segs
  {
    forall s | s in segs ensures s in Segs(Packets(e, segs)) {
      assert Placed(e, s) in Packets(e, segs) && Placed(e, s).seg == s;
    }
  }

  /** What arrives at an endpoint does what it does to the control block, and emits its segments. */
  lemma InputIs(e: End, s: Segment)
    requires PcbOk(e.p) && s.seq_ < U32 && s.ack < U32 && s.wnd < U16
    ensures InputEnd(e, s).0.p == Input(e.p, s).0
    ensures Segs(InputEnd(e, s).1) == set g | g in Input(e.p, s).1
  {
    hide TakeAck, TakeData, Packets, Placed;
    var e0 := e.(p := e.p.(wnd := if s.wnd != 0 then s.wnd else MSS));
    if SeqLt(e0.p.nxt, s.ack) {
      PacketSegs(e0, [Ack(e0.p)]);
    } else {
      var (p1, out1) := TakeAck(e0.p, s.ack);
      var (p2, out2) := TakeData(p1, s);
      var (e1, k1) := AckEnd(e0, s.ack);
      var (e2, k2) := DataEnd(e1, s);
      PacketSegs(e1, out1);
      PacketSegs(e2, out2);
      assert Segs(k1 + k2) == Segs(k1) + Segs(k2);
      assert (set g | g in out1 + out2) == (set g | g in out1) + (set g | g in out2);
    }
  }

  /** What an endpoint does at once. Deliver hands it a packet from the network. */
  datatype Action = Write(data: Block) | Read(len: nat) | Tick | Deliver(k: Packet)

  /** A packet less than 2^31 bytes old, for both of its sequence fields. */
  predicate Young(e: End, k: Packet)
    requires PcbOk(e.p)
  {
    k.at < e.rcv + U31 && e.rcv < k.at + U31 && Nxt(e) < k.ack + U31
  }

  predicate Enabled(w: World, x: Action) {
    && PcbOk(w.a.p)
    && (x.Deliver? ==> x.k in w.ba && Young(w.a, x.k) && x.k.seg.seq_ < U32 && x.k.seg.ack < U32 && x.k.seg.wnd < U16)
  }

  function ActEnd(e: End, x: Action): (End, set<Packet>)
    requires PcbOk(e.p) && (x.Deliver? ==> x.k.seg.seq_ < U32 && x.k.seg.ack < U32 && x.k.seg.wnd < U16)
  {
    match x
    case Write(data) => SendEnd(e, data)
    case Read(len) => RecvEnd(e, len)
    case Tick => TickEnd(e)
    case Deliver(k) => InputEnd(e, k.seg)
  }

  /** Endpoint a acts. */
  function Act(w: World, x: Action): World
    requires Enabled(w, x)
  {
    var (a, ks) := ActEnd(w.a, x);
    w.(a := a, ab := w.ab + ks)
  }

  // ----- every emitted segment carries the stream's bytes

  /** Segments that are slices of e's stream or bare acknowledgements. */
  ghost predicate SegsOk(e: End, segs: seq<Segment>, peerBase: nat)
    requires PcbOk(e.p)
  {
    forall s | s in segs :: PacketOk(Placed(e, s), e.base, e.sent, peerBase, e.rcv)
  }

  ghost predicate EndOk(e: End, peerBase: nat) {
    SenderOk(e) && e.p.rcv == Wire(peerBase, e.rcv)
  }

  lemma SliceOk(e: End, peerBase: nat, off: nat, n: nat)
    requires EndOk(e, peerBase) && off + n <= |e.p.tx|
    ensures var s := Segment(Add32(e.p.una, off), e.p.rcv, e.p.tx[off..off + n], Advertised(e.p));
            s.seq_ < U32 && PacketOk(Placed(e, s), e.base, e.sent, peerBase, e.rcv)
  {
    WireAdd(e.base, e.una, off);
    WireSub(e.base, e.una, e.una + off);
    assert e.p.tx[off..off + n] == e.sent[e.una + off..e.una + off + n];
  }

  lemma AckOk(e: End, peerBase: nat)
    requires EndOk(e, peerBase)
    ensures SegsOk(e, [Ack(e.p)], peerBase)
    ensures Wire(e.base, Nxt(e)) == e.p.nxt && Nxt(e) <= |e.sent|
  {
    var off := Sub32(e.p.nxt, e.p.una);
    WireAdd(e.base, e.una, off);
    assert Add32(e.p.una, off) == e.p.nxt;
    assert e.sent[e.una + off..e.una + off] == [];
  }

  lemma {:induction false} FireSegsOk(e: End, peerBase: nat, off: nat)
    requires EndOk(e, peerBase)
    ensures SegsOk(e, FireSegs(e.p, off), peerBase)
    decreases |e.p.tx| - off
  {
    if off < |e.p.tx| && off <= Window(e.p) {
      SliceOk(e, peerBase, off, CutLen(e.p, off));
      FireSegsOk(e, peerBase, off + CutLen(e.p, off));
    }
  }

  lemma {:induction false} ResendSegsOk(e: End, peerBase: nat, off: nat)
    requires EndOk(e, peerBase)
    ensures SegsOk(e, ResendSegs(e.p, off), peerBase)
    decreases |e.p.tx| - off
  {
    if off < |e.p.tx| {
      var n := Min(|e.p.tx| - off, MSS);
      SliceOk(e, peerBase, off, n);
      ResendSegsOk(e, peerBase, off + n);
    }
  }

  // ----- each action keeps the invariant

  /** What an action of endpoint e keeps about its own stream and about the peer f's stream. */
  ghost predicate Kept(e: End, f: End, e': End, ks: set<Packet>) {
    && EndOk(e', f.base) && e'.base == e.base && e.sent <= e'.sent && e.una <= e'.una && e.rcv <= e'.rcv
    && e'.una <= f.rcv
    && StreamOk(f, e')
    && forall k | k in ks :: PacketOk(k, e'.base, e'.sent, f.base, e'.rcv)
  }

  /** `tcp_fire` on an endpoint. */
  lemma FireEndOk(e: End, peerBase: nat)
    requires EndOk(e, peerBase)
    ensures var (p, segs) := Fire(e.p);
            var e' := e.(p := p);
            && EndOk(e', peerBase) && p.rx == e.p.rx
            && forall k | k in Packets(e', segs) :: PacketOk(k, e.base, e.sent, peerBase, e.rcv)
  {
    var (p, segs) := Fire(e.p);
    var e' := e.(p := p);
    FireSegsOk(e, peerBase, Sub32(e.p.nxt, e.p.una));
    forall k | k in Packets(e', segs)
      ensures PacketOk(k, e.base, e.sent, peerBase, e.rcv)
    {
      var s :| s in segs && k == Placed(e', s);
      assert Placed(e', s) == Placed(e, s);
    }
  }

  lemma PacketsOk(e: End, segs: seq<Segment>, peerBase: nat)
    requires PcbOk(e.p) && SegsOk(e, segs, peerBase)
    ensures forall k | k in Packets(e, segs) :: PacketOk(k, e.base, e.sent, peerBase, e.rcv)
  {
  }

  lemma SendKept(e: End, f: End, data: Block)
    requires EndOk(e, f.base) && StreamOk(f, e) && StreamOk(e, f)
    ensures var (e', ks) := SendEnd(e, data); Kept(e, f, e', ks)
  {
    var (p, segs, rc) := Tcp.Send(e.p, data);
    if rc > 0 {
      var e1 := e.(p := e.p.(tx := e.p.tx + data), sent := e.sent + data);
      assert e1.p.tx == e1.sent[e1.una..];
      FireEndOk(e1, f.base);
    }
  }

  lemma RecvKept(e: End, f: End, len: nat)
    requires EndOk(e, f.base) && StreamOk(f, e) && StreamOk(e, f)
    ensures var (e', ks) := RecvEnd(e, len); Kept(e, f, e', ks)
  {
    var (e', ks) := RecvEnd(e, len);
    var n := Min(|e.p.rx|, len);
    assert e.got + e.p.rx[..n] + e.p.rx[n..] == e.got + e.p.rx;
    AckOk(e', f.base);
    PacketsOk(e', [Ack(e'.p)], f.base);
  }

  lemma TickKept(e: End, f: End)
    requires EndOk(e, f.base) && StreamOk(f, e) && StreamOk(e, f)
    ensures var (e', ks) := TickEnd(e); Kept(e, f, e', ks)
  {
    ResendSegsOk(e, f.base, 0);
    PacketsOk(e, Resend(e.p), f.base);
  }

  /** An acknowledgement up to place c, not ahead of `snd_nxt`. */
  lemma AckKept(e: End, f: End, c: nat)
    requires EndOk(e, f.base) && StreamOk(f, e) && StreamOk(e, f) && c <= f.rcv && Nxt(e) < c + U31
    requires !SeqLt(e.p.nxt, Wire(e.base, c))
    ensures var (e', ks) := AckEnd(e, Wire(e.base, c)); Kept(e, f, e', ks)
  {
    AckOk(e, f.base);
    SeqLtIsBefore(e.base, Nxt(e), c);
    SeqLtIsBefore(e.base, e.una, c);
    if e.una < c {
      WireSub(e.base, e.una, c);
      var d := c - e.una;
      var e1 := e.(p := e.p.(una := Wire(e.base, c), tx := e.p.tx[d..]), una := c);
      assert e1.p.tx == e1.sent[e1.una..];
      WireSub(e.base, c, Nxt(e));
      FireEndOk(e1, f.base);
    }
  }

  /** The bytes of a segment that continue the peer's stream at e.rcv. */
  lemma DataTaken(e: End, f: End, s: Segment, at: nat)
    requires EndOk(e, f.base) && StreamOk(f, e) && StreamOk(e, f)
    requires s.seq_ == Wire(f.base, at) && at + |s.data| <= |f.sent| && s.data == f.sent[at..at + |s.data|]
    requires at <= e.rcv < at + |s.data| && s.data != []
    ensures var n := Min(at + |s.data| - e.rcv, RCV_BUF - |e.p.rx|);
            var past := e.rcv - at;
            && Add32(e.p.rcv, n) == Wire(f.base, e.rcv + n) && Sub32(Add32(e.p.rcv, n), e.p.rcv) == n
            && e.got + (e.p.rx + s.data[past..past + n]) == f.sent[..e.rcv + n]
  {
    hide Wire, Add32, Sub32;
    var n := Min(at + |s.data| - e.rcv, RCV_BUF - |e.p.rx|);
    var past := e.rcv - at;
    WireAdd(f.base, e.rcv, n);
    WireSub(f.base, e.rcv, e.rcv + n);
    SliceOfSlice(f.sent, at, |s.data|, past, n);
    assert e.got + (e.p.rx + s.data[past..past + n]) == e.got + e.p.rx + s.data[past..past + n];
    assert f.sent[..e.rcv] + f.sent[e.rcv..e.rcv + n] == f.sent[..e.rcv + n];
  }

  lemma SliceOfSlice(b: Block, at: nat, len: nat, past: nat, n: nat)
    requires at + len <= |b| && past + n <= len
    ensures b[at..at + len][past..past + n] == b[at + past..at + past + n]
  {
    var c, d := b[at..at + len][past..past + n], b[at + past..at + past + n];
    forall k | 0 <= k < n ensures c[k] == d[k] {
      assert c[k] == b[at..at + len][past + k];
    }
  }

  lemma ContinuesIff(b: Block, r: nat, part: Block)
    requires r <= |b|
    ensures b[..r] + part <= b <==> r + |part| <= |b| && part == b[r..r + |part|]
  {
    var c := b[..r] + part;
    if c <= b {
      forall k | 0 <= k < |part| ensures part[k] == b[r + k] {
        assert c[r + k] == part[k];
      }
    }
  }

  /** The comparisons `tcp_input_established` makes, in terms of places. */
  lemma DataPlaces(e: End, f: End, s: Segment, at: nat)
    requires EndOk(e, f.base) && s.seq_ == Wire(f.base, at) && at < e.rcv + U31 && e.rcv < at + U31
    ensures var past := if SeqLt(s.seq_, e.p.rcv) then Sub32(e.p.rcv, s.seq_) else 0;
            && past == (if at < e.rcv then e.rcv - at else 0)
            && (Add32(s.seq_, past) == e.p.rcv <==> at <= e.rcv)
  {
    SeqLtIsBefore(f.base, at, e.rcv);
    if at < e.rcv {
      WireSub(f.base, at, e.rcv);
    } else {
      WireSub(f.base, e.rcv, at);
    }
  }

  lemma NoDistance(x: nat)
    requires x < U32
    ensures Sub32(x, x) == 0
  {
  }

  /** A segment whose data is the peer's stream at place at. */
  lemma DataKept(e: End, f: End, s: Segment, at: nat)
    requires EndOk(e, f.base) && StreamOk(f, e) && StreamOk(e, f)
    requires s.seq_ == Wire(f.base, at) && at + |s.data| <= |f.sent| && s.data == f.sent[at..at + |s.data|]
    requires at < e.rcv + U31 && e.rcv < at + U31
    ensures var (e', ks) := DataEnd(e, s); Kept(e, f, e', ks)
  {
    hide Wire, PacketOk, SegsOk, SeqLt, Placed, Add32, Sub32, Advertised;
    var (e', ks) := DataEnd(e, s);
    NoDistance(e.p.rcv);
    if s.data != [] {
      DataPlaces(e, f, s, at);
      if at <= e.rcv < at + |s.data| {
        DataTaken(e, f, s, at);
      }
      AckOk(e', f.base);
      PacketsOk(e', [Ack(e'.p)], f.base);
    }
  }

  /** A packet delivered. */
  lemma InputKept(e: End, f: End, k: Packet)
    requires EndOk(e, f.base) && StreamOk(f, e) && StreamOk(e, f)
    requires PacketOk(k, f.base, f.sent, e.base, f.rcv) && Young(e, k)
    ensures var (e', ks) := InputEnd(e, k.seg); Kept(e, f, e', ks)
  {
    hide Wire, TakeAck, TakeData;
    var s := k.seg;
    var e0 := e.(p := e.p.(wnd := if s.wnd != 0 then s.wnd else MSS));
    assert EndOk(e0, f.base) && StreamOk(f, e0) && StreamOk(e0, f);
    if SeqLt(e0.p.nxt, s.ack) {
      AckOk(e0, f.base);
      PacketsOk(e0, [Ack(e0.p)], f.base);
    } else {
      AckKept(e0, f, k.ack);
      var (e1, k1) := AckEnd(e0, s.ack);
      assert e1.rcv == e.rcv && StreamOk(e1, f);
      DataKept(e1, f, s, k.at);
      var (e2, k2) := DataEnd(e1, s);
      assert e2.sent == e1.sent;
      forall k' | k' in k1
        ensures PacketOk(k', e2.base, e2.sent, f.base, e2.rcv)
      {
        assert PacketOk(k', e1.base, e1.sent, f.base, e1.rcv);
      }
    }
  }

  lemma ActKept(w: World, x: Action)
    requires Inv(w) && Enabled(w, x)
    ensures var (e', ks) := ActEnd(w.a, x); Kept(w.a, w.b, e', ks)
  {
    hide Wire;
    match x
    case Write(data) => SendKept(w.a, w.b, data);
    case Read(len) => RecvKept(w.a, w.b, len);
    case Tick => TickKept(w.a, w.b);
    case Deliver(k) =>
      assert PacketOk(k, Flip(w).a.base, Flip(w).a.sent, Flip(w).b.base, Flip(w).a.rcv);
      InputKept(w.a, w.b, k);
  }

  lemma PacketLater(k: Packet, base: nat, sent: Block, sent': Block, peerBase: nat, rcv: nat, rcv': nat)
    requires PacketOk(k, base, sent, peerBase, rcv) && sent <= sent' && rcv <= rcv'
    ensures PacketOk(k, base, sent', peerBase, rcv')
  {
    assert sent'[k.at..k.at + |k.seg.data|] == sent[k.at..k.at + |k.seg.data|];
  }

  /** Every action of either endpoint keeps the invariant. */
  lemma ActKeepsInv(w: World, x: Action)
    requires Inv(w) && Enabled(w, x)
    ensures Inv(Act(w, x))
  {
    ActKept(w, x);
    hide ActEnd, PacketOk, Wire;
    var w' := Act(w, x);
    var e, e', f := w.a, w'.a, w.b;
    assert f.got + f.p.rx == e.sent[..f.rcv] == e'.sent[..f.rcv];
    forall k | k in w'.ab
      ensures PacketOk(k, e'.base, e'.sent, f.base, e'.rcv)
    {
      if k in w.ab {
        PacketLater(k, e.base, e.sent, e'.sent, f.base, e.rcv, e'.rcv);
      }
    }
    assert Flip(w').ab == Flip(w).ab;
    forall k | k in Flip(w').ab
      ensures PacketOk(k, f.base, f.sent, e'.base, f.rcv)
    {
      assert PacketOk(k, Flip(w).a.base, Flip(w).a.sent, Flip(w).b.base, Flip(w).a.rcv);
    }
  }

  // ----- runs

  /** A run: who acts and how. */
  type Run = seq<(bool, Action)>

  ghost predicate RunsTo(w: World, r: Run, w': World)
    decreases r
  {
    if r == [] then w' == w
    else
      var v := if r[0].0 then w else Flip(w);
      Enabled(v, r[0].1) && RunsTo(if r[0].0 then Act(v, r[0].1) else Flip(Act(v, r[0].1)), r[1..], w')
  }

  /** Both ends established: a handshake has agreed on the bases, nothing is sent yet. */
  predicate Established(w: World) {
    && w.ab == {} && w.ba == {}
    && w.a.p == Pcb(Wire(w.a.base, 0), Wire(w.a.base, 0), Wire(w.b.base, 0), w.a.p.wnd, [], [])
    && w.b.p == Pcb(Wire(w.b.base, 0), Wire(w.b.base, 0), Wire(w.a.base, 0), w.b.p.wnd, [], [])
    && w.a.p.wnd < U16 && w.b.p.wnd < U16
    && w.a.sent == w.b.sent == w.a.got == w.b.got == []
    && w.a.una == w.b.una == w.a.rcv == w.b.rcv == 0
  }

  lemma {:induction false} RunKeepsInv(w: World, r: Run, w': World)
    requires Inv(w) && RunsTo(w, r, w')
    ensures Inv(w')
    decreases r
  {
    if r != [] {
      var v := if r[0].0 then w else Flip(w);
      assert Flip(Flip(w)) == w;
      ActKeepsInv(v, r[0].1);
      var u := Act(v, r[0].1);
      assert Flip(Flip(u)) == u;
      RunKeepsInv(if r[0].0 then u else Flip(u), r[1..], w');
    }
  }

  /** In every reachable state, for both directions: the bytes read followed by the bytes in the
      ring are a prefix of the bytes the peer's send calls accepted. */
  lemma StreamPrefix(w: World, r: Run, w': World)
    requires Established(w) && RunsTo(w, r, w')
    ensures w'.b.got + w'.b.p.rx <= w'.a.sent
    ensures w'.a.got + w'.a.p.rx <= w'.b.sent
  {
    assert HalfOk(w) && HalfOk(Flip(w));
    RunKeepsInv(w, r, w');
    assert StreamOk(w'.a, w'.b) && StreamOk(Flip(w').a, Flip(w').b);
  }

  /** In every reachable state every packet ever sent carries the stream's bytes at its sequence
      number, and `snd_una`, `snd_nxt` and `snd_una + tx_len` are in this order. */
  lemma PacketsCarryStream(w: World, r: Run, w': World, k: Packet)
    requires Established(w) && RunsTo(w, r, w') && k in w'.ab
    ensures k.seg.seq_ == Wire(w'.a.base, k.at) && k.at + |k.seg.data| <= |w'.a.sent|
    ensures k.seg.data == w'.a.sent[k.at..k.at + |k.seg.data|]
    ensures PcbOk(w'.a.p) && w'.a.una <= Nxt(w'.a) <= w'.a.una + |w'.a.p.tx| == |w'.a.sent|
    ensures w'.a.p.una == Wire(w'.a.base, w'.a.una) && w'.a.p.nxt == Wire(w'.a.base, Nxt(w'.a))
  {
    assert HalfOk(w) && HalfOk(Flip(w));
    RunKeepsInv(w, r, w');
    assert PacketOk(k, w'.a.base, w'.a.sent, w'.b.base, w'.a.rcv);
    AckOk(w'.a, w'.b.base);
  }

  /** The age bound is needed. Of a segment of any age, data is taken exactly when its age modulo 2^32 is
      less than its length and there is room. What is taken then continues the stream if and only if the
      stream happens to repeat itself there, as it trivially does below 2^32. */
  lemma StaleTakenIff(e: End, f: End, s: Segment, at: nat)
    requires EndOk(e, f.base) && at <= e.rcv && |s.data| <= U31
    requires s.seq_ == Wire(f.base, at) && at + |s.data| <= |f.sent| && s.data == f.sent[at..at + |s.data|]
    requires e.rcv <= |f.sent| && e.got + e.p.rx == f.sent[..e.rcv]
    ensures var x := (e.rcv - at) % U32;
            var e' := DataEnd(e, s).0;
            if x < |s.data| && |e.p.rx| < RCV_BUF
            then
              var n := Min(|s.data| - x, RCV_BUF - |e.p.rx|);
              && n > 0 && e'.p.rx == e.p.rx + f.sent[at + x..at + x + n]
              && (e'.got + e'.p.rx <= f.sent <==>
                  e.rcv + n <= |f.sent| && f.sent[at + x..at + x + n] == f.sent[e.rcv..e.rcv + n])
            else e'.p.rx == e.p.rx
  {
    hide DataEnd, Sub32, Add32, EndOk, Wire;
    AgeOnWire(f.base, at, e.rcv);
    EndWords(e, f.base);
    TakenFrom(e, f.sent, s, at, (e.rcv - at) % U32);
  }

  lemma EndWords(e: End, base: nat)
    requires EndOk(e, base)
    ensures PcbOk(e.p) && e.p.rcv == Wire(base, e.rcv)
  {
  }

  lemma TakenFrom(e: End, sent: Block, s: Segment, at: nat, x: nat)
    requires PcbOk(e.p) && s.seq_ < U32 && |s.data| <= U31 && Sub32(e.p.rcv, s.seq_) == x
    requires at + |s.data| <= |sent| && s.data == sent[at..at + |s.data|]
    requires e.rcv <= |sent| && e.got + e.p.rx == sent[..e.rcv]
    ensures var e' := DataEnd(e, s).0;
            if x < |s.data| && |e.p.rx| < RCV_BUF
            then
              var n := Min(|s.data| - x, RCV_BUF - |e.p.rx|);
              && n > 0 && e'.p.rx == e.p.rx + sent[at + x..at + x + n]
              && (e'.got + e'.p.rx <= sent <==>
                  e.rcv + n <= |sent| && sent[at + x..at + x + n] == sent[e.rcv..e.rcv + n])
            else e'.p.rx == e.p.rx
  {
    hide TakeData, DataEnd, Sub32, PcbOk, Add32, SeqLt;
    TakenIff(e.p, s);
    DataEndRx(e, s);
    if x < |s.data| && |e.p.rx| < RCV_BUF {
      var n := Min(|s.data| - x, RCV_BUF - |e.p.rx|);
      var part := sent[at + x..at + x + n];
      SliceOfSlice(sent, at, |s.data|, x, n);
      Regroup(e.got, e.p.rx, part);
      ContinuesIff(sent, e.rcv, part);
    }
  }

  lemma DataEndRx(e: End, s: Segment)
    requires PcbOk(e.p) && s.seq_ < U32
    ensures DataEnd(e, s).0.p.rx == TakeData(e.p, s).0.rx && DataEnd(e, s).0.got == e.got
  {
    hide TakeData, Packets;
  }

  lemma Regroup(a: Block, b: Block, c: Block)
    ensures a + (b + c) == (a + b) + c
  {
  }

  /** The distance of two places as the 32-bit difference of their sequence numbers. */
  lemma AgeOnWire(base: nat, at: nat, rcv: nat)
    requires at <= rcv
    ensures Sub32(Wire(base, rcv), Wire(base, at)) == (rcv - at) % U32
  {
    var x, q := (rcv - at) % U32, (rcv - at) / U32;
    assert rcv == at + x + q * U32;
    assert Wire(base, rcv) == Wire(base, at + x);
    WireSub(base, at, at + x);
  }
}
