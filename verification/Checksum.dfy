/** The Internet checksum of section 1 of RFC 1071, as the IP and TCP drivers compute it, fill it in
    and test it (drivers/net/ip.c:23-46, 73-91, drivers/net/tcp.c:29-50, 92-113, 470-472). */
module Checksum {
  import opened Words
  import opened Bytes
  import opened Memory

  const ONES := 0xFFFF
  const IP_HEADER := 20
  const TCP_HEADER := 20

  /** The sum of the big-endian 16-bit words; an odd last byte is the high half of a word. */
  function WordSum(b: Block): nat {
    if b == [] then 0
    else if |b| == 1 then 256 * b[0]
    else 256 * b[0] + b[1] + WordSum(b[2..])
  }

  function WordCount(b: Block): nat { (|b| + 1) / 2 }

  lemma {:induction false} SumBound(b: Block)
    ensures WordSum(b) <= ONES * WordCount(b)
    decreases |b|
  {
    if |b| > 1 {
      SumBound(b[2..]);
    }
  }

  /** `while (sum >> 16) sum = (uint16_t)sum + (sum >> 16)`. */
  function Fold(s: nat): nat
    decreases s
  {
    if s < U16 then s else Fold(s % U16 + s / U16)
  }

  /** Folding keeps the value modulo 65535, ends below 65536, and is 0 only for 0. */
  lemma {:induction false} FoldIs(s: nat)
    ensures Fold(s) <= ONES && Fold(s) % ONES == s % ONES && (Fold(s) == 0 <==> s == 0)
    decreases s
  {
    if s >= U16 {
      var t := s % U16 + s / U16;
      assert s == t + ONES * (s / U16);
      ModAdd(t, s / U16);
      FoldIs(t);
    }
  }

  lemma {:induction false} ModAdd(x: nat, k: nat)
    ensures (x + ONES * k) % ONES == x % ONES
  {
    if k > 0 {
      ModAdd(x, k - 1);
      assert x + ONES * k == (x + ONES * (k - 1)) + ONES;
    }
  }

  /** The checksum of data on top of a partial sum: the complement of the folded sum. */
  function Csum(base: nat, b: Block): (c: nat)
    ensures c <= ONES
  {
    FoldIs(base + WordSum(b));
    ONES - Fold(base + WordSum(b))
  }

  /** The checksum is 0 exactly when the sum is a positive multiple of 65535. */
  lemma PassesIff(base: nat, b: Block)
    ensures Csum(base, b) == 0 <==> (base + WordSum(b)) % ONES == 0 && base + WordSum(b) > 0
  {
    FoldIs(base + WordSum(b));
  }

  /** A 16-bit word stored at an even offset. */
  function PutWord(b: Block, o: nat, w: nat): (r: Block)
    requires o + 2 <= |b| && w <= ONES
    ensures |r| == |b|
  {
    b[o := w / 256][o + 1 := w % 256]
  }

  lemma {:induction false} PutWordSum(b: Block, o: nat, w: nat)
    requires o + 2 <= |b| && w <= ONES && o % 2 == 0
    ensures WordSum(PutWord(b, o, w)) == WordSum(b) - Be16(b, o) + w
    ensures Be16(b, o) <= WordSum(b)
    decreases |b|
  {
    var r := PutWord(b, o, w);
    if o == 0 {
      assert r[2..] == b[2..];
    } else {
      assert r[2..] == PutWord(b[2..], o - 2, w);
      PutWordSum(b[2..], o - 2, w);
    }
  }

  /** Filling the zeroed field with the checksum makes the receiver's checksum 0, for data of any
      length, even or odd, and any pseudo-header. */
  lemma FilledPasses(base: nat, b: Block, o: nat)
    requires o + 2 <= |b| && o % 2 == 0 && Be16(b, o) == 0
    ensures Csum(base, PutWord(b, o, Csum(base, b))) == 0
  {
    hide Fold, WordSum, PutWord, Be16;
    var s, c := base + WordSum(b), Csum(base, b);
    PutWordSum(b, o, c);
    FoldIs(s);
    Complement(s, Fold(s));
    PassesIff(base, PutWord(b, o, c));
  }

  lemma Complement(s: nat, f: nat)
    requires f <= ONES && f % ONES == s % ONES && (f == 0 <==> s == 0)
    ensures (s + (ONES - f)) % ONES == 0 && s + (ONES - f) > 0
  {
    var q := s / ONES;
    if f == ONES {
      assert s == q * ONES;
    } else {
      assert s + (ONES - f) == (q + 1) * ONES;
      ModAdd(0, q + 1);
    }
  }

  /** A packet that passes, with one word altered, still passes if and only if the word went from
      0000 to FFFF or back and the sum is not thereby zero. */
  lemma AlteredPassesIff(base: nat, b: Block, o: nat, w: nat)
    requires o + 2 <= |b| && o % 2 == 0 && w <= ONES && w != Be16(b, o) && Csum(base, b) == 0
    ensures Csum(base, PutWord(b, o, w)) == 0 <==>
              (w == ONES && Be16(b, o) == 0) || (w == 0 && Be16(b, o) == ONES && base + WordSum(b) > ONES)
  {
    hide Csum, WordSum, PutWord, Be16;
    PutWordSum(b, o, w);
    PassesIff(base, b);
    PassesIff(base, PutWord(b, o, w));
    SameResidue(base + WordSum(b), Be16(b, o), w);
  }

  lemma SameResidue(s: nat, x: nat, w: nat)
    requires s % ONES == 0 && s > 0 && x <= ONES && w <= ONES && w != x && x <= s
    ensures (s - x + w) % ONES == 0 && s - x + w > 0 <==> (w == ONES && x == 0) || (w == 0 && x == ONES && s > ONES)
  {
    var q := s / ONES;
    assert s == q * ONES;
    var d := w - x;
    if 0 < d < ONES {
      assert s - x + w == q * ONES + d;
      ModAdd(d, q);
    } else if -ONES < d < 0 {
      assert s - x + w == (q - 1) * ONES + (ONES + d);
      ModAdd(ONES + d, q - 1);
    } else if d == ONES {
      ModAdd(0, q + 1);
    } else {
      ModAdd(0, q - 1);
    }
  }

  /** The weight of byte i: the high or the low half of its word. */
  function Weight(i: nat): nat { if i % 2 == 0 then 256 else 1 }

  /** Every byte counts with its weight, an odd last one included. */
  lemma {:induction false} ByteSum(b: Block, i: nat, x: Byte)
    requires i < |b|
    ensures WordSum(b[i := x]) == WordSum(b) + Weight(i) * (x - b[i])
    decreases |b|
  {
    if i < 2 {
      assert |b| > 1 ==> b[i := x][2..] == b[2..];
    } else {
      assert b[i := x][2..] == b[2..][i - 2 := x];
      ByteSum(b[2..], i - 2, x);
    }
  }

  /** A packet of any length that passes, with any one byte altered, does not pass. */
  lemma AlteredByteFails(base: nat, b: Block, i: nat, x: Byte)
    requires i < |b| && x != b[i] && Csum(base, b) == 0
    ensures Csum(base, b[i := x]) != 0
  {
    hide Csum, WordSum;
    ByteSum(b, i, x);
    PassesIff(base, b);
    PassesIff(base, b[i := x]);
    ModSmall(base + WordSum(b), Weight(i) * (x - b[i]));
  }

  lemma ModSmall(s: nat, d: int)
    requires s % ONES == 0 && -ONES < d < ONES && d != 0 && s + d >= 0
    ensures (s + d) % ONES != 0
  {
    var q := s / ONES;
    assert s == q * ONES;
    if d > 0 {
      ModAdd(d, q);
    } else {
      assert q > 0;
      assert s + d == (q - 1) * ONES + (ONES + d);
      ModAdd(ONES + d, q - 1);
    }
  }

  // ----- the code

  /** The loops of `ip_csum` and `tcp_sum`, on 32-bit sums: exact as long as the sum fits. */
  method SumWords(base: nat, data: Block) returns (c: nat)
    requires base < U32
    ensures base + ONES * WordCount(data) < U32 ==> c == Csum(base, data)
  {
    hide WordSum, Be16, Word, Fold;
    var sum: nat, p: nat, n: nat := base, 0, |data|;
    ghost var fits := base + ONES * WordCount(data) < U32;
    assert data[0..] == data;
    while n > 1
      invariant p + n == |data| && sum < U32
      invariant fits ==> sum + WordSum(data[p..]) == base + WordSum(data)
      invariant fits ==> sum + ONES * ((n + 1) / 2) < U32
    {
      NextWord(data, p);
      sum := Add32(sum, Be16(data, p));
      p, n := p + 2, n - 2;
    }
    LastWord(data, p);
    if n == 1 {
      sum := Add32(sum, Word(0, 0, data[p], 0));
    }
    assert fits ==> sum == base + WordSum(data);
    ghost var total := sum;
    while sum >= U16
      invariant sum < U32 && Fold(sum) == Fold(total)
      decreases sum
    {
      FoldStep(sum);
      sum := sum % U16 + sum / U16;
    }
    FoldStep(sum);
    c := ONES - sum;
  }

  lemma NextWord(data: Block, p: nat)
    requires p + 2 <= |data|
    ensures WordSum(data[p..]) == Be16(data, p) + WordSum(data[p + 2..])
  {
    assert data[p..][2..] == data[p + 2..];
  }

  lemma LastWord(data: Block, p: nat)
    requires |data| - 1 <= p <= |data|
    ensures p == |data| ==> WordSum(data[p..]) == 0
    ensures p + 1 == |data| ==> 0 <= Word(0, 0, data[p], 0) == WordSum(data[p..]) <= ONES
  {
  }

  lemma FoldStep(s: nat)
    ensures Fold(s) == if s < U16 then s else Fold(s % U16 + s / U16)
  {
  }

  /** `ip_csum`. */
  method IpCsum(data: Block) returns (c: nat)
    ensures WordCount(data) <= U16 + 1 ==> c == Csum(0, data)
  {
    c := SumWords(0, data);
  }

  /** The pseudo-header: both addresses, the protocol and the length. */
  function Pseudo(src: nat, dst: nat, len: nat): nat {
    src / U16 + src % U16 + dst / U16 + dst % U16 + 6 + len
  }

  /** It is the sum over the twelve bytes of section 3.1 of RFC 793: both addresses, a zero, the protocol number of
      TCP and the length. */
  lemma PseudoIs(src: nat, dst: nat, len: nat)
    requires src < U32 && dst < U32 && len < U16
    ensures Pseudo(src, dst, len) == WordSum(PutBe32(src) + PutBe32(dst) + [0, 6, len / 256, len % 256])
  {
    hide WordSum;
    var a, b, c := PutBe32(src), PutBe32(dst), [0, 6, len / 256, len % 256];
    FourBytes(a, b + c);
    FourBytes(b, c);
    FourBytes(c, []);
    assert a + b + c == a + (b + c) && c + [] == c;
    Nothing();
  }

  lemma Nothing()
    ensures WordSum([]) == 0
  {
  }

  lemma FourBytes(a: Block, c: Block)
    requires |a| == 4
    ensures WordSum(a + c) == 256 * a[0] + a[1] + 256 * a[2] + a[3] + WordSum(c)
  {
    assert (a + c)[2..] == a[2..] + c;
    assert (a[2..] + c)[2..] == c;
  }

  /** `tcp_sum`. */
  method TcpSum(seg: Block, src: nat, dst: nat) returns (c: nat)
    requires src < U32 && dst < U32 && |seg| <= U16
    ensures c == Csum(Pseudo(src, dst, |seg|), seg)
  {
    c := SumWords(Pseudo(src, dst, |seg|), seg);
  }

  /** `net_put16`. */
  method Put16(a: array<Byte>, o: nat, w: nat)
    requires o + 2 <= a.Length && w < U16
    modifies a
    ensures a[..] == PutWord(old(a[..]), o, w)
  {
    a[o] := w / 256;
    a[o + 1] := w % 256;
  }

  /** The twenty bytes `ip_output` puts in front of the data, with checksum c. */
  function Header(tot: nat, proto: Byte, src: nat, dst: nat, c: nat): (h: Block)
    requires tot < U16 && src < U32 && dst < U32 && c < U16
    ensures |h| == IP_HEADER
  {
    [0x45, 0, tot / 256, tot % 256, 0, 0, 0, 0, 64, proto, c / 256, c % 256] + PutBe32(src) + PutBe32(dst)
  }

  lemma HeaderSet(tot: nat, proto: Byte, src: nat, dst: nat, c: nat)
    requires tot < U16 && src < U32 && dst < U32 && c < U16
    ensures PutWord(Header(tot, proto, src, dst, 0), 10, c) == Header(tot, proto, src, dst, c)
  {
    hide PutBe32;
  }

  /** The header passes the test in `ip_input`. */
  lemma HeaderPasses(tot: nat, proto: Byte, src: nat, dst: nat)
    requires tot < U16 && src < U32 && dst < U32
    ensures Csum(0, Header(tot, proto, src, dst, Csum(0, Header(tot, proto, src, dst, 0)))) == 0
  {
    hide Header, Csum, PutWord, Be16;
    var h := Header(tot, proto, src, dst, 0);
    FieldZero(tot, proto, src, dst);
    FilledPasses(0, h, 10);
    HeaderSet(tot, proto, src, dst, Csum(0, h));
  }

  lemma FieldZero(tot: nat, proto: Byte, src: nat, dst: nat)
    requires tot < U16 && src < U32 && dst < U32
    ensures Be16(Header(tot, proto, src, dst, 0), 10) == 0
  {
    hide PutBe32;
  }

  /** It says what `ip_output` was asked for. */
  lemma HeaderReads(tot: nat, proto: Byte, src: nat, dst: nat, c: nat)
    requires tot < U16 && src < U32 && dst < U32 && c < U16
    ensures var h := Header(tot, proto, src, dst, c);
            h[0] == 0x45 && h[8] == 64 && h[9] == proto && Be16(h, 2) == tot && Be32(h, 12) == src && Be32(h, 16) == dst
  {
    var pre := [0x45, 0, tot / 256, tot % 256, 0, 0, 0, 0, 64, proto, c / 256, c % 256];
    Be32At(pre, src, PutBe32(dst));
    Be32At(pre + PutBe32(src), dst, []);
    hide PutBe32, Be32;
    var h := Header(tot, proto, src, dst, c);
    assert h == pre + PutBe32(src) + PutBe32(dst) == (pre + PutBe32(src)) + PutBe32(dst) + [];
  }

  lemma HeaderIs(h: Block, tot: nat, proto: Byte, src: nat, dst: nat)
    requires tot < U16 && src < U32 && dst < U32 && |h| == IP_HEADER
    requires h[..12] == [0x45, 0, tot / 256, tot % 256, 0, 0, 0, 0, 64, proto, 0, 0] && h[12..16] == PutBe32(src)
             && h[16..20] == PutBe32(dst)
    ensures h == Header(tot, proto, src, dst, 0)
  {
    hide PutBe32;
    assert h == h[..12] + h[12..16] + h[16..20];
  }

  /** The header as `ip_output` stores it, field by field, the checksum last. */
  method IpHeader(tot: nat, proto: Byte, src: nat, dst: nat) returns (pkt: array<Byte>)
    requires tot < U16 && src < U32 && dst < U32
    ensures fresh(pkt) && pkt[..] == Header(tot, proto, src, dst, Csum(0, Header(tot, proto, src, dst, 0)))
    ensures Csum(0, pkt[..]) == 0
    ensures pkt[0] == 0x45 && pkt[8] == 64 && pkt[9] == proto && Be16(pkt[..], 2) == tot && Be32(pkt[..], 12) == src
            && Be32(pkt[..], 16) == dst
  {
    hide PutBe32, Be32, Be16, Csum, Header, PutWord;
    pkt := new Byte[IP_HEADER](_ => 0);
    Copy(pkt, 0, [0x45, 0, tot / 256, tot % 256, 0, 0, 0, 0, 64, proto, 0, 0]);
    ghost var first := pkt[..12];
    Copy(pkt, 12, PutBe32(src));
    ghost var front := pkt[..16];
    assert front[..12] == first && front[12..16] == pkt[12..16];
    Copy(pkt, 16, PutBe32(dst));
    assert pkt[..12] == front[..12] && pkt[12..16] == front[12..16];
    HeaderIs(pkt[..], tot, proto, src, dst);
    var c := IpCsum(pkt[..]);
    HeaderSet(tot, proto, src, dst, c);
    HeaderPasses(tot, proto, src, dst);
    HeaderReads(tot, proto, src, dst, c);
    Put16(pkt, 10, c);
  }

  /** `tcp_emit` after the other fields are stored: the zeroed field at 16 is filled, and the segment
      passes the test in `tcp_input`, where source and destination have the same pseudo-header sum. */
  method SealSegment(seg: array<Byte>, src: nat, dst: nat)
    requires TCP_HEADER <= seg.Length <= U16 && src < U32 && dst < U32 && Be16(seg[..], 16) == 0
    modifies seg
    ensures seg[..] == PutWord(old(seg[..]), 16, Csum(Pseudo(src, dst, seg.Length), old(seg[..])))
    ensures Csum(Pseudo(src, dst, seg.Length), seg[..]) == 0 == Csum(Pseudo(dst, src, seg.Length), seg[..])
  {
    hide PutWord, Be16, Csum;
    var c := TcpSum(seg[..], src, dst);
    FilledPasses(Pseudo(src, dst, seg.Length), seg[..], 16);
    Put16(seg, 16, c);
  }
}
