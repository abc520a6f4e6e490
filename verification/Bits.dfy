/** Single bits of naturals and of byte sequences, under the masks the drivers use. */
module Bits {
  import opened Words
  import opened Bytes

  /** Bit k of a, least significant first. */
  predicate Bit(a: nat, k: nat) {
    if k == 0 then a % 2 == 1 else Bit(a / 2, k - 1)
  }

  /** `a & b`. */
  function BitAnd(a: nat, b: nat): (r: nat)
    ensures r <= a && r <= b
  {
    if a == 0 || b == 0 then 0
    else 2 * BitAnd(a / 2, b / 2) + (if a % 2 == 1 && b % 2 == 1 then 1 else 0)
  }

  /** `a & ~b`. */
  function BitClear(a: nat, b: nat): (r: nat)
    ensures r <= a
  {
    if a == 0 then 0
    else 2 * BitClear(a / 2, b / 2) + (if a % 2 == 1 && b % 2 == 0 then 1 else 0)
  }

  lemma {:induction false} ZeroBits(k: nat)
    ensures !Bit(0, k)
  {
    if k > 0 {
      ZeroBits(k - 1);
    }
  }

  lemma {:induction false} OrBit(a: nat, b: nat, k: nat)
    ensures Bit(BitOr(a, b), k) <==> Bit(a, k) || Bit(b, k)
    decreases a + b
  {
    ZeroBits(k);
    if a != 0 && b != 0 && k > 0 {
      OrBit(a / 2, b / 2, k - 1);
    }
  }

  lemma {:induction false} ClearBit(a: nat, b: nat, k: nat)
    ensures Bit(BitClear(a, b), k) <==> Bit(a, k) && !Bit(b, k)
    decreases a
  {
    ZeroBits(k);
    if a != 0 && k > 0 {
      ClearBit(a / 2, b / 2, k - 1);
    }
  }

  lemma {:induction false} AndBit(a: nat, b: nat, k: nat)
    ensures Bit(BitAnd(a, b), k) <==> Bit(a, k) && Bit(b, k)
    decreases a
  {
    ZeroBits(k);
    if a != 0 && b != 0 && k > 0 {
      AndBit(a / 2, b / 2, k - 1);
    }
  }

  /** The n low bits of a word of ones, `(1 << n) - 1`. */
  lemma {:induction false} OnesBit(n: nat, k: nat)
    ensures Bit(Pow2(n) - 1, k) <==> k < n
  {
    if n == 0 {
      ZeroBits(k);
    } else if k > 0 {
      assert (Pow2(n) - 1) / 2 == Pow2(n - 1) - 1;
      OnesBit(n - 1, k - 1);
    }
  }

  /** Subtracting from all ones is the complement. */
  lemma {:induction false} NotBit(n: nat, a: nat, k: nat)
    requires a < Pow2(n)
    ensures Bit(Pow2(n) - 1 - a, k) <==> k < n && !Bit(a, k)
  {
    if n == 0 {
      ZeroBits(k);
    } else {
      assert a / 2 < Pow2(n - 1);
      assert (Pow2(n) - 1 - a) / 2 == Pow2(n - 1) - 1 - a / 2;
      if k > 0 {
        NotBit(n - 1, a / 2, k - 1);
      }
    }
  }

  /** The top bit of a value of n + 1 bits. */
  lemma {:induction false} TopBit(a: nat, n: nat)
    requires a < Pow2(n + 1)
    ensures Bit(a, n) <==> a >= Pow2(n)
  {
    if n > 0 {
      TopBit(a / 2, n - 1);
    }
  }

  /** The mask `1 << k` has bit k and no other. */
  lemma {:induction false} MaskBit(k: nat, j: nat)
    ensures Bit(Pow2(k), j) <==> j == k
  {
    if k == 0 {
      if j > 0 {
        ZeroBits(j - 1);
      }
    } else if j > 0 {
      assert Pow2(k) / 2 == Pow2(k - 1);
      MaskBit(k - 1, j - 1);
    }
  }

  /** `a & (1 << k)` is non-zero exactly when bit k of a is set. */
  lemma {:induction false} TestBit(a: nat, k: nat)
    ensures BitAnd(a, Pow2(k)) != 0 <==> Bit(a, k)
    decreases k
  {
    if a == 0 {
      ZeroBits(k);
    } else if k > 0 {
      assert Pow2(k) / 2 == Pow2(k - 1);
      TestBit(a / 2, k - 1);
    } else {
      assert BitAnd(a / 2, 0) == 0;
    }
  }

  /** "Or" stays within the width of its operands. */
  lemma {:induction false} OrBound(a: nat, b: nat, n: nat)
    requires a < Pow2(n) && b < Pow2(n)
    ensures BitOr(a, b) < Pow2(n)
    decreases a + b
  {
    if a != 0 && b != 0 {
      OrBound(a / 2, b / 2, n - 1);
    }
  }

  lemma MaskIsByte(k: nat)
    requires k < 8
    ensures Pow2(k) < 256 && Pow2(8) == 256
  {
    assert Pow2(4) == 16 && Pow2(8) == 256 by {
      assert Pow2(6) == 64;
    }
    if k > 4 {
      assert Pow2(5) == 32 && Pow2(6) == 64 && Pow2(7) == 128;
    }
  }

  /** Setting a clear bit and clearing it again restores the value. */
  lemma {:induction false} OrThenClear(a: nat, k: nat)
    requires !Bit(a, k)
    ensures BitClear(BitOr(a, Pow2(k)), Pow2(k)) == a
    decreases k
  {
    hide BitOr, BitClear;
    OrStep(a, Pow2(k));
    ClearStep(BitOr(a, Pow2(k)), Pow2(k));
    if k == 0 {
      OrZero(a / 2);
      ClearNothing(a / 2);
    } else {
      assert Pow2(k) / 2 == Pow2(k - 1) && Pow2(k) % 2 == 0;
      OrThenClear(a / 2, k - 1);
    }
  }

  lemma ClearStep(a: nat, b: nat)
    ensures BitClear(a, b) == 2 * BitClear(a / 2, b / 2) + (if a % 2 == 1 && b % 2 == 0 then 1 else 0)
  {
  }

  lemma {:induction false} ClearNothing(a: nat)
    ensures BitClear(a, 0) == a
  {
    if a != 0 {
      ClearNothing(a / 2);
    }
  }

  // ----- bitmaps, least significant bit first

  /** Bit i of a bitmap. */
  predicate Flag(bm: Block, i: nat)
    requires i < 8 * |bm|
  {
    Bit(bm[i / 8], i % 8)
  }

  /** The first n bits as booleans. */
  function Flags(bm: Block, n: nat): (f: seq<bool>)
    requires n <= 8 * |bm|
    ensures |f| == n
  {
    seq(n, i requires 0 <= i < n => Flag(bm, i))
  }

  /** `bm[i >> 3] | (1 << (i & 7))`. */
  function WithBit(b: Byte, k: nat): (r: Byte)
    requires k < 8
    ensures forall j: nat {:trigger Bit(r, j)} :: Bit(r, j) <==> j == k || Bit(b, j)
  {
    var r := BitOr(b, Pow2(k));
    assert r < 256 by {
      MaskIsByte(k);
      OrBound(b, Pow2(k), 8);
    }
    assert forall j: nat {:trigger Bit(r, j)} :: Bit(r, j) <==> j == k || Bit(b, j) by {
      forall j: nat ensures Bit(r, j) <==> j == k || Bit(b, j) {
        OrBit(b, Pow2(k), j);
        MaskBit(k, j);
      }
    }
    r
  }

  /** `bm[i >> 3] & ~(1 << (i & 7))`. */
  function WithoutBit(b: Byte, k: nat): (r: Byte)
    requires k < 8
    ensures forall j: nat {:trigger Bit(r, j)} :: Bit(r, j) <==> j != k && Bit(b, j)
  {
    var r := BitClear(b, Pow2(k));
    assert forall j: nat {:trigger Bit(r, j)} :: Bit(r, j) <==> j != k && Bit(b, j) by {
      forall j: nat ensures Bit(r, j) <==> j != k && Bit(b, j) {
        ClearBit(b, Pow2(k), j);
        MaskBit(k, j);
      }
    }
    r
  }

  /** Setting bit i of the bitmap changes that flag only. */
  lemma SetFlag(bm: Block, i: nat, n: nat)
    requires i < n <= 8 * |bm|
    ensures Flags(bm[i / 8 := WithBit(bm[i / 8], i % 8)], n) == Flags(bm, n)[i := true]
  {
  }

  /** Clearing likewise. */
  lemma DropFlag(bm: Block, i: nat, n: nat)
    requires i < n <= 8 * |bm|
    ensures Flags(bm[i / 8 := WithoutBit(bm[i / 8], i % 8)], n) == Flags(bm, n)[i := false]
  {
  }

  /** The bitmap block with bit i set or cleared. */
  function BitmapBytes(bm: Block, i: nat, used: bool): (r: Block)
    requires i < 8 * |bm|
    ensures |r| == |bm|
  {
    bm[i / 8 := if used then WithBit(bm[i / 8], i % 8) else WithoutBit(bm[i / 8], i % 8)]
  }

  // ----- counting

  /** Clear flags. */
  function Clear(f: seq<bool>): (n: nat)
    ensures n <= |f|
  {
    if f == [] then 0 else (if f[|f| - 1] then 0 else 1) + Clear(f[..|f| - 1])
  }

  /** Setting a clear flag takes one from the count; the reverse gives it back. */
  lemma {:induction false} ClearSet(f: seq<bool>, i: nat)
    requires i < |f| && !f[i]
    ensures Clear(f[i := true]) == Clear(f) - 1
  {
    var n := |f| - 1;
    if i < n {
      assert f[i := true][..n] == f[..n][i := true];
      ClearSet(f[..n], i);
    } else {
      assert f[i := true][..n] == f[..n];
    }
  }

  /** A positive count is a clear flag. */
  lemma {:induction false} ClearNone(f: seq<bool>)
    ensures Clear(f) == 0 <==> forall i | 0 <= i < |f| :: f[i]
  {
    if f != [] {
      var n := |f| - 1;
      ClearNone(f[..n]);
      if Clear(f) == 0 {
        forall i | 0 <= i < |f| ensures f[i] {
          assert i < n ==> f[i] == f[..n][i];
        }
      } else if f[n] {
        var i :| 0 <= i < n && !f[..n][i];
        assert !f[i];
      }
    }
  }
}
