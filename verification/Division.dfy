/** Positions in blocks: division, remainder and multiples of a block size. */
module Division {

  lemma MulAtLeast(k: int, p: int)
    ensures k >= 1 && p >= 0 ==> k * p >= p
  {
  }

  lemma MulSmall(k: int, p: int)
    requires -p < k * p < p
    ensures k == 0
  {
    MulAtLeast(k, p);
    MulAtLeast(-k, p);
  }

  lemma DivModIs(g: nat, p: nat, i: nat)
    requires i < p
    ensures (g * p + i) / p == g && (g * p + i) % p == i
  {
    var x := g * p + i;
    assert (x / p - g) * p == i - x % p;
    MulSmall(x / p - g, p);
  }

  lemma DivBelow(m: nat, p: nat, g: nat)
    requires p > 0 && (g + 1) * p <= m
    ensures g < m / p
  {
    var q := m / p;
    assert m < (q + 1) * p;
    assert (q - g) * p > 0;
  }

  lemma Distribute(a: int, b: int, p: int)
    ensures (a + b) * p == a * p + b * p
  {
  }

  /** The file block of a position, the offset in it, and the size of n blocks. */
  function BlockOf(bs: nat, pos: nat): nat
    requires bs > 0
  {
    pos / bs
  }

  function Within(bs: nat, pos: nat): (r: nat)
    requires bs > 0
    ensures r < bs
  {
    pos % bs
  }

  function Span(bs: nat, n: nat): nat { n * bs }

  lemma Shifted(bs: nat, pos: nat, k: nat, f: nat, w: nat, g: nat, r: nat)
    requires pos == f * bs + w && w + k == g * bs + r && r < bs
    ensures (pos + k) / bs == f + g && (pos + k) % bs == r
  {
    Distribute(f, g, bs);
    DivModIs(f + g, bs, r);
  }

  /** Where the k-th byte from pos lies, by its offset in the blocks that start with the one of pos. */
  lemma PositionFrom(bs: nat, pos: nat, k: nat)
    requires bs > 0
    ensures var j := Within(bs, pos) + k;
            BlockOf(bs, pos + k) == BlockOf(bs, pos) + BlockOf(bs, j) && Within(bs, pos + k) == Within(bs, j)
  {
    var j := pos % bs + k;
    Shifted(bs, pos, k, pos / bs, pos % bs, j / bs, j % bs);
  }

  lemma InBlock(bs: nat, j: nat)
    requires bs > 0
    ensures j < bs ==> BlockOf(bs, j) == 0 && Within(bs, j) == j
  {
    if j < bs {
      DivModIs(0, bs, j);
    }
  }

  /** The last of run blocks. */
  lemma InSpan(bs: nat, run: nat, j: nat)
    requires bs > 0 && run > 0
    ensures Span(bs, run) == Span(bs, run - 1) + bs
    ensures Span(bs, run - 1) <= j < Span(bs, run) ==>
              BlockOf(bs, j) == run - 1 && Within(bs, j) == j - Span(bs, run - 1)
  {
    assert run * bs == (run - 1) * bs + bs;
    if Span(bs, run - 1) <= j < Span(bs, run) {
      DivModIs(run - 1, bs, j - (run - 1) * bs);
    }
  }

  lemma SpanOne(bs: nat)
    ensures Span(bs, 1) == bs
  {
  }

  lemma WholeBlocks(bs: nat, count: nat)
    requires bs > 0
    ensures Span(bs, BlockOf(bs, count)) == count - Within(bs, count) && Span(bs, 0) == 0
  {
  }

  /** What is left of m whole blocks after d. */
  lemma Left(bs: nat, d: nat, m: nat)
    requires bs > 0 && d <= m
    ensures Span(bs, m) >= Span(bs, d) && BlockOf(bs, Span(bs, m) - Span(bs, d)) == m - d
    ensures d < m ==> Span(bs, d) + bs <= Span(bs, m)
  {
    Distribute(d, m - d, bs);
    DivModIs(m - d, bs, 0);
    MulAtLeast(m - d, bs);
  }

  lemma SpanAdd(bs: nat, d: nat, run: nat, m: nat)
    requires d + run <= m && bs > 0
    ensures Span(bs, d + run) == Span(bs, d) + Span(bs, run) <= Span(bs, m)
    ensures run > 0 ==> Span(bs, run) >= bs
  {
    MulAtLeast(run, bs);
    Distribute(d, run, bs);
    Left(bs, d + run, m);
  }
}
