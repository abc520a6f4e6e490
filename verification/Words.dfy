/** Fixed-width arithmetic shared by the models: unsigned 16- and 32-bit bounds,
    bitwise "or" on naturals, and the Option type. */
module Words {

  const U16 := 0x1_0000
  const U32 := 0x1_0000_0000
  const U31 := 0x8000_0000

  datatype Option<+T> = None | Some(value: T)

  function Min(a: int, b: int): int {
    if a <= b then a else b
  }

  /** Unsigned 32-bit addition of two 32-bit values. */
  function Add32(a: nat, b: nat): (r: nat)
    ensures a < U32 && b < U32 ==> r < U32
  {
    if a + b >= U32 then a + b - U32 else a + b
  }

  function Pow2(k: nat): (r: nat)
    ensures r > 0
  {
    if k == 0 then 1 else 2 * Pow2(k - 1)
  }

  /** Bitwise "or" of two naturals. */
  function BitOr(a: nat, b: nat): (r: nat)
    decreases a + b
  {
    if a == 0 then b
    else if b == 0 then a
    else 2 * BitOr(a / 2, b / 2) + (if a % 2 == 1 || b % 2 == 1 then 1 else 0)
  }

  lemma OrStep(a: nat, b: nat)
    ensures BitOr(a, b) == 2 * BitOr(a / 2, b / 2) + (if a % 2 == 1 || b % 2 == 1 then 1 else 0)
  {
    if a == 0 {
      assert BitOr(0, b / 2) == b / 2;
    } else if b == 0 {
      OrZero(a / 2);
    }
  }

  lemma OrZero(a: nat)
    ensures BitOr(a, 0) == a
  {
  }

  /** When the bits of x and y * 2^k cannot overlap, "or" is addition. */
  lemma {:induction false} BitOrDisjoint(x: nat, y: nat, k: nat)
    requires x < Pow2(k)
    ensures BitOr(x, y * Pow2(k)) == x + y * Pow2(k)
  {
    if k != 0 && x != 0 && y != 0 {
      var b := y * Pow2(k);
      assert b == 2 * (y * Pow2(k - 1));
      assert b / 2 == y * Pow2(k - 1);
      assert b != 0;
      BitOrDisjoint(x / 2, y, k - 1);
    }
  }

  /** Splitting a 32-bit value into halves and or-ing them back is the identity. */
  lemma HalvesRejoin(p: nat)
    requires p < U32
    ensures BitOr(p % U16, p / U16 * U16) == p
  {
    assert Pow2(16) == U16 by {
      assert Pow2(4) == 16;
      assert Pow2(8) == 256 by { assert Pow2(6) == 64; }
      assert Pow2(12) == 4096 by { assert Pow2(10) == 1024; }
      assert Pow2(14) == 16384;
    }
    BitOrDisjoint(p % U16, p / U16, 16);
  }
}
