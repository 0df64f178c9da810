/** Sizes of Go's integer types, bit lengths, shifts and the bitwise or. */
module MachineWords {

  const U32: nat := 0x1_0000_0000
  const U64: nat := 0x1_0000_0000_0000_0000
  const I63: nat := 0x8000_0000_0000_0000

  /** Number of bits needed for `x`. */
  function BitLen(x: nat): nat {
    if x == 0 then 0 else 1 + BitLen(x / 2)
  }

  /** x | y, bit by bit. */
  function BitOr(x: nat, y: nat): nat
    decreases x + y
  {
    if x == 0 && y == 0 then 0
    else 2 * BitOr(x / 2, y / 2) + if x % 2 == 1 || y % 2 == 1 then 1 else 0
  }

  /** x << n */
  function Dbl(x: nat, n: nat): (r: nat)
    ensures r >= x
  {
    if n == 0 then x else 2 * Dbl(x, n - 1)
  }

  function Max(x: int, y: int): int {
    if x < y then y else x
  }

  lemma {:induction false} BitOrZero(x: nat)
    ensures BitOr(0, x) == x && BitOr(x, 0) == x
  {
    if x > 0 { BitOrZero(x / 2); }
  }

  /** Or with one sets the lowest bit. */
  lemma BitOrOne(x: nat)
    ensures BitOr(x, 1) == if x % 2 == 0 then x + 1 else x
  {
    BitOrZero(x / 2);
  }

  /** A number of at most `n` bits or a number shifted by `n` is their sum. */
  lemma {:induction false} BitOrDisjoint(x: nat, y: nat, n: nat)
    requires x < Dbl(1, n)
    ensures BitOr(x, Dbl(y, n)) == x + Dbl(y, n)
  {
    if n == 0 {
      BitOrZero(y);
    } else {
      var z := Dbl(y, n - 1);
      BitOrDisjoint(x / 2, y, n - 1);
      assert (2 * z) / 2 == z && (2 * z) % 2 == 0;
    }
  }

  lemma DblSeven(x: nat, n: nat)
    ensures Dbl(x, n + 7) == 0x80 * Dbl(x, n)
  {
    assert Dbl(x, n + 2) == 4 * Dbl(x, n);
    assert Dbl(x, n + 4) == 4 * Dbl(x, n + 2);
    assert Dbl(x, n + 6) == 4 * Dbl(x, n + 4);
  }
}
