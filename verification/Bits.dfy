/**
 Two's complement bit operations on int64 values. An int64 is an `int` in range; `&` and `|` are
 defined bit by bit, `<<` wraps, and `>>` is the arithmetic shift (floor division).
 */
module Bits {
  const TWO_63: int := 0x8000_0000_0000_0000
  const TWO_64: int := 0x1_0000_0000_0000_0000

  predicate IsInt64(x: int) { -TWO_63 <= x < TWO_63 }

  function Wrap64(x: int): (r: int)
    ensures IsInt64(r) && (IsInt64(x) ==> r == x)
  {
    (x + TWO_63) % TWO_64 - TWO_63
  }

  function Pow2(k: nat): (p: int)
    ensures p >= 1
  {
    if k == 0 then 1 else 2 * Pow2(k - 1)
  }

  /** Number of bits left, read as an unsigned magnitude: the measure of the bitwise recursions. */
  function Magnitude(x: int): nat { if x >= 0 then x else -x - 1 }

  function Or(a: int, b: int): int
    decreases Magnitude(a) + Magnitude(b)
  {
    if a == 0 then b else if b == 0 then a
    else if a == -1 || b == -1 then -1
    else 2 * Or(a / 2, b / 2) + if a % 2 == 1 || b % 2 == 1 then 1 else 0
  }

  function And(a: int, b: int): int
    decreases Magnitude(a) + Magnitude(b)
  {
    if a == 0 || b == 0 then 0
    else if a == -1 then b else if b == -1 then a
    else 2 * And(a / 2, b / 2) + if a % 2 == 1 && b % 2 == 1 then 1 else 0
  }

  function Shl(x: int, k: nat): int { Wrap64(x * Pow2(k)) }

  function Sar(x: int, k: nat): int { x / Pow2(k) }

  lemma DivModUnique(x: int, d: int, q: int, r: int)
    requires d >= 1 && x == q * d + r && 0 <= r < d
    ensures x / d == q && x % d == r
  {
    var q', r' := x / d, x % d;
    assert x == q' * d + r';
    assert (q - q') * d == r' - r;
    TimesAtLeast(q - q', d);
    TimesAtLeast(q' - q, d);
    assert (q' - q) * d == r - r';
  }

  lemma TimesAtLeast(n: int, d: int)
    requires d >= 1
    ensures n >= 1 ==> n * d >= d
  {
  }

  /** int64 addition is undone by int64 subtraction, whether or not it overflows. */
  lemma WrapUndone(x: int, y: int)
    requires IsInt64(x)
    ensures Wrap64(Wrap64(x + y) - y) == x
  {
    var q := (x + y + TWO_63) / TWO_64;
    assert Wrap64(x + y) == x + y - q * TWO_64;
    DivModUnique(Wrap64(x + y) - y + TWO_63, TWO_64, -q, x + TWO_63);
  }

  /** Splitting off the lowest bit. */
  lemma ModTwice(x: int, p: int)
    requires p >= 1
    ensures x % (2 * p) == 2 * ((x / 2) % p) + x % 2
    ensures x / (2 * p) == (x / 2) / p
  {
    var h := x / 2;
    var q, r := h / p, h % p;
    assert h == q * p + r;
    assert x == q * (2 * p) + (2 * r + x % 2);
    DivModUnique(x, 2 * p, q, 2 * r + x % 2);
  }

  /** A mask with the lowest bit set passes that bit on. */
  lemma AndStep(x: int, mask: int)
    requires mask >= 1 && mask % 2 == 1
    ensures And(x, mask) == 2 * And(x / 2, mask / 2) + x % 2
  {
    if x == -1 {
      assert x / 2 == -1 && And(-1, mask / 2) == mask / 2;
    }
  }

  lemma AndTwice(x: int, p: int)
    requires p >= 1 && And(x / 2, p - 1) == (x / 2) % p
    ensures And(x, 2 * p - 1) == x % (2 * p)
  {
    assert (2 * p - 1) / 2 == p - 1 && (2 * p - 1) % 2 == 1;
    AndStep(x, 2 * p - 1);
    hide And;
    ModTwice(x, p);
  }

  /** Masking with k ones keeps the k low bits, also of a negative number. */
  lemma {:induction false} AndMask(x: int, k: nat)
    ensures And(x, Pow2(k) - 1) == x % Pow2(k)
    decreases k
  {
    if k == 0 {
      assert Pow2(0) == 1 && And(x, 0) == 0;
    } else {
      hide And;
      AndMask(x / 2, k - 1);
      AndTwice(x, Pow2(k - 1));
    }
  }

  /** Or-ing k low bits into a number whose k low bits are clear is addition. */
  lemma {:induction false} OrDisjoint(a: int, b: int, k: nat)
    requires a % Pow2(k) == 0 && 0 <= b < Pow2(k)
    ensures Or(a, b) == a + b
    decreases k
  {
    if k > 0 {
      ModTwice(a, Pow2(k - 1));
      OrDisjoint(a / 2, b / 2, k - 1);
    }
  }
}
