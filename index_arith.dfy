/** Integer arithmetic of the logger: C++'s truncating `/` and `%` on `int`,
    and the non-negative modulus helper `mod` that is built on them and used
    to walk the circular buffer. */
module IndexArith {

  function Abs(y: int): int
  {
    if y < 0 then -y else y
  }

  /** C++ `x / y` on `int`: the quotient rounded toward zero. */
  function CDiv(x: int, y: int): int
    requires y != 0
  {
    if x >= 0 then x / y else -((-x) / y)
  }

  /** C++ `x % y` on `int`: the remainder that goes with the truncating
      quotient, so it carries the sign of the dividend. */
  function CRem(x: int, y: int): (r: int)
    requires y != 0
    ensures CDiv(x, y) * y + r == x
    ensures x >= 0 ==> 0 <= r < Abs(y)
    ensures x < 0 ==> -Abs(y) < r <= 0
  {
    if x >= 0 then x % y else -((-x) % y)
  }

  /** At least one whole `y` is at least `y`. */
  lemma {:induction false} AtLeastOneMultiple(d: int, y: int)
    requires d >= 1 && y > 0
    ensures d * y >= y
    decreases d
  {
    if d > 1 {
      AtLeastOneMultiple(d - 1, y);
      assert d * y == (d - 1) * y + y;
    }
  }

  /** Euclidean division of `q * y + r` by `y`, for `r` in `[0, y)`, gives
      back `q` and `r`. */
  lemma DivisionIsUnique(q: int, r: int, y: int)
    requires y > 0 && 0 <= r < y
    ensures (q * y + r) / y == q && (q * y + r) % y == r
  {
    var n := q * y + r;
    var d := q - n / y;
    assert n == (n / y) * y + n % y;
    assert d * y == n % y - r;
    if d >= 1 {
      AtLeastOneMultiple(d, y);
    } else if d <= -1 {
      AtLeastOneMultiple(-d, y);
    }
  }

  /** A multiple of `y` leaves no remainder, nor does one less `y`. */
  lemma MultipleHasNoRemainder(k: int, y: int)
    requires y > 0
    ensures (k * y) % y == 0
    ensures (k * y - y) % y == 0
  {
    DivisionIsUnique(k, 0, y);
    assert k * y - y == (k - 1) * y;
    DivisionIsUnique(k - 1, 0, y);
  }

  /** The helper `mod(x, y)` of the logger: for negative `x` it is
      `((x + 1) % y) + y - 1`, otherwise `x % y`, both with C++'s `%`.
      For a positive modulus it lands in `[0, y)`, is congruent to `x`
      (negative `x` included), and leaves an `x` already in range alone. */
  function Mod(x: int, y: int): (r: int)
    requires y != 0
    ensures y > 0 ==> 0 <= r < y
    ensures y > 0 ==> (x - r) % y == 0
    ensures 0 <= x < y ==> r == x
  {
    if x < 0 then
      var r := CRem(x + 1, y) + y - 1;
      if y > 0 then
        var d := CDiv(x + 1, y);
        assert x - r == d * y - y;
        MultipleHasNoRemainder(d, y);
        r
      else r
    else
      var r := CRem(x, y);
      if y > 0 then
        MultipleHasNoRemainder(CDiv(x, y), y);
        if x < y then
          DivisionIsUnique(0, x, y);
          r
        else r
      else r
  }

  /** A value that leaves no remainder is a whole multiple of `y`. */
  lemma ExactQuotient(n: int, y: int) returns (k: int)
    requires y > 0 && n % y == 0
    ensures n == k * y
  {
    k := n / y;
  }

  /** `Mod(x, y)` is THE value of `[0, y)` congruent to `x`: any value
      of that range congruent to `x` is it. */
  lemma ModIsUnique(x: int, y: int, r: int)
    requires y > 0
    requires 0 <= r < y && (x - r) % y == 0
    ensures r == Mod(x, y)
  {
    var m := Mod(x, y);
    var p := ExactQuotient(x - m, y);
    var q := ExactQuotient(x - r, y);
    assert m == (q - p) * y + r by {
      assert q * y - p * y == (q - p) * y;
    }
    DivisionIsUnique(q - p, r, y);
    DivisionIsUnique(0, m, y);
  }

  /** For a positive modulus the helper agrees with Dafny's Euclidean
      remainder, whatever the sign of `x`. */
  lemma ModIsEuclidean(x: int, y: int)
    requires y > 0
    ensures Mod(x, y) == x % y
  {
    var q := x / y;
    assert x - x % y == q * y;
    MultipleHasNoRemainder(q, y);
    ModIsUnique(x, y, x % y);
  }

  /** Reducing one summand first does not change the residue of a sum. */
  lemma ResidueOfSum(a: int, b: int, y: int)
    requires y > 0
    ensures (a % y + b) % y == (a + b) % y
  {
    var q := a / y;
    var s := a % y + b;
    var p := s / y;
    assert a == q * y + a % y;
    assert s == p * y + s % y;
    assert a + b == (q + p) * y + s % y;
    DivisionIsUnique(q + p, s % y, y);
  }

  /** Two different values less than `y` apart have different residues. */
  lemma CloseValuesHaveDistinctResidues(a: int, b: int, y: int)
    requires y > 0
    requires a < b < a + y
    ensures a % y != b % y
  {
    var p := a / y;
    var q := b / y;
    assert a == p * y + a % y;
    assert b == q * y + b % y;
    if a % y == b % y {
      assert b - a == (q - p) * y;
      if q - p >= 1 {
        AtLeastOneMultiple(q - p, y);
      } else if q - p <= -1 {
        AtLeastOneMultiple(p - q, y);
      }
    }
  }
}
