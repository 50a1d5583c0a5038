/** The few facts about products, quotients and remainders the models need. */
module Arithmetic {

  function Max(a: int, b: int): int { if a < b then b else a }

  function MaxReal(x: real, y: real): real { if x < y then y else x }

  function MinReal(x: real, y: real): real { if y < x then y else x }

  lemma Grows(a: int, b: nat)
    requires a >= 1
    ensures a * b >= b
  {
    assert a * b == (a - 1) * b + b;
    NonNegative(a - 1, b);
  }

  lemma NonNegative(a: nat, b: nat)
    ensures a * b >= 0
  {
  }

  lemma NonPositive(a: int, b: nat)
    ensures a <= 0 ==> a * b <= 0
  {
    if a <= 0 {
      NonNegative(-a, b);
      assert (-a) * b == -(a * b);
    }
  }

  /** Quotient and remainder are determined by their defining equation. */
  lemma DivModUnique(x: int, q: int, r: int, b: nat)
    requires b > 0 && x == q * b + r && 0 <= r < b
    ensures x / b == q && x % b == r
  {
    var q', r' := x / b, x % b;
    assert x == q' * b + r';
    assert (q' - q) * b == q' * b - q * b;
    assert (q - q') * b == q * b - q' * b;
    if q' > q {
      Grows(q' - q, b);
    } else if q' < q {
      Grows(q - q', b);
    }
  }

  lemma ModShift(x: int, k: int, b: nat)
    requires b > 0
    ensures (x + k * b) % b == x % b
  {
    assert x == (x / b) * b + x % b;
    assert x + k * b == (x / b + k) * b + x % b;
    DivModUnique(x + k * b, x / b + k, x % b, b);
  }

  /** Adding `(-x) % b` reaches the next multiple of `b`. */
  lemma NextMultiple(x: int, b: nat)
    requires b > 0
    ensures (x + (-x) % b) % b == 0
  {
    var q, r := (-x) / b, (-x) % b;
    assert -x == q * b + r;
    assert x + r == (-q) * b + 0;
    DivModUnique(x + r, -q, 0, b);
  }
}
