/**
  The Python number conversions the engine relies on, over exact integers and reals:
  `int(x)` of a float truncates toward zero, `a // b` floors, and `np.ceil(a / b)` is
  the ceiling of the true quotient.
 */
module PyArith {

  /** `int(x)`: truncation toward zero. */
  function Trunc(x: real): (t: int)
    ensures x >= 0.0 ==> t >= 0 && t as real <= x < t as real + 1.0
    ensures x < 0.0 ==> t <= 0 && t as real - 1.0 < x <= t as real
  {
    if x >= 0.0 then x.Floor else -((-x).Floor)
  }

  /** `a // b` (floor division, also for a negative divisor). */
  function FloorDiv(a: int, b: int): (q: int)
    requires b != 0
    ensures q as real <= a as real / b as real < q as real + 1.0
  {
    (a as real / b as real).Floor
  }

  /** `int(np.ceil(a / b))` for a non-negative dividend and a positive divisor. */
  function CeilDiv(a: nat, b: nat): (c: nat)
    requires b >= 1
    ensures c * b >= a
    ensures (c - 1) * b < a || (a == 0 && c == 0)
  {
    var c := (a + b - 1) / b;
    DivMod(a + b - 1, b);
    c
  }

  /** Euclidean division of a non-negative number, spelled out for the solver. */
  lemma DivMod(a: nat, b: nat)
    requires b >= 1
    ensures a == (a / b) * b + a % b && 0 <= a % b < b
  {
  }

  /** The quotient is the one `q` with `q * b <= a < (q + 1) * b`. */
  lemma DivUnique(a: int, b: int, q: int)
    requires b >= 1 && q * b <= a < (q + 1) * b
    ensures a / b == q
  {
    var q' := a / b;
    assert q' * b <= a < (q' + 1) * b;
    if q' < q {
      MulMono(q' + 1, q, b);
    } else if q < q' {
      MulMono(q + 1, q', b);
    }
  }

  lemma MulMono(x: int, y: int, b: int)
    requires x <= y && b >= 0
    ensures x * b <= y * b
  {
    assert y * b - x * b == (y - x) * b;
  }

  /** For a non-negative quotient, `int(a / b)` is integer division. */
  lemma {:induction false} TruncQuotient(a: nat, b: nat)
    requires b >= 1
    ensures Trunc(a as real / b as real) == a / b
  {
    var q := a / b;
    var x := a as real / b as real;
    DivMod(a, b);
    CastProduct(q, b);
    CastProduct(q + 1, b);
    assert x * b as real == a as real;
    ScaleLe(q as real, x, b as real);
    ScaleLt(x, q as real + 1.0, b as real);
  }

  lemma CastProduct(x: int, y: int)
    ensures (x * y) as real == x as real * y as real
  {
  }

  lemma ScaleLe(u: real, v: real, c: real)
    requires c > 0.0 && u * c <= v * c
    ensures u <= v
  {
    assert (v - u) * c == v * c - u * c;
  }

  lemma ScaleLt(u: real, v: real, c: real)
    requires c > 0.0 && u * c < v * c
    ensures u < v
  {
    assert (v - u) * c == v * c - u * c;
  }
}
