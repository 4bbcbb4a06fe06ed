/** Small datatypes and arithmetic shared by every component. */
module Common {

  datatype Option<+T> = None | Some(value: T)

  /** The positions of the elements that satisfy p. */
  function Where<T>(xs: seq<T>, p: T -> bool): set<int> {
    set k | 0 <= k < |xs| && p(xs[k])
  }

  lemma WhereLast<T>(xs: seq<T>, p: T -> bool)
    requires xs != []
    ensures |Where(xs, p)| == |Where(xs[..|xs| - 1], p)| + if p(xs[|xs| - 1]) then 1 else 0
  {
    var n := |xs| - 1;
    assert Where(xs, p) == Where(xs[..n], p) + if p(xs[n]) then {n} else {};
  }

  function Min(a: int, b: int): int {
    if a <= b then a else b
  }

  function Max(a: int, b: int): int {
    if a >= b then a else b
  }

  /** math.ceil(a / b). */
  function CeilDiv(a: int, b: int): int
    requires 0 < b
  {
    if a % b == 0 then a / b else a / b + 1
  }

  /** The ceiling is the least q with a <= b * q. */
  lemma CeilDivLeast(a: int, b: int, q: int)
    requires 0 < b
    ensures a <= b * q <==> CeilDiv(a, b) <= q
  {
    var c := CeilDiv(a, b);
    assert b * (a / b) + a % b == a;
    assert b * (c - 1) < a <= b * c;
    if c <= q {
      MulLe(b, c, q);
    } else {
      MulLe(b, q, c - 1);
    }
  }

  lemma MulLe(a: int, x: int, y: int)
    requires 0 <= a && x <= y
    ensures a * x <= a * y
  {
  }

  lemma MulAdds(a: int, x: int, y: int)
    ensures a * (x + y) == a * x + a * y
  {
  }

  function Ceil(x: real): int {
    -((-x).Floor)
  }

  /** The ceiling of a quotient of reals is the integer ceiling. */
  lemma CeilIsCeilDiv(a: int, b: int)
    requires 0 < b
    ensures Ceil(a as real / b as real) == CeilDiv(a, b)
  {
    var q := CeilDiv(a, b);
    CeilDivLeast(a, b, q);
    CeilDivLeast(a, b, q - 1);
    var x := a as real / b as real;
    assert x * b as real == a as real;
    assert (b * q) as real == b as real * q as real;
    assert (b * (q - 1)) as real == b as real * (q - 1) as real;
    RealLe(x, q as real, b as real);
    RealLt((q - 1) as real, x, b as real);
    assert (-q) as real <= -x < (-q + 1) as real;
  }

  lemma RealLe(x: real, y: real, b: real)
    requires 0.0 < b && x * b <= y * b
    ensures x <= y
  {
    assert (y - x) * b == y * b - x * b;
  }

  lemma RealLt(x: real, y: real, b: real)
    requires 0.0 < b && x * b < y * b
    ensures x < y
  {
    assert (y - x) * b == y * b - x * b;
  }
}
