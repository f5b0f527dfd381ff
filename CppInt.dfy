/**
 * The integer operators of C++ that the core relies on, stated for Dafny's
 * unbounded `int`.  C++ `/` truncates toward zero and `%` takes the sign of
 * the dividend, whereas Dafny's `/` and `%` are Euclidean; the functions here
 * make the C++ behaviour explicit.  `Min` and `Max` are Elemental's.
 */
module CppInt {

  function Abs(a: int): nat
  {
    if a < 0 then -a else a
  }

  function Min(a: int, b: int): (r: int)
    ensures r <= a && r <= b && (r == a || r == b)
  {
    if a < b then a else b
  }

  function Max(a: int, b: int): (r: int)
    ensures r >= a && r >= b && (r == a || r == b)
  {
    if a < b then b else a
  }

  /** C++ integer division `a / b`: the quotient truncated toward zero. */
  function Div(a: int, b: int): (q: int)
    requires b != 0
    ensures a >= 0 && b > 0 ==> q == a / b
  {
    var q0 := Abs(a) / Abs(b);
    if (a < 0) == (b < 0) then q0 else -q0
  }

  lemma DivBounds(x: nat, y: nat)
    requires y > 0
    ensures y * (x / y) <= x < y * (x / y + 1)
  {
    assert x == y * (x / y) + x % y;
  }

  /**
   * Div truncates toward zero: its magnitude is the floor of |a| / |b| and it
   * is negative only when the operands have opposite signs.
   */
  lemma DivTruncates(a: int, b: int)
    requires b != 0
    ensures Abs(b) * Abs(Div(a, b)) <= Abs(a) < Abs(b) * (Abs(Div(a, b)) + 1)
    ensures Div(a, b) == 0 || ((Div(a, b) < 0) <==> ((a < 0) != (b < 0)))
  {
    var q0 := Abs(a) / Abs(b);
    assert Abs(Div(a, b)) == q0;
    DivBounds(Abs(a), Abs(b));
  }

  /** C++ remainder `a % b`: what is left after the truncating division. */
  function Rem(a: int, b: int): (r: int)
    requires b != 0
    ensures a >= 0 && b > 0 ==> r == a % b
  {
    a - b * Div(a, b)
  }

  /** Rem is smaller than the divisor in magnitude and takes the sign of the dividend. */
  lemma RemTruncates(a: int, b: int)
    requires b != 0
    ensures a == b * Div(a, b) + Rem(a, b)
    ensures Abs(Rem(a, b)) < Abs(b)
    ensures Rem(a, b) == 0 || ((Rem(a, b) < 0) <==> (a < 0))
  {
    var q := Div(a, b);
    DivTruncates(a, b);
    var qa, ba := Abs(q), Abs(b);
    assert ba * qa <= Abs(a) < ba * qa + ba;
    if a >= 0 && b > 0 {
      assert a - b * q == Abs(a) - ba * qa;
    } else if a >= 0 && b < 0 {
      assert q <= 0;
      assert b * q == ba * qa;
      assert a - b * q == Abs(a) - ba * qa;
    } else if a < 0 && b > 0 {
      assert q <= 0;
      assert b * q == -(ba * qa);
      assert a - b * q == -(Abs(a) - ba * qa);
    } else {
      assert q >= 0;
      assert b * q == -(ba * qa);
      assert a - b * q == -(Abs(a) - ba * qa);
    }
  }
}
