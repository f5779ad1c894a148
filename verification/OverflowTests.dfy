/** Tests for multiplication overflow, at every width. */
module OverflowTests {
  import opened WordArithmetic

  /** C division: the quotient is cut off towards zero. */
  function Quotient(p: int, x: int): int
    requires x != 0
  {
    if p >= 0 then (if x > 0 then p / x else -(p / -x))
    else if x > 0 then -(-p / x) else -p / -x
  }

  /** The product leaves less than |x| over. */
  lemma QuotientIs(p: int, x: int)
    requires x != 0
    ensures var rest := p - Quotient(p, x) * x;
            && -Abs(x) < rest < Abs(x)
            && (p >= 0 ==> rest >= 0) && (p <= 0 ==> rest <= 0)
  {
    DivisionIs(Abs(p), Abs(x));
  }

  lemma DivisionIs(a: int, b: int)
    requires a >= 0 && b > 0
    ensures a == (a / b) * b + a % b && 0 <= a % b < b && a / b >= 0
  {
  }

  function Abs(x: int): (a: int)
    ensures a >= 0
  {
    if x < 0 then -x else x
  }

  lemma QuotientExact(y: int, x: int)
    requires x != 0
    ensures Quotient(y * x, x) == y
  {
    var q := Quotient(y * x, x);
    QuotientIs(y * x, x);
    assert (y - q) * x == y * x - q * x by { Distribute(y, -q, x); }
    if x > 0 {
      NoMultiple(y - q, x, (y - q) * x);
    } else {
      assert (q - y) * -x == (y - q) * x;
      NoMultiple(q - y, -x, (y - q) * x);
    }
  }

  /** cmult_ok: the division is done at the wider type, so it cannot overflow itself. */
  function CmultOk(B: int, x: int, y: int): bool
    requires B > 0
  {
    x == 0 || Quotient(Wrap(B, x * y), x) == y
  }

  datatype Answer = Says(ok: bool) | Traps

  /** tmult_ok: dividing the least word by -1 traps. */
  function TmultOk(B: int, x: int, y: int): Answer
    requires B > 0
  {
    var p := Wrap(B, x * y);
    if x == 0 then Says(true)
    else if p == -B && x == -1 then Traps
    else Says(Quotient(p, x) == y)
  }

  /** test_cmult_ok: the product fits. */
  predicate Fits(B: int, x: int, y: int) {
    InRange(B, x * y)
  }

  /** Dividing back finds every overflow and reports no other. */
  lemma CmultOkIsExact(B: int, x: int, y: int)
    requires B > 0 && InRange(B, x) && InRange(B, y)
    ensures CmultOk(B, x, y) <==> Fits(B, x, y)
  {
    if x != 0 {
      var p, k := Wrap(B, x * y), Turns(B, x * y);
      WrapIs(B, x * y);
      WrapFits(B, x * y);
      assert x * y == y * x;
      if Fits(B, x, y) {
        QuotientExact(y, x);
      }
      if Quotient(p, x) == y {
        QuotientIs(p, x);
        NoMultiple(k, 2 * B, x * y - p);
      }
    }
  }

  /** The word-sized test is exact too, except that it traps on -1 times the least word. */
  lemma TmultOkIsExact(B: int, x: int, y: int)
    requires B > 0 && InRange(B, x) && InRange(B, y)
    ensures TmultOk(B, x, y) == if x == -1 && y == -B then Traps else Says(Fits(B, x, y))
  {
    CmultOkIsExact(B, x, y);
    if x == -1 {
      WrapFits(B, -y);
      assert x * y == -y;
      if y == -B {
        WrapUnique(B, B, -B, 1);
      }
    }
  }

  /** cmult_ok2 */
  function CmultOk2(B: int, x: int, y: int): bool {
    if x == 0 || y == 0 then true
    else if x < 0 && y < 0 then Quotient(B - 1, x) <= y
    else if x < 0 && y > 0 then Quotient(-B, x) >= y
    else if x > 0 && y < 0 then Quotient(-B, x) <= y
    else Quotient(B - 1, x) >= y
  }

  /** A quotient bounds exactly the numbers whose product stays below the dividend. */
  lemma QuotientBounds(m: int, a: int, q: int)
    requires m >= 0 && a > 0 && q >= 0
    ensures q <= m / a <==> a * q <= m
  {
    DivisionIs(m, a);
    var d := m / a - q;
    assert d * a == (m / a) * a - a * q by { Distribute(m / a, -q, a); }
    if d >= 0 {
      assert d * a >= 0;
    } else {
      assert (-1 - d) * a >= 0;
      assert (-1 - d) * a == -a - d * a;
    }
  }

  /** Comparing with the quotient of the limit, sign by sign, decides the same thing. */
  lemma CmultOk2IsExact(B: int, x: int, y: int)
    requires B > 0
    ensures CmultOk2(B, x, y) <==> Fits(B, x, y)
  {
    if x != 0 && y != 0 {
      var m := if (x < 0) == (y < 0) then B - 1 else B;
      QuotientBounds(m, Abs(x), Abs(y));
      AbsProduct(x, y);
    }
  }

  lemma AbsProduct(x: int, y: int)
    requires x != 0 && y != 0
    ensures Abs(x) * Abs(y) == if (x < 0) == (y < 0) then x * y else -(x * y)
    ensures Abs(x) * Abs(y) > 0
  {
  }

  /** cmult_ok3 */
  function CmultOk3(B: int, x: int, y: int): bool {
    if x == 0 || y == 0 then true
    else
      var div := Quotient(if (x < 0) != (y < 0) then -B else B - 1, x);
      if y < 0 then div <= y else y >= div
  }

  /** For positive y the last comparison of cmult_ok3 is the wrong way round: it is right exactly on
      the edge, where y is the quotient itself. */
  lemma CmultOk3IsRight(B: int, x: int, y: int)
    requires B > 0
    ensures (CmultOk3(B, x, y) <==> Fits(B, x, y)) <==>
              (x == 0 || y <= 0 || y == Quotient(if x < 0 then -B else B - 1, x))
  {
    if x != 0 && y != 0 {
      CmultOk2IsExact(B, x, y);
    }
  }

  /** Both kinds of mistake, at the width of a char. */
  lemma CmultOk3Mistakes()
    ensures !CmultOk3(128, 1, 1) && Fits(128, 1, 1)
    ensures CmultOk3(128, 127, 127) && !Fits(128, 127, 127)
  {
    assert Quotient(127, 1) == 127 && Quotient(127, 127) == 1;
  }
}
