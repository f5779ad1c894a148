/** Two's complement arithmetic at any width: words are -B .. B-1 for B = 2^(w-1), though nothing
    below needs B to be a power of two. */
module WordArithmetic {

  predicate InRange(B: int, x: int) {
    -B <= x < B
  }

  /** The word that x becomes. */
  function Wrap(B: int, x: int): (r: int)
    requires B > 0
  {
    (x + B) % (2 * B) - B
  }

  /** How many times 2B was taken off. */
  function Turns(B: int, x: int): int
    requires B > 0
  {
    (x + B) / (2 * B)
  }

  lemma WrapIs(B: int, x: int)
    requires B > 0
    ensures InRange(B, Wrap(B, x)) && x == Wrap(B, x) + Turns(B, x) * (2 * B)
  {
  }

  /** A word that differs from x by a multiple of 2B is the word x becomes. */
  lemma WrapUnique(B: int, x: int, r: int, k: int)
    requires B > 0 && InRange(B, r) && x == r + k * (2 * B)
    ensures Wrap(B, x) == r && Turns(B, x) == k
  {
    WrapIs(B, x);
    var d := k - Turns(B, x);
    assert d * (2 * B) == Wrap(B, x) - r by { Distribute(k, -Turns(B, x), 2 * B); }
    NoMultiple(d, 2 * B, Wrap(B, x) - r);
  }

  lemma Distribute(a: int, b: int, t: int)
    ensures (a + b) * t == a * t + b * t
  {
  }

  /** The only multiple of t strictly between -t and t is 0. */
  lemma NoMultiple(d: int, t: int, x: int)
    requires d * t == x && -t < x < t
    ensures d == 0
  {
    AtLeastOnce(d, t);
  }

  lemma AtLeastOnce(d: int, t: int)
    requires t >= 0
    ensures (d >= 1 ==> d * t >= t) && (d <= -1 ==> d * t <= -t)
  {
    if d >= 1 {
      assert (d - 1) * t >= 0;
    } else if d <= -1 {
      assert (-1 - d) * t >= 0;
    }
  }

  lemma WrapFits(B: int, x: int)
    requires B > 0
    ensures Wrap(B, x) == x <==> InRange(B, x)
  {
    WrapIs(B, x);
    if InRange(B, x) {
      WrapUnique(B, x, x, 0);
    }
  }

  /** Wrapping either operand first makes no difference. */
  lemma WrapSum(B: int, x: int, y: int)
    requires B > 0
    ensures Wrap(B, Wrap(B, x) + y) == Wrap(B, x + y)
  {
    var z, k, m := Wrap(B, x) + y, Turns(B, x), Turns(B, Wrap(B, x) + y);
    WrapIs(B, x);
    WrapIs(B, z);
    Distribute(k, m, 2 * B);
    WrapUnique(B, x + y, Wrap(B, z), k + m);
  }

  lemma WrapProduct(B: int, x: int, y: int)
    requires B > 0
    ensures Wrap(B, Wrap(B, x) * y) == Wrap(B, x * y)
  {
    var w, k := Wrap(B, x), Turns(B, x);
    var z, m := w * y, Turns(B, w * y);
    WrapIs(B, x);
    WrapIs(B, z);
    assert x * y == w * y + (k * y) * (2 * B) by { Expand(w, k, 2 * B, y); }
    Distribute(k * y, m, 2 * B);
    WrapUnique(B, x * y, Wrap(B, z), k * y + m);
  }

  lemma SumCancels(B: int, x: int, y: int, z: int)
    requires B > 0 && InRange(B, x) && InRange(B, y) && Wrap(B, x + z) == Wrap(B, y + z)
    ensures x == y
  {
    var k, m := Turns(B, x + z), Turns(B, y + z);
    WrapIs(B, x + z);
    WrapIs(B, y + z);
    Distribute(k, -m, 2 * B);
    NoMultiple(k - m, 2 * B, x - y);
  }

  lemma Expand(w: int, k: int, t: int, y: int)
    ensures (w + k * t) * y == w * y + (k * y) * t
  {
  }
}
