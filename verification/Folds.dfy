/** Folding a sequence with a binary operator, and when the order of the work does not matter. */
module Folds {

  ghost predicate Associative<T(!new)>(op: (T, T) -> T) {
    forall x, y, z :: op(op(x, y), z) == op(x, op(y, z))
  }

  ghost predicate Commutative<T(!new)>(op: (T, T) -> T) {
    forall x, y :: op(x, y) == op(y, x)
  }

  ghost predicate Unit<T(!new)>(op: (T, T) -> T, ident: T) {
    forall x :: op(ident, x) == x && op(x, ident) == x
  }

  lemma AssociativeAt<T(!new)>(op: (T, T) -> T, x: T, y: T, z: T)
    requires Associative(op)
    ensures op(op(x, y), z) == op(x, op(y, z))
  {
  }

  /** The fold from the left, starting with x. */
  function Fold<T>(op: (T, T) -> T, x: T, s: seq<T>): T {
    if s == [] then x else op(Fold(op, x, s[..|s| - 1]), s[|s| - 1])
  }

  lemma FoldNext<T>(op: (T, T) -> T, x: T, s: seq<T>, i: nat)
    requires i < |s|
    ensures Fold(op, x, s[..i + 1]) == op(Fold(op, x, s[..i]), s[i])
  {
    assert s[..i + 1][..i] == s[..i];
  }

  lemma {:induction false} FoldAppend<T>(op: (T, T) -> T, x: T, s: seq<T>, t: seq<T>)
    ensures Fold(op, x, s + t) == Fold(op, Fold(op, x, s), t)
  {
    if t == [] {
      assert s + t == s;
    } else {
      var h := t[..|t| - 1];
      FoldAppend(op, x, s, h);
      assert (s + t)[..|s + t| - 1] == s + h;
    }
  }

  /** The start value can be folded in last. */
  lemma {:induction false} FoldOut<T(!new)>(op: (T, T) -> T, ident: T, x: T, s: seq<T>)
    requires Associative(op) && Unit(op, ident)
    ensures Fold(op, x, s) == op(x, Fold(op, ident, s))
  {
    if s != [] {
      var h, y := s[..|s| - 1], s[|s| - 1];
      FoldOut(op, ident, x, h);
      AssociativeAt(op, x, Fold(op, ident, h), y);
    }
  }

  /** Two parts can be folded apart. */
  lemma FoldSplit<T(!new)>(op: (T, T) -> T, ident: T, s: seq<T>, t: seq<T>)
    requires Associative(op) && Unit(op, ident)
    ensures Fold(op, ident, s + t) == op(Fold(op, ident, s), Fold(op, ident, t))
  {
    FoldAppend(op, ident, s, t);
    FoldOut(op, ident, Fold(op, ident, s), t);
  }

  /** Folding one more value into any accumulator folds it into the whole. */
  lemma {:induction false} FoldUpdate<T(!new)>(op: (T, T) -> T, ident: T, accs: seq<T>, j: nat, x: T)
    requires Associative(op) && Commutative(op) && j < |accs|
    ensures Fold(op, ident, accs[j := op(accs[j], x)]) == op(Fold(op, ident, accs), x)
  {
    var n := |accs| - 1;
    var h, last, f := accs[..n], accs[n], Fold(op, ident, accs[..n]);
    if j == n {
      assert accs[j := op(accs[j], x)][..n] == h;
      AssociativeAt(op, f, last, x);
    } else {
      assert accs[j := op(accs[j], x)][..n] == h[j := op(h[j], x)];
      FoldUpdate(op, ident, h, j, x);
      AssociativeAt(op, f, x, last);
      AssociativeAt(op, f, last, x);
      assert op(x, last) == op(last, x);
    }
  }

  lemma {:induction false} FoldUnits<T(!new)>(op: (T, T) -> T, ident: T, accs: seq<T>)
    requires Unit(op, ident) && forall j :: 0 <= j < |accs| ==> accs[j] == ident
    ensures Fold(op, ident, accs) == ident
  {
    if accs != [] {
      FoldUnits(op, ident, accs[..|accs| - 1]);
    }
  }

  // ----- Parenthesised expressions over numbered accumulators -----

  datatype Grouping = Acc(j: nat) | Op(left: Grouping, right: Grouping)

  function Accs(g: Grouping): seq<nat> {
    match g
    case Acc(j) => [j]
    case Op(l, r) => Accs(l) + Accs(r)
  }

  function Pick<T>(accs: seq<T>, which: seq<nat>): seq<T>
    requires forall i :: i in which ==> i < |accs|
  {
    seq(|which|, i requires 0 <= i < |which| => assert which[i] in which; accs[which[i]])
  }

  function Eval<T>(op: (T, T) -> T, g: Grouping, accs: seq<T>): T
    requires forall i :: i in Accs(g) ==> i < |accs|
  {
    match g
    case Acc(j) => assert j in Accs(g); accs[j]
    case Op(l, r) =>
      assert forall i :: i in Accs(l) || i in Accs(r) ==> i in Accs(g);
      op(Eval(op, l, accs), Eval(op, r, accs))
  }

  /** Parentheses do not matter. */
  lemma {:induction false} EvalIsFold<T(!new)>(op: (T, T) -> T, ident: T, g: Grouping, accs: seq<T>)
    requires Associative(op) && Unit(op, ident) && forall i :: i in Accs(g) ==> i < |accs|
    ensures Eval(op, g, accs) == Fold(op, ident, Pick(accs, Accs(g)))
  {
    hide Fold, Associative, Unit;
    match g
    case Acc(j) =>
      FoldOne(op, ident, Pick(accs, Accs(g)));
    case Op(l, r) =>
      AccsBelow(l, r, |accs|);
      EvalIsFold(op, ident, l, accs);
      EvalIsFold(op, ident, r, accs);
      PickBoth(accs, Accs(l), Accs(r));
      FoldSplit(op, ident, Pick(accs, Accs(l)), Pick(accs, Accs(r)));
  }

  lemma FoldOne<T(!new)>(op: (T, T) -> T, ident: T, s: seq<T>)
    requires Unit(op, ident) && |s| == 1
    ensures Fold(op, ident, s) == s[0]
  {
    assert s[..0] == [];
  }

  lemma AccsBelow(l: Grouping, r: Grouping, n: nat)
    requires forall i :: i in Accs(Op(l, r)) ==> i < n
    ensures forall i :: i in Accs(l) || i in Accs(r) ==> i < n
  {
    var both := Accs(l) + Accs(r);
    assert both == Accs(Op(l, r));
    forall i | i in Accs(l) || i in Accs(r) ensures i < n {
      assert i in both;
    }
  }

  lemma PickBoth<T>(accs: seq<T>, a: seq<nat>, b: seq<nat>)
    requires forall i :: i in a || i in b ==> i < |accs|
    ensures Pick(accs, a + b) == Pick(accs, a) + Pick(accs, b)
  {
  }

  /** What an expression adds to an accumulator: its elements in order; no unit is needed. */
  lemma {:induction false} EvalOnto<T(!new)>(op: (T, T) -> T, x: T, g: Grouping, accs: seq<T>)
    requires Associative(op) && forall i :: i in Accs(g) ==> i < |accs|
    ensures op(x, Eval(op, g, accs)) == Fold(op, x, Pick(accs, Accs(g)))
  {
    hide Associative;
    match g
    case Acc(j) =>
      assert j in Accs(g);
      var p := Pick(accs, Accs(g));
      assert p[..0] == [] && p[0] == accs[j];
    case Op(l, r) =>
      AccsBelow(l, r, |accs|);
      EvalOnto(op, x, l, accs);
      EvalOnto(op, op(x, Eval(op, l, accs)), r, accs);
      AssociativeAt(op, x, Eval(op, l, accs), Eval(op, r, accs));
      PickBoth(accs, Accs(l), Accs(r));
      FoldAppend(op, x, Pick(accs, Accs(l)), Pick(accs, Accs(r)));
  }

  function Numbers(k: nat): (ids: seq<nat>)
    ensures |ids| == k && forall i :: 0 <= i < k ==> ids[i] == i
  {
    seq(k, i requires 0 <= i < k => i)
  }

  /** which names each of the numbers below n once, in any order. */
  ghost predicate Permutes(which: seq<nat>, n: nat) {
    multiset(which) == multiset(Numbers(n))
  }

  lemma PermutesBelow(which: seq<nat>, n: nat)
    requires Permutes(which, n)
    ensures forall i :: i in which ==> i < n
  {
    forall i | i in which ensures i < n {
      assert i in multiset(Numbers(n));
    }
  }

  /** n numbers among which each number below n occurs are a permutation of those. */
  lemma {:induction false} OntoPermutes(which: seq<nat>, n: nat)
    requires |which| == n && forall i: nat :: i < n ==> i in which
    ensures Permutes(which, n)
  {
    if n == 0 {
      assert which == Numbers(0);
    } else {
      var x := n - 1;
      assert x in which;
      var p :| 0 <= p < n && which[p] == x;
      var less := which[..p] + which[p + 1..];
      forall i: nat | i < n - 1 ensures i in less {
        assert i in which;
        StaysIn(which, p, i);
      }
      OntoPermutes(less, n - 1);
      PutBack(which, p, n);
    }
  }

  lemma PutBack(which: seq<nat>, p: nat, n: nat)
    requires p < |which| && n > 0 && which[p] == n - 1 && Permutes(which[..p] + which[p + 1..], n - 1)
    ensures Permutes(which, n)
  {
    hide Numbers;
    OneMore(which[..p], n - 1, which[p + 1..]);
    assert which[..p] + [n - 1] + which[p + 1..] == which;
    OneMore(Numbers(n - 1), n - 1, []);
    assert Numbers(n - 1) + [n - 1] + [] == Numbers(n) && Numbers(n - 1) + [] == Numbers(n - 1);
  }

  lemma OneMore(a: seq<nat>, x: nat, b: seq<nat>)
    ensures multiset(a + [x] + b) == multiset(a + b) + multiset{x}
  {
    assert multiset(a + [x] + b) == multiset(a) + multiset{x} + multiset(b);
    assert multiset(a + b) == multiset(a) + multiset(b);
  }

  lemma StaysIn(which: seq<nat>, p: nat, i: nat)
    requires p < |which| && i in which && i != which[p]
    ensures i in which[..p] + which[p + 1..]
  {
    var q :| 0 <= q < |which| && which[q] == i;
    assert (which[..p] + which[p + 1..])[if q < p then q else q - 1] == i;
  }

  /** With a commutative operator a value can be taken out of the middle and folded in last. */
  lemma FoldPull<T(!new)>(op: (T, T) -> T, ident: T, a: seq<T>, x: T, b: seq<T>)
    requires Associative(op) && Commutative(op) && Unit(op, ident)
    ensures Fold(op, ident, a + [x] + b) == op(Fold(op, ident, a + b), x)
  {
    hide Fold, Associative;
    FoldSplit(op, ident, a + [x], b);
    FoldSplit(op, ident, a, [x]);
    FoldSplit(op, ident, a, b);
    FoldOne(op, ident, [x]);
    var fa, fb := Fold(op, ident, a), Fold(op, ident, b);
    AssociativeAt(op, fa, x, fb);
    AssociativeAt(op, fa, fb, x);
    assert op(x, fb) == op(fb, x);
  }

  /** Nor does the order, for a commutative operator. */
  lemma {:induction false} FoldPermuted<T(!new)>(op: (T, T) -> T, ident: T, w: seq<T>, a: seq<nat>, b: seq<nat>)
    requires Associative(op) && Commutative(op) && Unit(op, ident)
    requires multiset(a) == multiset(b)
    requires (forall i :: i in a ==> i < |w|) && forall i :: i in b ==> i < |w|
    ensures Fold(op, ident, Pick(w, a)) == Fold(op, ident, Pick(w, b))
  {
    hide Fold, Associative, Commutative, Unit;
    if a == [] {
      assert multiset(b) == multiset{};
      assert b == [];
    } else {
      var a', x := a[..|a| - 1], a[|a| - 1];
      assert a' + [x] == a && a' + [x] + [] == a && a' + [] == a';
      var b1, b2 := Without(a', x, b);
      PickMiddle(w, a', x, []);
      PickMiddle(w, b1, x, b2);
      FoldPull(op, ident, Pick(w, a'), w[x], []);
      FoldPull(op, ident, Pick(w, b1), w[x], Pick(w, b2));
      FoldPermuted(op, ident, w, a', b1 + b2);
      assert Pick(w, []) == [] && Pick(w, a') + [] == Pick(w, a');
      assert Pick(w, a') + [w[x]] + [] == Pick(w, a') + [w[x]] + Pick(w, []);
    }
  }

  /** Where the last number of a stands in a rearrangement of a. */
  lemma Without(a: seq<nat>, x: nat, b: seq<nat>) returns (b1: seq<nat>, b2: seq<nat>)
    requires multiset(a + [x]) == multiset(b)
    ensures b == b1 + [x] + b2 && multiset(a) == multiset(b1 + b2)
  {
    assert x in multiset(a + [x]);
    var p :| 0 <= p < |b| && b[p] == x;
    b1, b2 := b[..p], b[p + 1..];
    assert b == b1 + [x] + b2;
    LessOne(a, x, []);
    LessOne(b1, x, b2);
    assert a + [x] + [] == a + [x] && a + [] == a;
  }

  lemma LessOne(a: seq<nat>, x: nat, b: seq<nat>)
    ensures multiset(a + b) == multiset(a + [x] + b) - multiset{x}
  {
    assert multiset(a + [x] + b) == multiset(a) + multiset{x} + multiset(b);
    assert multiset(a + b) == multiset(a) + multiset(b);
  }

  lemma PickMiddle<T>(w: seq<T>, a: seq<nat>, x: nat, b: seq<nat>)
    requires forall i :: i in a + [x] + b ==> i < |w|
    ensures x < |w| && (forall i :: i in a || i in b || i in a + b ==> i < |w|)
    ensures Pick(w, a + [x] + b) == Pick(w, a) + [w[x]] + Pick(w, b)
    ensures Pick(w, a + b) == Pick(w, a) + Pick(w, b)
  {
    var all := a + [x] + b;
    assert all[|a|] == x && x in all;
    forall i | i in a || i in b || i in a + b ensures i < |w| {
      assert i in a || i in b;
      assert i in a + [x] || i in b;
      assert i in all;
    }
    PickBoth(w, a, b);
    PickBoth(w, a + [x], b);
    PickBoth(w, a, [x]);
  }

  /** A grouping that names every accumulator once, in any order, combines them all. */
  lemma CombineAll<T(!new)>(op: (T, T) -> T, ident: T, g: Grouping, accs: seq<T>)
    requires Associative(op) && Commutative(op) && Unit(op, ident) && Permutes(Accs(g), |accs|)
    ensures forall i :: i in Accs(g) ==> i < |accs|
    ensures Eval(op, g, accs) == Fold(op, ident, accs)
  {
    hide Fold, Associative, Commutative, Unit, Eval, Accs;
    PermutesBelow(Accs(g), |accs|);
    EvalIsFold(op, ident, g, accs);
    FoldPermuted(op, ident, accs, Accs(g), Numbers(|accs|));
    assert Pick(accs, Numbers(|accs|)) == accs;
  }

  // ----- The statements of one turn of an unrolled loop -----

  /** The offsets a turn's expressions read, statement by statement. */
  function Offsets(terms: seq<Grouping>): seq<nat> {
    if terms == [] then [] else Offsets(terms[..|terms| - 1]) + Accs(terms[|terms| - 1])
  }

  lemma OffsetsNext(terms: seq<Grouping>, t: nat)
    requires t < |terms|
    ensures Offsets(terms[..t + 1]) == Offsets(terms[..t]) + Accs(terms[t])
  {
    assert terms[..t + 1][..t] == terms[..t];
  }

  lemma {:induction false} OffsetsBelow(terms: seq<Grouping>, n: nat)
    requires forall i :: i in Offsets(terms) ==> i < n
    ensures forall t :: 0 <= t <= |terms| ==> forall i :: i in Offsets(terms[..t]) ==> i < n
    ensures forall t :: 0 <= t < |terms| ==> forall i :: i in Accs(terms[t]) ==> i < n
  {
    if terms == [] {
      assert terms[..0] == [];
    } else {
      var h, g := terms[..|terms| - 1], terms[|terms| - 1];
      var all := Offsets(h) + Accs(g);
      assert all == Offsets(terms);
      forall i | i in Offsets(h) || i in Accs(g) ensures i < n {
        assert i in all;
      }
      OffsetsBelow(h, n);
      forall t | 0 <= t <= |terms| ensures forall i :: i in Offsets(terms[..t]) ==> i < n {
        if t < |terms| { assert terms[..t] == h[..t]; } else { assert terms[..t] == terms; }
      }
      forall t | 0 <= t < |terms| ensures forall i :: i in Accs(terms[t]) ==> i < n {
        if t < |terms| - 1 { assert terms[t] == h[t]; }
      }
    }
  }

  /** One statement acc_j = acc_j OP expression: f is what was folded before the turn, and the
      offsets done are those of the statements before this one. */
  lemma StatementFolds<T(!new)>(op: (T, T) -> T, ident: T, accs: seq<T>, j: nat, g: Grouping,
                                w: seq<T>, done: seq<nat>, f: T)
    requires Associative(op) && Commutative(op) && Unit(op, ident) && j < |accs|
    requires (forall i :: i in done ==> i < |w|) && forall i :: i in Accs(g) ==> i < |w|
    requires Fold(op, ident, accs) == op(f, Fold(op, ident, Pick(w, done)))
    ensures forall i :: i in done + Accs(g) ==> i < |w|
    ensures Fold(op, ident, accs[j := op(accs[j], Eval(op, g, w))]) == op(f, Fold(op, ident, Pick(w, done + Accs(g))))
  {
    hide Fold, Associative, Commutative, Unit, Eval, Accs;
    FoldUpdate(op, ident, accs, j, Eval(op, g, w));
    EvalIsFold(op, ident, g, w);
    PickBoth(w, done, Accs(g));
    FoldSplit(op, ident, Pick(w, done), Pick(w, Accs(g)));
    AssociativeAt(op, f, Fold(op, ident, Pick(w, done)), Eval(op, g, w));
  }

  /** The whole turn, once its statements have read each of the n elements from i on. */
  lemma TurnFolds<T(!new)>(op: (T, T) -> T, ident: T, s: seq<T>, i: nat, n: nat, done: seq<nat>)
    requires Associative(op) && Commutative(op) && Unit(op, ident) && i + n <= |s| && Permutes(done, n)
    ensures forall k :: k in done ==> k < n
    ensures op(Fold(op, ident, s[..i]), Fold(op, ident, Pick(s[i..i + n], done))) == Fold(op, ident, s[..i + n])
  {
    hide Fold, Associative, Commutative, Unit;
    PermutesBelow(done, n);
    var w := s[i..i + n];
    FoldPermuted(op, ident, w, done, Numbers(n));
    assert Pick(w, Numbers(n)) == w;
    assert s[..i + n] == s[..i] + w;
    FoldSplit(op, ident, s[..i], w);
  }
}
