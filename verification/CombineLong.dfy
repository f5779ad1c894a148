/** The combining functions at the configurations of the benchmark: sums and products of longs, where
    both operators wrap. */
module CombineLong {
  import opened Combine
  import opened Folds
  import opened WordArithmetic

  const LONG := 0x8000_0000_0000_0000

  type Long = x: int | InRange(LONG, x)

  function Add(x: Long, y: Long): Long {
    WrapIs(LONG, x + y);
    Wrap(LONG, x + y)
  }

  function Mul(x: Long, y: Long): Long {
    WrapIs(LONG, x * y);
    Wrap(LONG, x * y)
  }

  /** The operators are addition and multiplication wherever the result is a long, and differ from them
      by a multiple of 2^64 everywhere. */
  lemma OperatorsAre(x: Long, y: Long)
    ensures Add(x, y) == x + y <==> InRange(LONG, x + y)
    ensures Mul(x, y) == x * y <==> InRange(LONG, x * y)
    ensures x + y == Add(x, y) + Turns(LONG, x + y) * (2 * LONG)
    ensures x * y == Mul(x, y) + Turns(LONG, x * y) * (2 * LONG)
  {
    WrapFits(LONG, x + y);
    WrapFits(LONG, x * y);
    WrapIs(LONG, x + y);
    WrapIs(LONG, x * y);
  }

  /** Sums meet the laws every form needs. */
  lemma AddLaws()
    ensures Associative(Add) && Commutative(Add) && Unit(Add, 0)
  {
    forall x: Long, y: Long, z: Long ensures Add(Add(x, y), z) == Add(x, Add(y, z)) {
      WrapSum(LONG, x + y, z);
      WrapSum(LONG, y + z, x);
    }
    forall x: Long ensures Add(0, x) == x && Add(x, 0) == x {
      WrapFits(LONG, x);
    }
  }

  /** So do products. */
  lemma MulLaws()
    ensures Associative(Mul) && Commutative(Mul) && Unit(Mul, 1)
  {
    forall x: Long, y: Long, z: Long ensures Mul(Mul(x, y), z) == Mul(x, Mul(y, z)) {
      WrapProduct(LONG, x * y, z);
      WrapProduct(LONG, y * z, x);
      assert Mul(y, z) * x == x * Mul(y, z) && (x * y) * z == (y * z) * x;
    }
    forall x: Long, y: Long ensures Mul(x, y) == Mul(y, x) {
      assert x * y == y * x;
    }
    forall x: Long ensures Mul(1, x) == x && Mul(x, 1) == x {
      WrapFits(LONG, x);
    }
  }

  lemma AddCancels(x: Long, y: Long, z: Long)
    requires Add(x, z) == Add(y, z)
    ensures x == y
  {
    SumCancels(LONG, x, y, z);
  }

  lemma {:induction false} FoldCancels(x: Long, y: Long, s: seq<Long>)
    ensures Fold(Add, x, s) == Fold(Add, y, s) <==> x == y
  {
    if s != [] {
      var h, z := s[..|s| - 1], s[|s| - 1];
      FoldCancels(x, y, h);
      if Fold(Add, x, s) == Fold(Add, y, s) {
        AddCancels(Fold(Add, x, h), Fold(Add, y, h), z);
      }
    }
  }

  /** A sum computed by combine1 into element j of its own vector is the sum of the vector exactly
      when that element happens to be the sum of those before it. */
  lemma SumIntoItself(s: seq<Long>, j: int)
    ensures Combined(Add, 0, s, j) == Fold(Add, 0, s) <==>
              (0 <= j < |s| ==> s[j] == Fold(Add, 0, s[..j]))
  {
    if 0 <= j < |s| {
      var f := Fold(Add, 0, s[..j]);
      assert s == s[..j + 1] + s[j + 1..];
      FoldAppend(Add, 0, s[..j + 1], s[j + 1..]);
      FoldNext(Add, 0, s, j);
      FoldCancels(Add(f, f), Add(f, s[j]), s[j + 1..]);
      if Add(f, f) == Add(f, s[j]) {
        AddCancels(f, s[j], f);
      }
    }
  }

  /** The parentheses of unroll20x20a. */
  const GROUP_20 := Op(
    Op(Op(Op(Op(Acc(0), Acc(1)), Op(Acc(2), Acc(3))), Op(Acc(4), Acc(5))),
       Op(Op(Op(Acc(6), Acc(7)), Op(Acc(8), Acc(9))), Op(Acc(10), Acc(11)))),
    Op(Op(Op(Acc(12), Acc(13)), Op(Acc(14), Acc(15))),
       Op(Op(Acc(16), Acc(17)), Op(Acc(18), Acc(19)))))

  /** Statements that add one element each. */
  function Singles(which: seq<nat>): (terms: seq<Grouping>)
    ensures |terms| == |which|
  {
    seq(|which|, t requires 0 <= t < |which| => Acc(which[t]))
  }

  lemma {:induction false} SinglesRead(which: seq<nat>)
    ensures Offsets(Singles(which)) == which
  {
    if which != [] {
      var h := which[..|which| - 1];
      SinglesRead(h);
      assert Singles(which)[..|which| - 1] == Singles(h);
      assert which == h + [which[|which| - 1]];
    }
  }

  /** The order of the statements in one turn of unroll20x20a: 0, 6, 1, 7, up to 5, 11, then 12 to 19. */
  function Order20(): (order: seq<nat>)
    ensures |order| == 20 && forall t :: 0 <= t < 20 ==> order[t] < 20
  {
    seq(20, t requires 0 <= t < 20 => if t >= 12 then t else t / 2 + 6 * (t % 2))
  }

  lemma Order20Permutes()
    ensures Permutes(Order20(), 20)
  {
    forall i: nat | i < 20 ensures i in Order20() {
      assert Order20()[if i < 6 then 2 * i else if i < 12 then 2 * (i - 6) + 1 else i] == i;
    }
    OntoPermutes(Order20(), 20);
  }

  lemma Group20InOrder()
    ensures Permutes(Accs(GROUP_20), 20)
  {
    assert Accs(GROUP_20) == Numbers(20);
  }

  /** unroll20x20a on sums. */
  method SumUnroll20x20(mem: array<Long>, v: Vec, dest: nat)
    requires Fits(mem, v, dest)
    modifies mem
    ensures Stored(mem, dest, Fold(Add, 0, old(View(mem, v))))
  {
    hide Associative, Commutative, Unit, Permutes, Offsets, Accs, Order20, Singles, Fold, View;
    AddLaws();
    Order20Permutes();
    SinglesRead(Order20());
    Group20InOrder();
    Unrolled(mem, v, dest, Add, 0, 20, Order20(), Singles(Order20()), 20, 0, GROUP_20);
  }

  /** The twelve statements of one turn of unroll12x6a: accumulator t / 2 takes elements t / 2 and
      t / 2 + 6. */
  function Order12(): (order: seq<nat>)
    ensures |order| == 12 && forall t :: 0 <= t < 12 ==> order[t] < 12
  {
    seq(12, t requires 0 <= t < 12 => t / 2 + 6 * (t % 2))
  }

  const GROUP_6 := Op(Op(Op(Acc(0), Acc(1)), Op(Acc(2), Acc(3))), Op(Acc(4), Acc(5)))

  lemma Order12Permutes()
    ensures Permutes(Order12(), 12) && Permutes(Accs(GROUP_6), 6)
  {
    forall i: nat | i < 12 ensures i in Order12() {
      assert Order12()[if i < 6 then 2 * i else 2 * (i - 6) + 1] == i;
    }
    OntoPermutes(Order12(), 12);
    assert Accs(GROUP_6) == Numbers(6);
  }

  /** unroll12x6a on products: more elements a turn than accumulators. */
  method ProductUnroll12x6(mem: array<Long>, v: Vec, dest: nat)
    requires Fits(mem, v, dest)
    modifies mem
    ensures Stored(mem, dest, Fold(Mul, 1, old(View(mem, v))))
  {
    hide Associative, Commutative, Unit, Permutes, Offsets, Accs, Order12, Singles, Fold, View;
    MulLaws();
    Order12Permutes();
    SinglesRead(Order12());
    var into := seq(12, t requires 0 <= t < 12 => t / 2);
    Unrolled(mem, v, dest, Mul, 1, 6, into, Singles(Order12()), 12, 0, GROUP_6);
  }

  /** It does fail: the sum of [1] into itself comes out as 0. */
  lemma SumIntoItselfFails()
    ensures Combined(Add, 0, [1], 0) == 0 && Fold(Add, 0, [1]) == 1
  {
    hide Combined, Fold;
    CombinedOfOne<Long>(Add, 0, 1);
    WrapFits(LONG, 0);
    WrapFits(LONG, 1);
  }
}
