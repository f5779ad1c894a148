/** The vector combining functions: a plain fold through memory, and its optimised forms. */
module Combine {
  import opened Folds

  /** A vector in memory. */
  datatype Vec = Vec(start: nat, len: nat)

  ghost predicate Fits<T>(mem: array<T>, v: Vec, dest: nat) {
    v.start + v.len <= mem.Length && dest < mem.Length
  }

  ghost function View<T>(mem: array<T>, v: Vec): (s: seq<T>)
    requires v.start + v.len <= mem.Length
    reads mem
    ensures |s| == v.len && forall i :: 0 <= i < v.len ==> s[i] == mem[v.start + i]
  {
    mem[v.start..v.start + v.len]
  }

  lemma PartOfView<T>(mem: array<T>, v: Vec, i: nat, n: nat)
    requires v.start + v.len <= mem.Length && i + n <= v.len
    ensures mem[v.start + i..v.start + i + n] == View(mem, v)[i..i + n]
  {
  }

  /** Only the destination changed, to x. */
  twostate predicate Stored<T>(mem: array<T>, dest: nat, x: T)
    requires dest < mem.Length
    reads mem
  {
    mem[dest] == x && forall k :: 0 <= k < mem.Length && k != dest ==> mem[k] == old(mem[k])
  }

  // ----- combine1: the destination is written at every step -----

  /** What combine1 computes when the destination is element j of the vector, for any integer j:
      outside the vector the fold, inside it the element is lost and the fold before it counts twice. */
  function Combined<T>(op: (T, T) -> T, ident: T, s: seq<T>, j: int): T {
    if 0 <= j < |s| then
      var f := Fold(op, ident, s[..j]);
      Fold(op, op(f, f), s[j + 1..])
    else
      Fold(op, ident, s)
  }

  method Combine1<T(!new)>(mem: array<T>, v: Vec, dest: nat, op: (T, T) -> T, ident: T)
    requires Fits(mem, v, dest)
    modifies mem
    ensures Stored(mem, dest, Combined(op, ident, old(View(mem, v)), dest - v.start))
  {
    hide Fold;
    ghost var s, j := View(mem, v), dest - v.start;
    mem[dest] := ident;
    CombinedStart(op, ident, s, j);
    var i := 0;
    while i < v.len
      invariant i <= v.len && Stored(mem, dest, Combined(op, ident, s[..i], j))
    {
      CombinedNext(op, ident, s, j, i);
      var val := mem[v.start + i];
      mem[dest] := op(mem[dest], val);
      i := i + 1;
    }
    assert s[..i] == s;
  }

  lemma CombinedStart<T>(op: (T, T) -> T, ident: T, s: seq<T>, j: int)
    ensures Combined(op, ident, s[..0], j) == ident
  {
  }

  lemma CombinedNext<T>(op: (T, T) -> T, ident: T, s: seq<T>, j: int, i: nat)
    requires i < |s|
    ensures var c := Combined(op, ident, s[..i], j);
            Combined(op, ident, s[..i + 1], j) == op(c, if i == j then c else s[i])
  {
    hide Fold;
    FoldNext(op, ident, s, i);
    if j == i {
      var f := Fold(op, ident, s[..i]);
      assert s[..i + 1][..j] == s[..i] && s[..i + 1][j + 1..] == [];
      FoldNothing(op, op(f, f));
    } else if 0 <= j < i {
      var t := s[j + 1..];
      assert s[..i][..j] == s[..j] && s[..i + 1][..j] == s[..j];
      assert s[..i][j + 1..] == t[..i - j - 1] && s[..i + 1][j + 1..] == t[..i - j];
      var f := Fold(op, ident, s[..j]);
      FoldNext(op, op(f, f), t, i - j - 1);
    }
  }

  /** A vector of one element that is also the destination: the element is gone. */
  lemma CombinedOfOne<T>(op: (T, T) -> T, ident: T, x: T)
    ensures Combined(op, ident, [x], 0) == op(ident, ident) && Fold(op, ident, [x]) == op(ident, x)
  {
    assert [x][..0] == [] && [x][1..] == [];
  }

  lemma FoldNothing<T>(op: (T, T) -> T, x: T)
    ensures Fold(op, x, []) == x
  {
  }

  // ----- One accumulator -----

  method Combine4<T(!new)>(mem: array<T>, v: Vec, dest: nat, op: (T, T) -> T, ident: T)
    requires Fits(mem, v, dest)
    modifies mem
    ensures Stored(mem, dest, Fold(op, ident, old(View(mem, v))))
  {
    hide Fold;
    ghost var s := View(mem, v);
    FoldNothing(op, ident);
    var acc := ident;
    var i := 0;
    assert s[..0] == [];
    while i < v.len
      modifies {}
      invariant i <= v.len && acc == Fold(op, ident, s[..i])
    {
      FoldNext(op, ident, s, i);
      acc := op(acc, mem[v.start + i]);
      i := i + 1;
    }
    assert s[..i] == s;
    mem[dest] := acc;
  }

  /** Two elements at a time, one after the other: no law is needed. */
  method Combine5<T(!new)>(mem: array<T>, v: Vec, dest: nat, op: (T, T) -> T, ident: T)
    requires Fits(mem, v, dest)
    modifies mem
    ensures Stored(mem, dest, Fold(op, ident, old(View(mem, v))))
  {
    hide Fold;
    ghost var s := View(mem, v);
    FoldNothing(op, ident);
    var acc := ident;
    var limit := v.len - 1;
    var i := 0;
    assert s[..0] == [];
    while i < limit
      modifies {}
      invariant i <= v.len && acc == Fold(op, ident, s[..i])
    {
      FoldNext(op, ident, s, i);
      FoldNext(op, ident, s, i + 1);
      acc := op(op(acc, mem[v.start + i]), mem[v.start + i + 1]);
      i := i + 2;
    }
    while i < v.len
      modifies {}
      invariant i <= v.len && acc == Fold(op, ident, s[..i])
    {
      FoldNext(op, ident, s, i);
      acc := op(acc, mem[v.start + i]);
      i := i + 1;
    }
    assert s[..i] == s;
    mem[dest] := acc;
  }

  /** Two elements at a time, combined with each other first: the operator must be associative. */
  method Combine7<T(!new)>(mem: array<T>, v: Vec, dest: nat, op: (T, T) -> T, ident: T)
    requires Fits(mem, v, dest) && Associative(op)
    modifies mem
    ensures Stored(mem, dest, Fold(op, ident, old(View(mem, v))))
  {
    hide Fold, Associative;
    ghost var s := View(mem, v);
    FoldNothing(op, ident);
    var acc := ident;
    var limit := v.len - 1;
    var i := 0;
    assert s[..0] == [];
    while i < limit
      modifies {}
      invariant i <= v.len && acc == Fold(op, ident, s[..i])
    {
      FoldNext(op, ident, s, i);
      FoldNext(op, ident, s, i + 1);
      AssociativeAt(op, acc, s[i], s[i + 1]);
      acc := op(acc, op(mem[v.start + i], mem[v.start + i + 1]));
      i := i + 2;
    }
    while i < v.len
      modifies {}
      invariant i <= v.len && acc == Fold(op, ident, s[..i])
    {
      FoldNext(op, ident, s, i);
      acc := op(acc, mem[v.start + i]);
      i := i + 1;
    }
    assert s[..i] == s;
    mem[dest] := acc;
  }

  // ----- Several accumulators -----

  /** unrollx2as: one accumulator for each half of the vector. No elements change places, so the
      operator need not be commutative. */
  method Halves<T(!new)>(mem: array<T>, v: Vec, dest: nat, op: (T, T) -> T, ident: T)
    requires Fits(mem, v, dest) && Associative(op) && Unit(op, ident)
    modifies mem
    ensures Stored(mem, dest, Fold(op, ident, old(View(mem, v))))
  {
    hide Fold, Associative, Unit;
    var limit := v.len / 2;
    ghost var s := View(mem, v);
    ghost var low, high := s[..limit], s[limit..];
    FoldNothing(op, ident);
    var acc0, acc1 := ident, ident;
    assert low[..0] == [] && high[..0] == [];
    for i := 0 to limit
      modifies {}
      invariant acc0 == Fold(op, ident, low[..i]) && acc1 == Fold(op, ident, high[..i])
    {
      FoldNext(op, ident, low, i);
      FoldNext(op, ident, high, i);
      acc0 := op(acc0, mem[v.start + i]);
      acc1 := op(acc1, mem[v.start + limit + i]);
    }
    for i := limit * 2 to v.len
      modifies {}
      invariant acc1 == Fold(op, ident, high[..i - limit])
    {
      FoldNext(op, ident, high, i - limit);
      acc1 := op(acc1, mem[v.start + i]);
    }
    assert low[..limit] == low && high[..v.len - limit] == high && s == low + high;
    FoldSplit(op, ident, low, high);
    mem[dest] := op(acc0, acc1);
  }

  /** combine6: even and odd elements apart. */
  method Combine6<T(!new)>(mem: array<T>, v: Vec, dest: nat, op: (T, T) -> T, ident: T)
    requires Fits(mem, v, dest) && Associative(op) && Commutative(op) && Unit(op, ident)
    modifies mem
    ensures Stored(mem, dest, Fold(op, ident, old(View(mem, v))))
  {
    hide Fold, Associative, Commutative, Unit;
    ghost var s := View(mem, v);
    var acc0, acc1 := ident, ident;
    TwoStart(op, ident, s);
    var limit := v.len - 1;
    var i := 0;
    while i < limit
      modifies {}
      invariant i <= v.len && op(acc0, acc1) == Fold(op, ident, s[..i])
    {
      FoldNext(op, ident, s, i);
      FoldNext(op, ident, s, i + 1);
      Into0(op, acc0, acc1, s[i]);
      acc0 := op(acc0, mem[v.start + i]);
      AssociativeAt(op, acc0, acc1, s[i + 1]);
      acc1 := op(acc1, mem[v.start + i + 1]);
      i := i + 2;
    }
    while i < v.len
      modifies {}
      invariant i <= v.len && op(acc0, acc1) == Fold(op, ident, s[..i])
    {
      FoldNext(op, ident, s, i);
      Into0(op, acc0, acc1, s[i]);
      acc0 := op(acc0, mem[v.start + i]);
      i := i + 1;
    }
    assert s[..i] == s;
    mem[dest] := op(acc0, acc1);
  }

  lemma TwoStart<T(!new)>(op: (T, T) -> T, ident: T, s: seq<T>)
    requires Unit(op, ident)
    ensures op(ident, ident) == Fold(op, ident, s[..0])
  {
  }

  lemma Into0<T(!new)>(op: (T, T) -> T, acc0: T, acc1: T, x: T)
    requires Associative(op) && Commutative(op)
    ensures op(op(acc0, x), acc1) == op(op(acc0, acc1), x)
  {
    AssociativeAt(op, acc0, x, acc1);
    AssociativeAt(op, acc0, acc1, x);
    assert op(x, acc1) == op(acc1, x);
  }

  /** Every form that unrolls the loop into several accumulators: n elements a turn, read by the
      statements acc_into[t] = acc_into[t] OP terms[t] in any order and any parentheses, leftovers
      into accumulator rest, and the k accumulators combined in any order and any parentheses. */
  method Unrolled<T(!new)>(mem: array<T>, v: Vec, dest: nat, op: (T, T) -> T, ident: T,
                           k: nat, into: seq<nat>, terms: seq<Grouping>, n: nat, rest: nat, g: Grouping)
    requires Fits(mem, v, dest) && Associative(op) && Commutative(op) && Unit(op, ident)
    requires n > 0 && |into| == |terms| && Permutes(Offsets(terms), n)
    requires rest < k && (forall t :: 0 <= t < |into| ==> into[t] < k) && Permutes(Accs(g), k)
    modifies mem
    ensures Stored(mem, dest, Fold(op, ident, old(View(mem, v))))
  {
    hide Fold, Associative, Commutative, Unit, Eval, Permutes, Offsets, Accs, Pick;
    PermutesBelow(Offsets(terms), n);
    OffsetsBelow(terms, n);
    ghost var s := View(mem, v);
    var accs := seq(k, _ => ident);
    FoldUnits(op, ident, accs);
    FoldNothing(op, ident);
    var limit := v.len - (n - 1);
    var i := 0;
    assert s[..0] == [];
    while i < limit
      modifies {}
      invariant i <= v.len && |accs| == k && Fold(op, ident, accs) == Fold(op, ident, s[..i])
    {
      var data := mem[v.start + i..v.start + i + n];
      PartOfView(mem, v, i, n);
      ghost var f := Fold(op, ident, accs);
      TurnStarts(op, ident, f, terms, data);
      for t := 0 to |terms|
        modifies {}
        invariant |accs| == k
        invariant Fold(op, ident, accs) == op(f, Fold(op, ident, Pick(data, Offsets(terms[..t]))))
      {
        OffsetsNext(terms, t);
        StatementFolds(op, ident, accs, into[t], terms[t], data, Offsets(terms[..t]), f);
        accs := accs[into[t] := op(accs[into[t]], Eval(op, terms[t], data))];
      }
      assert terms[..|terms|] == terms;
      TurnFolds(op, ident, s, i, n, Offsets(terms));
      i := i + n;
    }
    while i < v.len
      modifies {}
      invariant i <= v.len && |accs| == k && Fold(op, ident, accs) == Fold(op, ident, s[..i])
    {
      FoldNext(op, ident, s, i);
      FoldUpdate(op, ident, accs, rest, s[i]);
      accs := accs[rest := op(accs[rest], mem[v.start + i])];
      i := i + 1;
    }
    assert s[..i] == s;
    CombineAll(op, ident, g, accs);
    mem[dest] := Eval(op, g, accs);
  }

  lemma TurnStarts<T(!new)>(op: (T, T) -> T, ident: T, f: T, terms: seq<Grouping>, data: seq<T>)
    requires Unit(op, ident)
    ensures Offsets(terms[..0]) == []
    ensures f == op(f, Fold(op, ident, Pick(data, Offsets(terms[..0]))))
  {
  }

  /** Every form that unrolls the loop into one accumulator: a turn adds expressions over its n
      elements, read in order with any parentheses. Associativity is enough. */
  method OneAccumulator<T(!new)>(mem: array<T>, v: Vec, dest: nat, op: (T, T) -> T, ident: T,
                                 terms: seq<Grouping>, n: nat)
    requires Fits(mem, v, dest) && Associative(op)
    requires n > 0 && Offsets(terms) == Numbers(n)
    modifies mem
    ensures Stored(mem, dest, Fold(op, ident, old(View(mem, v))))
  {
    hide Fold, Associative, Eval, Offsets, Accs, Pick;
    assert forall i :: i in Numbers(n) ==> i < n;
    OffsetsBelow(terms, n);
    ghost var s := View(mem, v);
    FoldNothing(op, ident);
    var acc := ident;
    var limit := v.len - (n - 1);
    var i := 0;
    assert s[..0] == [];
    while i < limit
      modifies {}
      invariant i <= v.len && acc == Fold(op, ident, s[..i])
    {
      var data := mem[v.start + i..v.start + i + n];
      PartOfView(mem, v, i, n);
      ghost var x := acc;
      PickNothing(op, x, data, terms);
      for t := 0 to |terms|
        modifies {}
        invariant acc == Fold(op, x, Pick(data, Offsets(terms[..t])))
      {
        OffsetsNext(terms, t);
        StatementAppends(op, x, acc, terms[t], data, Offsets(terms[..t]));
        acc := op(acc, Eval(op, terms[t], data));
      }
      assert terms[..|terms|] == terms;
      TurnAppends(op, ident, s, i, n);
      i := i + n;
    }
    while i < v.len
      modifies {}
      invariant i <= v.len && acc == Fold(op, ident, s[..i])
    {
      FoldNext(op, ident, s, i);
      acc := op(acc, mem[v.start + i]);
      i := i + 1;
    }
    assert s[..i] == s;
    mem[dest] := acc;
  }

  lemma PickNothing<T(!new)>(op: (T, T) -> T, x: T, data: seq<T>, terms: seq<Grouping>)
    ensures Offsets(terms[..0]) == [] && x == Fold(op, x, Pick(data, Offsets(terms[..0])))
  {
  }

  lemma StatementAppends<T(!new)>(op: (T, T) -> T, x: T, acc: T, g: Grouping, w: seq<T>, done: seq<nat>)
    requires Associative(op) && (forall i :: i in done ==> i < |w|) && forall i :: i in Accs(g) ==> i < |w|
    requires acc == Fold(op, x, Pick(w, done))
    ensures forall i :: i in done + Accs(g) ==> i < |w|
    ensures op(acc, Eval(op, g, w)) == Fold(op, x, Pick(w, done + Accs(g)))
  {
    hide Fold, Associative, Eval, Accs;
    EvalOnto(op, acc, g, w);
    PickBoth(w, done, Accs(g));
    FoldAppend(op, x, Pick(w, done), Pick(w, Accs(g)));
  }

  lemma TurnAppends<T(!new)>(op: (T, T) -> T, ident: T, s: seq<T>, i: nat, n: nat)
    requires i + n <= |s|
    ensures forall k :: k in Numbers(n) ==> k < n
    ensures Fold(op, Fold(op, ident, s[..i]), Pick(s[i..i + n], Numbers(n))) == Fold(op, ident, s[..i + n])
  {
    hide Fold;
    assert Pick(s[i..i + n], Numbers(n)) == s[i..i + n];
    assert s[..i + n] == s[..i] + s[i..i + n];
    FoldAppend(op, ident, s[..i], s[i..i + n]);
  }

  /** unroll8x4: eight elements at a time into four accumulators, leftovers into the last one, which
      is then combined first. */
  method Unroll8x4<T(!new)>(mem: array<T>, v: Vec, dest: nat, op: (T, T) -> T, ident: T)
    requires Fits(mem, v, dest) && Associative(op) && Commutative(op) && Unit(op, ident)
    modifies mem
    ensures Stored(mem, dest, Fold(op, ident, old(View(mem, v))))
  {
    hide Fold, Associative, Commutative, Unit;
    ghost var s := View(mem, v);
    var acc0, acc1, acc2, acc3 := ident, ident, ident, ident;
    FoldUnits(op, ident, [acc0, acc1, acc2, acc3]);
    FoldNothing(op, ident);
    var data := 0;
    var dend := v.len - 7;
    assert s[..0] == [];
    while data < dend
      modifies {}
      invariant data <= v.len && Fold(op, ident, [acc0, acc1, acc2, acc3]) == Fold(op, ident, s[..data])
    {
      acc0, acc1, acc2, acc3 := Four(mem, v, data, op, ident, s, acc0, acc1, acc2, acc3);
      acc0, acc1, acc2, acc3 := Four(mem, v, data + 4, op, ident, s, acc0, acc1, acc2, acc3);
      data := data + 8;
    }
    dend := dend + 7;
    while data < dend
      modifies {}
      invariant data <= v.len && Fold(op, ident, [acc0, acc1, acc2, acc3]) == Fold(op, ident, s[..data])
    {
      FoldNext(op, ident, s, data);
      FoldUpdate(op, ident, [acc0, acc1, acc2, acc3], 3, s[data]);
      assert [acc0, acc1, acc2, acc3][3 := op(acc3, s[data])] == [acc0, acc1, acc2, op(acc3, s[data])];
      acc3 := op(acc3, mem[v.start + data]);
      data := data + 1;
    }
    assert s[..data] == s;
    LastFirst(op, ident, acc0, acc1, acc2, acc3);
    mem[dest] := op(op(op(acc3, acc0), acc1), acc2);
  }

  /** Half of one turn of unroll8x4. */
  method Four<T(!new)>(mem: array<T>, v: Vec, data: nat, op: (T, T) -> T, ident: T, ghost s: seq<T>,
                       a0: T, a1: T, a2: T, a3: T) returns (acc0: T, acc1: T, acc2: T, acc3: T)
    requires v.start + v.len <= mem.Length && s == View(mem, v) && data + 4 <= v.len
    requires Associative(op) && Commutative(op)
    requires Fold(op, ident, [a0, a1, a2, a3]) == Fold(op, ident, s[..data])
    ensures Fold(op, ident, [acc0, acc1, acc2, acc3]) == Fold(op, ident, s[..data + 4])
    ensures acc0 == op(a0, s[data]) && acc1 == op(a1, s[data + 1])
    ensures acc2 == op(a2, s[data + 2]) && acc3 == op(a3, s[data + 3])
  {
    hide Fold, Associative, Commutative;
    ghost var accs := [a0, a1, a2, a3];
    for j := 0 to 4
      invariant |accs| == 4 && Fold(op, ident, accs) == Fold(op, ident, s[..data + j])
      invariant forall k :: 0 <= k < 4 ==> accs[k] == if k < j then op([a0, a1, a2, a3][k], s[data + k]) else [a0, a1, a2, a3][k]
    {
      FoldNext(op, ident, s, data + j);
      FoldUpdate(op, ident, accs, j, s[data + j]);
      accs := accs[j := op(accs[j], s[data + j])];
    }
    acc0 := op(a0, mem[v.start + data]);
    acc1 := op(a1, mem[v.start + data + 1]);
    acc2 := op(a2, mem[v.start + data + 2]);
    acc3 := op(a3, mem[v.start + data + 3]);
    assert accs == [acc0, acc1, acc2, acc3];
  }

  lemma LastFirst<T(!new)>(op: (T, T) -> T, ident: T, a: T, b: T, c: T, d: T)
    requires Associative(op) && Commutative(op) && Unit(op, ident)
    ensures op(op(op(d, a), b), c) == Fold(op, ident, [a, b, c, d])
  {
    hide Fold;
    FoldFour(op, ident, a, b, c, d);
    AssociativeAt(op, d, a, b);
    AssociativeAt(op, d, op(a, b), c);
  }

  lemma FoldFour<T(!new)>(op: (T, T) -> T, ident: T, a: T, b: T, c: T, d: T)
    requires Unit(op, ident)
    ensures Fold(op, ident, [a, b, c, d]) == op(op(op(a, b), c), d)
  {
    assert [a, b, c, d][..3] == [a, b, c] && [a, b, c][..2] == [a, b] && [a, b][..1] == [a] && [a][..0] == [];
    assert Fold(op, ident, [a]) == a;
    assert Fold(op, ident, [a, b]) == op(a, b);
    assert Fold(op, ident, [a, b, c]) == op(op(a, b), c);
  }
}
