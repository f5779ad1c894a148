/** Sums of natural weights over a sequence. The protocol models count threads with it:
    a 0/1 weight counts the threads in a group of program points. */
module Sums {

  ghost function Sum<T>(s: seq<T>, f: T -> nat): nat
  {
    if s == [] then 0 else f(s[0]) + Sum(s[1..], f)
  }

  /** Changing one element changes the sum by the difference of the two weights. */
  lemma {:induction false} SumUpdate<T>(s: seq<T>, i: nat, x: T, f: T -> nat)
    requires i < |s|
    ensures Sum(s[i := x], f) + f(s[i]) == Sum(s, f) + f(x)
  {
    if i == 0 {
      assert s[0 := x][1..] == s[1..];
    } else {
      assert s[i := x][1..] == s[1..][i - 1 := x];
      SumUpdate(s[1..], i - 1, x, f);
    }
  }

  lemma {:induction false} SumMember<T>(s: seq<T>, i: nat, f: T -> nat)
    requires i < |s|
    ensures f(s[i]) <= Sum(s, f)
  {
    if i > 0 {
      SumMember(s[1..], i - 1, f);
    }
  }

  lemma {:induction false} SumTwoMembers<T>(s: seq<T>, i: nat, j: nat, f: T -> nat)
    requires i < j < |s|
    ensures f(s[i]) + f(s[j]) <= Sum(s, f)
  {
    if i == 0 {
      SumMember(s[1..], j - 1, f);
    } else {
      SumTwoMembers(s[1..], i - 1, j - 1, f);
    }
  }

  lemma {:induction false} SumWitness<T>(s: seq<T>, f: T -> nat) returns (i: nat)
    requires Sum(s, f) > 0
    ensures i < |s| && f(s[i]) > 0
  {
    if f(s[0]) > 0 {
      i := 0;
    } else {
      var j := SumWitness(s[1..], f);
      i := j + 1;
    }
  }

  lemma {:induction false} SumZero<T>(s: seq<T>, f: T -> nat)
    requires forall i :: 0 <= i < |s| ==> f(s[i]) == 0
    ensures Sum(s, f) == 0
  {
    if s != [] {
      assert f(s[0]) == 0;
      forall i | 0 <= i < |s[1..]| ensures f(s[1..][i]) == 0 {
        assert s[1..][i] == s[i + 1];
      }
      SumZero(s[1..], f);
    }
  }

  lemma {:induction false} SumBelow<T(!new)>(s: seq<T>, f: T -> nat, g: T -> nat)
    requires forall x: T :: f(x) <= g(x)
    ensures Sum(s, f) <= Sum(s, g)
  {
    if s != [] {
      SumBelow(s[1..], f, g);
    }
  }

  /** Two sequences that weigh the same at every position have the same sum. */
  lemma {:induction false} SumSame<T>(s: seq<T>, s': seq<T>, f: T -> nat, g: T -> nat)
    requires |s| == |s'|
    requires forall i :: 0 <= i < |s| ==> f(s[i]) == g(s'[i])
    ensures Sum(s, f) == Sum(s', g)
  {
    if s != [] {
      assert f(s[0]) == g(s'[0]);
      forall i | 0 <= i < |s[1..]| ensures f(s[1..][i]) == g(s'[1..][i]) {
        assert s[1..][i] == s[i + 1] && s'[1..][i] == s'[i + 1];
      }
      SumSame(s[1..], s'[1..], f, g);
    }
  }
}
