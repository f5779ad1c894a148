/** What the time-stamped array means: per set, the most recently used tags in order. */
module LruTheory {
  import opened CacheModel
  import opened Sums

  // ----- The simple thing the array encodes -----

  function Remove(rec: seq<int>, tag: int): seq<int> {
    if rec == [] then [] else if rec[0] == tag then rec[1..] else [rec[0]] + Remove(rec[1..], tag)
  }

  function Take(rec: seq<int>, n: nat): seq<int> {
    if |rec| <= n then rec else rec[..n]
  }

  /** Using a tag moves it to the front of a list that keeps at most cap tags. */
  function Touch(rec: seq<int>, tag: int, cap: nat): seq<int> {
    Take([tag] + Remove(rec, tag), cap)
  }

  /** The list of a cap-way LRU set after a sequence of uses. */
  function LruList(cap: nat, uses: seq<int>): seq<int> {
    if uses == [] then [] else Touch(LruList(cap, uses[..|uses| - 1]), uses[|uses| - 1], cap)
  }

  /** Every tag used so far, the most recent first: no capacity at all. */
  function Stack(uses: seq<int>): seq<int> {
    if uses == [] then []
    else [uses[|uses| - 1]] + Remove(Stack(uses[..|uses| - 1]), uses[|uses| - 1])
  }

  ghost predicate Distinct(rec: seq<int>) {
    forall i, j :: 0 <= i < j < |rec| ==> rec[i] != rec[j]
  }

  lemma {:induction false} RemoveAt(rec: seq<int>, q: nat)
    requires q < |rec| && rec[q] !in rec[..q]
    ensures Remove(rec, rec[q]) == rec[..q] + rec[q + 1..]
  {
    if q > 0 {
      assert rec[0] == rec[..q][0];
      assert rec[1..][..q - 1] == rec[..q][1..];
      RemoveAt(rec[1..], q - 1);
      assert rec[..q] + rec[q + 1..] == [rec[0]] + (rec[1..][..q - 1] + rec[1..][q..]);
    }
  }

  lemma {:induction false} RemoveAbsent(rec: seq<int>, tag: int)
    requires tag !in rec
    ensures Remove(rec, tag) == rec
  {
    if rec != [] { RemoveAbsent(rec[1..], tag); }
  }

  lemma {:induction false} RemoveDistinct(rec: seq<int>, tag: int)
    requires Distinct(rec)
    ensures Distinct(Remove(rec, tag)) && tag !in Remove(rec, tag)
    ensures forall x :: x in Remove(rec, tag) <==> x in rec && x != tag
  {
    if rec == [] {
    } else if rec[0] == tag {
      assert forall x :: x in rec <==> x == rec[0] || x in rec[1..];
      assert forall k :: 0 <= k < |rec[1..]| ==> rec[1..][k] == rec[k + 1] != tag;
    } else {
      RemoveDistinct(rec[1..], tag);
      var r := Remove(rec[1..], tag);
      forall i, j | 0 <= i < j < |[rec[0]] + r| ensures ([rec[0]] + r)[i] != ([rec[0]] + r)[j] {
        if i == 0 {
          assert r[j - 1] in r;
          var k :| 0 <= k < |rec[1..]| && rec[1..][k] == r[j - 1];
          assert rec[k + 1] == r[j - 1];
        }
      }
    }
  }

  lemma {:induction false} StackDistinct(uses: seq<int>)
    ensures Distinct(Stack(uses))
    ensures forall x :: x in Stack(uses) <==> x in uses
  {
    if uses != [] {
      var h := uses[..|uses| - 1];
      StackDistinct(h);
      RemoveDistinct(Stack(h), uses[|uses| - 1]);
      assert uses == h + [uses[|uses| - 1]];
      assert forall j :: 0 < j < |Stack(uses)| ==> Stack(uses)[j] in Remove(Stack(h), uses[|uses| - 1]);
    }
  }

  /** The position of the last use of x. */
  function LastUse(uses: seq<int>, x: int): int {
    if uses == [] then -1 else if uses[|uses| - 1] == x then |uses| - 1 else LastUse(uses[..|uses| - 1], x)
  }

  lemma {:induction false} LastUseBound(uses: seq<int>, x: int)
    ensures LastUse(uses, x) < |uses|
  {
    if uses != [] { LastUseBound(uses[..|uses| - 1], x); }
  }

  /** Removing keeps the order of what stays. */
  lemma {:induction false} RemoveKeepsOrder(rec: seq<int>, x: int, i: nat, j: nat) returns (a: nat, b: nat)
    requires i < j < |Remove(rec, x)|
    ensures a < b < |rec| && rec[a] == Remove(rec, x)[i] && rec[b] == Remove(rec, x)[j]
  {
    if rec[0] == x {
      a, b := i + 1, j + 1;
    } else if i > 0 {
      a, b := RemoveKeepsOrder(rec[1..], x, i - 1, j - 1);
      a, b := a + 1, b + 1;
    } else {
      var r := Remove(rec[1..], x);
      RemoveMember(rec[1..], x, r[j - 1]);
      var k: nat :| k < |rec[1..]| && rec[1..][k] == r[j - 1];
      a, b := 0, k + 1;
    }
  }

  lemma {:induction false} RemoveMember(rec: seq<int>, x: int, y: int)
    requires y in Remove(rec, x)
    ensures y in rec
  {
    if rec[0] != x && y != rec[0] { RemoveMember(rec[1..], x, y); }
  }

  ghost predicate ByLastUse(rec: seq<int>, uses: seq<int>) {
    forall i, j :: 0 <= i < j < |rec| ==> LastUse(uses, rec[i]) > LastUse(uses, rec[j])
  }

  lemma RemoveByLastUse(rec: seq<int>, uses: seq<int>, x: int)
    requires ByLastUse(rec, uses)
    ensures ByLastUse(Remove(rec, x), uses)
  {
    var r := Remove(rec, x);
    forall i, j | 0 <= i < j < |r| ensures LastUse(uses, r[i]) > LastUse(uses, r[j]) {
      var a, b := RemoveKeepsOrder(rec, x, i, j);
    }
  }

  lemma UseAgain(rec: seq<int>, h: seq<int>, x: int)
    requires ByLastUse(rec, h) && x !in rec
    ensures ByLastUse([x] + rec, h + [x])
  {
    var uses := h + [x];
    assert uses[..|uses| - 1] == h;
    forall k | 0 <= k < |rec| ensures LastUse(uses, rec[k]) == LastUse(h, rec[k]) < |h| {
      assert rec[k] in rec;
      LastUseBound(h, rec[k]);
    }
  }

  /** The stack is ordered by last use: its first E tags are the E most recently used ones. */
  lemma {:induction false} StackByLastUse(uses: seq<int>)
    ensures ByLastUse(Stack(uses), uses)
  {
    if uses != [] {
      var h, x := uses[..|uses| - 1], uses[|uses| - 1];
      StackByLastUse(h);
      StackDistinct(h);
      RemoveDistinct(Stack(h), x);
      RemoveByLastUse(Stack(h), h, x);
      UseAgain(Remove(Stack(h), x), h, x);
      assert uses == h + [x];
    }
  }

  lemma {:induction false} TakeRemoveTake(rec: seq<int>, tag: int, cap: nat)
    requires cap > 0
    ensures Touch(Take(rec, cap), tag, cap) == Touch(rec, tag, cap)
  {
    if |rec| > cap {
      RemovePrefix(rec, tag, cap);
      var a, b := Remove(rec[..cap], tag), Remove(rec, tag);
      assert ([tag] + a)[..cap] == [tag] + a[..cap - 1];
      assert ([tag] + b)[..cap] == [tag] + b[..cap - 1];
      assert |a| == cap - 1 ==> [tag] + a == [tag] + a[..cap - 1];
    }
  }

  lemma {:induction false} RemovePrefix(rec: seq<int>, tag: int, cap: nat)
    requires 0 < cap < |rec|
    ensures |Remove(rec, tag)| >= cap && cap - 1 <= |Remove(rec[..cap], tag)| <= cap
    ensures Remove(rec[..cap], tag)[..cap - 1] == Remove(rec, tag)[..cap - 1]
  {
    RemoveLength(rec, tag);
    RemoveLength(rec[..cap], tag);
    if rec[0] == tag {
      assert rec[..cap][1..] == rec[1..][..cap - 1];
    } else if cap == 1 {
    } else {
      assert rec[..cap][1..] == rec[1..][..cap - 1];
      RemovePrefix(rec[1..], tag, cap - 1);
      var a, b := Remove(rec[1..][..cap - 1], tag), Remove(rec[1..], tag);
      assert ([rec[0]] + a)[..cap - 1] == [rec[0]] + a[..cap - 2];
      assert ([rec[0]] + b)[..cap - 1] == [rec[0]] + b[..cap - 2];
    }
  }

  lemma {:induction false} RemoveLength(rec: seq<int>, tag: int)
    ensures |rec| - 1 <= |Remove(rec, tag)| <= |rec|
  {
    if rec != [] { RemoveLength(rec[1..], tag); }
  }

  /** The stack property: the E-way list is the first E entries of the one stack. */
  lemma {:induction false} LruIsStackPrefix(cap: nat, uses: seq<int>)
    requires cap > 0
    ensures LruList(cap, uses) == Take(Stack(uses), cap)
  {
    if uses != [] {
      LruIsStackPrefix(cap, uses[..|uses| - 1]);
      TakeRemoveTake(Stack(uses[..|uses| - 1]), uses[|uses| - 1], cap);
    }
  }

  // ----- What a set of lines represents -----

  /** The valid lines are the first n. */
  ghost predicate ValidPrefix(ls: seq<Line>, n: nat) {
    n <= |ls| && forall i :: 0 <= i < |ls| ==> (ls[i].valid <==> i < n)
  }

  ghost predicate DistinctTags(ls: seq<Line>, n: nat) {
    n <= |ls| && forall i, j :: 0 <= i < j < n ==> ls[i].tag != ls[j].tag
  }

  /** p is an arrangement of the numbers below its length. */
  ghost predicate Arrangement(p: seq<nat>) {
    (forall a :: 0 <= a < |p| ==> p[a] < |p|) && (forall i :: 0 <= i < |p| ==> i in p)
  }

  ghost predicate Decreasing(ls: seq<Line>, p: seq<nat>) {
    && (forall a :: 0 <= a < |p| ==> p[a] < |ls|)
    && forall a, b :: 0 <= a < b < |p| ==> ls[p[a]].timer > ls[p[b]].timer
  }

  /** p lists the valid lines of a set, the most recently stamped first. */
  ghost predicate Ordered(ls: seq<Line>, p: seq<nat>) {
    ValidPrefix(ls, |p|) && DistinctTags(ls, |p|) && Arrangement(p) && Decreasing(ls, p)
  }

  function Tags(ls: seq<Line>, p: seq<nat>): (rec: seq<int>)
    requires forall a :: 0 <= a < |p| ==> p[a] < |ls|
    ensures |rec| == |p|
  {
    seq(|p|, a requires 0 <= a < |p| => ls[p[a]].tag)
  }

  /** The set's valid lines are a prefix with distinct tags and timers, and rec lists the tags by
      decreasing timer. */
  ghost predicate Represents(ls: seq<Line>, rec: seq<int>) {
    exists p :: Ordered(ls, p) && rec == Tags(ls, p)
  }

  ghost predicate Older(ls: seq<Line>, t: nat) {
    forall i :: 0 <= i < |ls| && ls[i].valid ==> ls[i].timer < t
  }

  ghost predicate BelowSentinel(ls: seq<Line>) {
    exists i :: 0 <= i < |ls| && ls[i].timer < SENTINEL
  }

  /** The place of a line in the order. */
  lemma Place(ls: seq<Line>, p: seq<nat>, i: nat) returns (a: nat)
    requires Ordered(ls, p) && i < |p|
    ensures a < |p| && p[a] == i
  {
    assert i in p;
    a :| a < |p| && p[a] == i;
  }

  lemma OrderedDistinct(ls: seq<Line>, p: seq<nat>)
    requires Ordered(ls, p)
    ensures forall a, b :: 0 <= a < b < |p| ==> p[a] != p[b]
    ensures Distinct(Tags(ls, p))
  {
    forall a, b | 0 <= a < b < |p| ensures p[a] != p[b] && ls[p[a]].tag != ls[p[b]].tag {
      assert ls[p[a]].timer > ls[p[b]].timer;
    }
  }

  function ToFront(p: seq<nat>, q: nat): seq<nat>
    requires q < |p|
  {
    [p[q]] + (p[..q] + p[q + 1..])
  }

  lemma ToFrontAt(p: seq<nat>, q: nat)
    requires q < |p|
    ensures |ToFront(p, q)| == |p| && ToFront(p, q)[0] == p[q]
    ensures forall a :: 0 < a < |p| ==> ToFront(p, q)[a] == if a <= q then p[a - 1] else p[a]
    ensures forall i :: i in p ==> i in ToFront(p, q)
  {
    var f := ToFront(p, q);
    forall i | i in p ensures i in f {
      var a :| 0 <= a < |p| && p[a] == i;
      assert f[if a == q then 0 else if a < q then a + 1 else a] == i;
    }
  }

  /** Restamping the line at place q of the order, with a tag no other line has. */
  lemma Restamp(ls: seq<Line>, p: seq<nat>, q: nat, tag: int, t: nat)
    requires Ordered(ls, p) && Older(ls, t) && q < |p|
    requires forall i :: 0 <= i < |p| && i != p[q] ==> ls[i].tag != tag
    ensures Ordered(ls[p[q] := Line(t, tag, true)], ToFront(p, q))
    ensures Tags(ls[p[q] := Line(t, tag, true)], ToFront(p, q))
         == [tag] + (Tags(ls, p)[..q] + Tags(ls, p)[q + 1..])
  {
    RestampShape(ls, p, q, tag, t);
    RestampDecreasing(ls, p, q, tag, t);
    RestampTags(ls, p, q, tag, t);
  }

  lemma RestampShape(ls: seq<Line>, p: seq<nat>, q: nat, tag: int, t: nat)
    requires Ordered(ls, p) && q < |p|
    requires forall i :: 0 <= i < |p| && i != p[q] ==> ls[i].tag != tag
    ensures var ls', p' := ls[p[q] := Line(t, tag, true)], ToFront(p, q);
      |p'| == |p| && Arrangement(p') && ValidPrefix(ls', |p|) && DistinctTags(ls', |p|)
  {
    ToFrontAt(p, q);
  }

  lemma RestampTags(ls: seq<Line>, p: seq<nat>, q: nat, tag: int, t: nat)
    requires Ordered(ls, p) && q < |p|
    ensures |ToFront(p, q)| == |p| && forall a :: 0 <= a < |p| ==> ToFront(p, q)[a] < |ls|
    ensures Tags(ls[p[q] := Line(t, tag, true)], ToFront(p, q))
         == [tag] + (Tags(ls, p)[..q] + Tags(ls, p)[q + 1..])
  {
    OrderedDistinct(ls, p);
    ToFrontAt(p, q);
    var ls' := ls[p[q] := Line(t, tag, true)];
    var rec, rec' := Tags(ls, p), Tags(ls', ToFront(p, q));
    var want := [tag] + (rec[..q] + rec[q + 1..]);
    assert |rec'| == |want| && forall a :: 0 <= a < |rec'| ==> rec'[a] == want[a];
  }

  lemma RestampDecreasing(ls: seq<Line>, p: seq<nat>, q: nat, tag: int, t: nat)
    requires Ordered(ls, p) && Older(ls, t) && q < |p|
    ensures Decreasing(ls[p[q] := Line(t, tag, true)], ToFront(p, q))
  {
    OrderedDistinct(ls, p);
    ToFrontAt(p, q);
    var ls' := ls[p[q] := Line(t, tag, true)];
    var p' := ToFront(p, q);
    forall a | 0 < a < |p'| ensures ls'[p'[a]] == ls[p'[a]] && ls[p'[a]].timer < t {
      assert ls[p'[a]].valid;
    }
  }

  /** Filling the first invalid line. */
  lemma Append(ls: seq<Line>, p: seq<nat>, tag: int, t: nat)
    requires Ordered(ls, p) && Older(ls, t) && |p| < |ls|
    requires forall i :: 0 <= i < |p| ==> ls[i].tag != tag
    ensures Ordered(ls[|p| := Line(t, tag, true)], [|p|] + p)
    ensures Tags(ls[|p| := Line(t, tag, true)], [|p|] + p) == [tag] + Tags(ls, p)
  {
    var ls' := ls[|p| := Line(t, tag, true)];
    var p' := [|p|] + p;
    forall i | 0 <= i < |p'| ensures i in p' {
      if i == |p| { assert p'[0] == i; } else {
        var a := Place(ls, p, i);
        assert p'[a + 1] == i;
      }
    }
    forall a, b | 0 <= a < b < |p'| ensures ls'[p'[a]].timer > ls'[p'[b]].timer {
      assert p'[b] == p[b - 1];
      assert ls[p'[b]].valid;
      if a > 0 { assert p'[a] == p[a - 1]; }
    }
  }

  lemma {:induction false} SlotMeaning(ls: seq<Line>, p: seq<nat>, tag: int)
    requires Ordered(ls, p)
    ensures var l := Slot(ls, tag);
      && l <= |p|
      && (l < |p| ==> ls[l].tag == tag && ls[l].valid && tag in Tags(ls, p))
      && (l == |p| ==> tag !in Tags(ls, p) && forall i :: 0 <= i < |p| ==> ls[i].tag != tag)
  {
    var l := Slot(ls, tag);
    if |p| < |ls| { assert !ls[|p|].valid; }
    if l < |p| {
      var a := Place(ls, p, l);
      assert Tags(ls, p)[a] == tag;
    } else {
      forall a | 0 <= a < |p| ensures Tags(ls, p)[a] != tag { assert p[a] < l; }
    }
  }

  /** The line the scan picks is the oldest exactly when some timer is below the sentinel, or the
      oldest happens to be the last line, the one picked when none is. */
  lemma VictimIsOldest(ls: seq<Line>, p: seq<nat>)
    requires Ordered(ls, p) && |p| == |ls| > 0
    ensures Victim(ls) < |ls|
    ensures Victim(ls) == p[|p| - 1] <==> BelowSentinel(ls) || p[|p| - 1] == |ls| - 1
  {
    ScanMeaning(ls, |ls|);
    var (best, idx) := Scan(ls, |ls|);
    var v := Victim(ls);
    var o := p[|p| - 1];
    assert v == |ls| - 1 - idx;
    if best < SENTINEL {
      assert ls[v].timer == best;
      var a := Place(ls, p, v);
      assert ls[o].timer >= best;
    }
  }

  /** What one load does to the recency list, whatever line the scan picks: the replaced line's
      tag leaves, the loaded tag goes to the front. */
  lemma LoadSetOrder(ls: seq<Line>, p: seq<nat>, tag: int, t: nat) returns (p': seq<nat>)
    requires Ordered(ls, p) && Older(ls, t) && ls != []
    ensures var (ls', outcome) := LoadSet(ls, tag, t); var rec := Tags(ls, p);
      && |ls'| == |ls| && Ordered(ls', p') && Older(ls', t + 1)
      && (outcome == Hit <==> tag in rec)
      && (outcome == Evict <==> tag !in rec && |rec| == |ls|)
      && (outcome != Evict ==> Tags(ls', p') == [tag] + Remove(rec, tag))
      && (outcome == Evict ==>
            exists q :: 0 <= q < |p| && p[q] == Victim(ls) && Tags(ls', p') == [tag] + (rec[..q] + rec[q + 1..]))
  {
    SlotMeaning(ls, p, tag);
    OrderedDistinct(ls, p);
    var l := Slot(ls, tag);
    var rec := Tags(ls, p);
    if l < |p| {
      var q := Place(ls, p, l);
      Restamp(ls, p, q, tag, t);
      assert ls[l].(timer := t) == Line(t, tag, true);
      p' := ToFront(p, q);
      assert rec[q] == tag;
      assert forall a :: 0 <= a < q ==> rec[..q][a] != tag;
      RemoveAt(rec, q);
    } else if l < |ls| {
      Append(ls, p, tag, t);
      p' := [l] + p;
      RemoveAbsent(rec, tag);
    } else {
      VictimIsOldest(ls, p);
      var q := Place(ls, p, Victim(ls));
      Restamp(ls, p, q, tag, t);
      assert ls[p[q]].valid;
      assert ls[p[q]].(tag := tag, timer := t) == Line(t, tag, true);
      p' := ToFront(p, q);
    }
  }

  lemma TouchOf(rec: seq<int>, tag: int, cap: nat)
    requires |rec| <= cap && cap > 0 && Distinct(rec)
    ensures tag !in rec && |rec| == cap ==> Touch(rec, tag, cap) == [tag] + rec[..|rec| - 1]
    ensures tag in rec || |rec| < cap ==> Touch(rec, tag, cap) == [tag] + Remove(rec, tag)
  {
    if tag in rec {
      var q: nat :| q < |rec| && rec[q] == tag;
      assert forall a :: 0 <= a < q ==> rec[..q][a] != tag;
      RemoveAt(rec, q);
    } else {
      RemoveAbsent(rec, tag);
      assert |rec| == cap ==> ([tag] + rec)[..cap] == [tag] + rec[..|rec| - 1];
    }
  }

  /** A tag no line has is on no list the lines represent. */
  lemma TagGone(ls: seq<Line>, rec: seq<int>, x: int)
    requires forall i :: 0 <= i < |ls| ==> ls[i].tag != x
    ensures Represents(ls, rec) ==> x !in rec
  {
    forall p | Ordered(ls, p) && rec == Tags(ls, p) ensures x !in rec {
      forall a | 0 <= a < |rec| ensures rec[a] != x { assert p[a] < |ls|; }
    }
  }

  ghost predicate OldestIsLast(ls: seq<Line>) {
    ls != [] && forall i :: 0 <= i < |ls| - 1 ==> ls[i].timer > ls[|ls| - 1].timer
  }

  /** The sentinel's hypothesis on one load: an eviction finds some timer below it, or the oldest
      line is the last one, where the scan ends up when it finds none. */
  ghost predicate SafeLoad(ls: seq<Line>, tag: int) {
    Slot(ls, tag) == |ls| ==> BelowSentinel(ls) || OldestIsLast(ls)
  }

  /** In a full set the timers say which line comes last in the order. */
  lemma OldestIsLastMeans(ls: seq<Line>, p: seq<nat>)
    requires Ordered(ls, p) && |p| == |ls| > 0
    ensures OldestIsLast(ls) <==> p[|p| - 1] == |ls| - 1
  {
    var n, o := |ls| - 1, p[|p| - 1];
    if o == n {
      forall i | 0 <= i < n ensures ls[i].timer > ls[n].timer {
        var a := Place(ls, p, i);
      }
    }
    var a := Place(ls, p, n);
    assert a < |p| - 1 ==> ls[n].timer > ls[o].timer;
  }

  /** One load is one Touch, as long as the sentinel is not reached. */
  lemma LoadSetRefinesTouch(ls: seq<Line>, rec: seq<int>, tag: int, t: nat)
    requires Represents(ls, rec) && Older(ls, t) && ls != [] && SafeLoad(ls, tag)
    ensures Represents(LoadSet(ls, tag, t).0, Touch(rec, tag, |ls|))
    ensures Older(LoadSet(ls, tag, t).0, t + 1)
    ensures LoadSet(ls, tag, t).1 == if tag in rec then Hit else if |rec| < |ls| then Fill else Evict
  {
    var p :| Ordered(ls, p) && rec == Tags(ls, p);
    var p' := LoadSetOrder(ls, p, tag, t);
    var (ls', outcome) := LoadSet(ls, tag, t);
    OrderedDistinct(ls, p);
    TouchOf(rec, tag, |ls|);
    if outcome == Evict {
      SlotMeaning(ls, p, tag);
      VictimIsOldest(ls, p);
      OldestIsLastMeans(ls, p);
      assert rec[..|p| - 1] + rec[|p|..] == rec[..|p| - 1];
    }
    assert Tags(ls', p') == Touch(rec, tag, |ls|);
  }

  /** And exactly then: a load keeps the LRU order if and only if it meets the hypothesis. */
  lemma LoadIsLruIff(ls: seq<Line>, rec: seq<int>, tag: int, t: nat)
    requires Represents(ls, rec) && Older(ls, t) && ls != []
    ensures Represents(LoadSet(ls, tag, t).0, Touch(rec, tag, |ls|)) <==> SafeLoad(ls, tag)
  {
    var p :| Ordered(ls, p) && rec == Tags(ls, p);
    SlotMeaning(ls, p, tag);
    if Slot(ls, tag) == |ls| {
      EvictionIsLruIff(ls, p, tag, t);
    } else {
      LoadSetRefinesTouch(ls, rec, tag, t);
    }
  }

  lemma EvictionIsLruIff(ls: seq<Line>, p: seq<nat>, tag: int, t: nat)
    requires Ordered(ls, p) && Older(ls, t) && |p| == |ls| > 0 && tag !in Tags(ls, p)
    ensures Represents(LoadSet(ls, tag, t).0, Touch(Tags(ls, p), tag, |ls|))
       <==> BelowSentinel(ls) || OldestIsLast(ls)
  {
    OldestIsLastMeans(ls, p);
    var rec := Tags(ls, p);
    var p' := LoadSetOrder(ls, p, tag, t);
    var ls' := LoadSet(ls, tag, t).0;
    VictimIsOldest(ls, p);
    OrderedDistinct(ls, p);
    TouchOf(rec, tag, |ls|);
    var v := Victim(ls);
    var q :| 0 <= q < |p| && p[q] == v && Tags(ls', p') == [tag] + (rec[..q] + rec[q + 1..]);
    if q == |p| - 1 {
      assert rec[..q] + rec[q + 1..] == rec[..|p| - 1];
    } else {
      // The victim's tag is on the wanted list but on no line.
      assert rec[q] == Touch(rec, tag, |ls|)[q + 1];
      SlotMeaning(ls, p, tag);
      VictimTagGone(ls, p, tag, t);
      TagGone(ls', Touch(rec, tag, |ls|), rec[q]);
    }
  }

  lemma VictimTagGone(ls: seq<Line>, p: seq<nat>, tag: int, t: nat)
    requires Ordered(ls, p) && |p| == |ls| > 0 && Slot(ls, tag) == |ls|
    ensures Victim(ls) < |ls|
    ensures forall i :: 0 <= i < |ls| ==> LoadSet(ls, tag, t).0[i].tag != ls[Victim(ls)].tag
  {
    VictimIsOldest(ls, p);
  }
}
