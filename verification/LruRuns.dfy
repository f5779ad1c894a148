/** Theorems about whole traces, from an empty cache. */
module LruRuns {
  import opened CacheModel
  import opened LruTheory
  import opened Sums

  /** The tags loaded into set s, in order. */
  function Uses(trace: seq<Record>, s: nat): seq<int> {
    if trace == [] then []
    else
      var r := trace[|trace| - 1];
      Uses(trace[..|trace| - 1], s) + if Loads(r) && r.row == s then [r.tag] else []
  }

  /** Every eviction of the run finds a timer below the sentinel, or has the oldest line last. */
  ghost predicate SafeRun(numSets: nat, E: nat, trace: seq<Record>)
    requires E > 0 && InRange(trace, numSets)
  {
    trace == [] ||
    var h, r := trace[..|trace| - 1], trace[|trace| - 1];
    SafeRun(numSets, E, h) && (Loads(r) ==> SafeLoad(Run(numSets, E, h).sets[r.row], r.tag))
  }

  // ----- What every run keeps, sentinel or not -----

  /** Valid lines are a prefix of the set, their tags and timers are distinct and in the past. */
  ghost predicate GoodSet(ls: seq<Line>, t: nat) {
    (exists p :: Ordered(ls, p)) && Older(ls, t)
  }

  lemma FreshRepresents(E: nat)
    ensures var ls := seq(E, _ => Line(0, 0, false)); Ordered(ls, []) && Represents(ls, [])
  {
    var ls := seq(E, _ => Line(0, 0, false));
    assert Ordered(ls, []) && Tags(ls, []) == [];
  }

  lemma LoadSetGood(ls: seq<Line>, tag: int, t: nat)
    requires GoodSet(ls, t) && ls != []
    ensures GoodSet(LoadSet(ls, tag, t).0, t + 1)
  {
    var p :| Ordered(ls, p);
    var p' := LoadSetOrder(ls, p, tag, t);
  }

  lemma {:induction false} RunGood(numSets: nat, E: nat, trace: seq<Record>, s: nat)
    requires E > 0 && InRange(trace, numSets) && s < numSets
    ensures GoodSet(Run(numSets, E, trace).sets[s], Run(numSets, E, trace).time)
  {
    if trace == [] {
      FreshRepresents(E);
    } else {
      var h, r := trace[..|trace| - 1], trace[|trace| - 1];
      RunGood(numSets, E, h, s);
      if Loads(r) && r.row == s { LoadSetGood(Run(numSets, E, h).sets[s], r.tag, Run(numSets, E, h).time); }
    }
  }

  function ValidBit(l: Line): nat { if l.valid then 1 else 0 }
  ghost function ValidCount(ls: seq<Line>): nat { Sum(ls, ValidBit) }

  /** Loads the records ask for: an M counts twice. */
  function Accesses(trace: seq<Record>): nat {
    if trace == [] then 0
    else
      var r := trace[|trace| - 1];
      Accesses(trace[..|trace| - 1]) + if r.op == 'M' then 2 else if r.op == 'L' || r.op == 'S' then 1 else 0
  }

  lemma LoadSetCount(ls: seq<Line>, tag: int, t: nat)
    requires ls != []
    ensures var (ls', outcome) := LoadSet(ls, tag, t);
      ValidCount(ls') == ValidCount(ls) + if outcome == Fill then 1 else 0
  {
    var l := Slot(ls, tag);
    if l < |ls| {
      SumUpdate(ls, l, LoadSet(ls, tag, t).0[l], ValidBit);
    } else {
      ScanMeaning(ls, |ls|);
      SumUpdate(ls, Victim(ls), LoadSet(ls, tag, t).0[Victim(ls)], ValidBit);
    }
  }

  /** Conservation, for every trace: each load is a hit or a miss, and the misses that evicted
      nothing are the valid lines. */
  lemma {:induction false} CountersBalance(numSets: nat, E: nat, trace: seq<Record>)
    requires E > 0 && InRange(trace, numSets)
    ensures var c := Run(numSets, E, trace);
      && c.hits + c.misses == Accesses(trace)
      && c.misses == c.evictions + Sum(c.sets, ValidCount)
  {
    if trace == [] {
      SumZero(seq(E, _ => Line(0, 0, false)), ValidBit);
      SumZero(Fresh(numSets, E).sets, ValidCount);
    } else {
      var h, r := trace[..|trace| - 1], trace[|trace| - 1];
      CountersBalance(numSets, E, h);
      if Loads(r) {
        var c := Run(numSets, E, h);
        LoadSetCount(c.sets[r.row], r.tag, c.time);
        SumUpdate(c.sets, r.row, LoadSet(c.sets[r.row], r.tag, c.time).0, ValidCount);
      }
    }
  }

  /** How many records load. */
  function LoadCount(trace: seq<Record>): nat {
    if trace == [] then 0
    else
      var r := trace[|trace| - 1];
      LoadCount(trace[..|trace| - 1]) + if r.op == 'L' || r.op == 'S' || r.op == 'M' then 1 else 0
  }

  /** The clock: one tick for each load, a modify being one, and one more for each eviction. */
  lemma {:induction false} ClockCounts(numSets: nat, E: nat, trace: seq<Record>)
    requires E > 0 && InRange(trace, numSets)
    ensures Run(numSets, E, trace).time == LoadCount(trace) + Run(numSets, E, trace).evictions
  {
    hide LoadSet;
    if trace != [] { ClockCounts(numSets, E, trace[..|trace| - 1]); }
  }

  lemma {:induction false} TimeBound(numSets: nat, E: nat, trace: seq<Record>)
    requires E > 0 && InRange(trace, numSets)
    ensures Run(numSets, E, trace).time <= 2 * |trace|
  {
    if trace != [] { TimeBound(numSets, E, trace[..|trace| - 1]); }
  }

  /** Half a million records never reach the sentinel. */
  lemma {:induction false} ShortRunsAreSafe(numSets: nat, E: nat, trace: seq<Record>)
    requires E > 0 && InRange(trace, numSets) && |trace| <= 500000
    ensures SafeRun(numSets, E, trace)
  {
    if trace != [] {
      var h, r := trace[..|trace| - 1], trace[|trace| - 1];
      ShortRunsAreSafe(numSets, E, h);
      var ls := Run(numSets, E, h).sets[r.row];
      RunGood(numSets, E, h, r.row);
      TimeBound(numSets, E, h);
      if Slot(ls, r.tag) == |ls| { assert ls[0].valid && ls[0].timer < SENTINEL; }
    }
  }

  // ----- Refinement of the LRU list -----

  /** One more load, seen as a use of the LRU list. */
  lemma NextLoad(numSets: nat, E: nat, h: seq<Record>, s: nat, tag: int)
    requires E > 0 && InRange(h, numSets) && SafeRun(numSets, E, h) && s < numSets
    requires SafeLoad(Run(numSets, E, h).sets[s], tag)
    ensures var c := Run(numSets, E, h); var (ls, outcome) := LoadSet(c.sets[s], tag, c.time);
      && Represents(ls, LruList(E, Uses(h, s) + [tag]))
      && (outcome == Hit <==> tag in LruList(E, Uses(h, s)))
    decreases |h|, 1
  {
    RunRefinesLru(numSets, E, h, s);
    RunGood(numSets, E, h, s);
    var c, uses := Run(numSets, E, h), Uses(h, s);
    LoadSetRefinesTouch(c.sets[s], LruList(E, uses), tag, c.time);
    assert (uses + [tag])[..|uses + [tag]| - 1] == uses;
  }

  /** The simulator refines LRU: each set's lines are the most recently used tags in order. */
  lemma {:induction false} RunRefinesLru(numSets: nat, E: nat, trace: seq<Record>, s: nat)
    requires E > 0 && InRange(trace, numSets) && SafeRun(numSets, E, trace) && s < numSets
    ensures Represents(Run(numSets, E, trace).sets[s], LruList(E, Uses(trace, s)))
    decreases |trace|, 0
  {
    if trace == [] {
      FreshRepresents(E);
    } else {
      var h, r := trace[..|trace| - 1], trace[|trace| - 1];
      if Loads(r) && r.row == s {
        NextLoad(numSets, E, h, s, r.tag);
      } else {
        RunRefinesLru(numSets, E, h, s);
        assert Uses(trace, s) == Uses(h, s);
      }
    }
  }

  /** A direct-mapped cache has no choice of line, so no run of it is spoilt by the sentinel. */
  lemma {:induction false} DirectMappedIsSafe(numSets: nat, trace: seq<Record>)
    requires InRange(trace, numSets)
    ensures SafeRun(numSets, 1, trace)
  {
    if trace != [] {
      var h, r := trace[..|trace| - 1], trace[|trace| - 1];
      DirectMappedIsSafe(numSets, h);
      assert OldestIsLast(Run(numSets, 1, h).sets[r.row]);
    }
  }

  /** Every set holds what an E-way LRU set holds. */
  ghost predicate IsLru(numSets: nat, E: nat, trace: seq<Record>)
    requires E > 0 && InRange(trace, numSets)
  {
    forall s :: 0 <= s < numSets ==> Represents(Run(numSets, E, trace).sets[s], LruList(E, Uses(trace, s)))
  }

  /** The simulator is an LRU cache all through a run exactly when the run meets the hypothesis. */
  lemma {:induction false} RunIsLruIff(numSets: nat, E: nat, trace: seq<Record>)
    requires E > 0 && InRange(trace, numSets)
    ensures (forall k :: 0 <= k <= |trace| ==> IsLru(numSets, E, trace[..k])) <==> SafeRun(numSets, E, trace)
  {
    if trace == [] {
      FreshRepresents(E);
      assert trace[..0] == [];
    } else {
      var h, r := trace[..|trace| - 1], trace[|trace| - 1];
      RunIsLruIff(numSets, E, h);
      assert trace[..|trace|] == trace && forall k :: 0 <= k <= |h| ==> trace[..k] == h[..k];
      assert h[..|h|] == h;
      if IsLru(numSets, E, h) {
        LastIsLruIff(numSets, E, trace);
      }
    }
  }

  /** After a run that was LRU so far. */
  lemma LastIsLruIff(numSets: nat, E: nat, trace: seq<Record>)
    requires E > 0 && InRange(trace, numSets) && trace != [] && IsLru(numSets, E, trace[..|trace| - 1])
    ensures var h, r := trace[..|trace| - 1], trace[|trace| - 1];
      IsLru(numSets, E, trace) <==> (Loads(r) ==> SafeLoad(Run(numSets, E, h).sets[r.row], r.tag))
  {
    hide Represents, SafeLoad, LruList, Run, Uses, Touch;
    var h, r := trace[..|trace| - 1], trace[|trace| - 1];
    var c := Run(numSets, E, h);
    NextRecord(numSets, E, trace);
    if Loads(r) {
      RunGood(numSets, E, h, r.row);
      LoadIsLruIff(c.sets[r.row], LruList(E, Uses(h, r.row)), r.tag, c.time);
      LruListNext(E, Uses(h, r.row), r.tag);
    }
    forall s | 0 <= s < numSets && !(Loads(r) && s == r.row)
      ensures Represents(Run(numSets, E, trace).sets[s], LruList(E, Uses(trace, s)))
    {
      assert Represents(c.sets[s], LruList(E, Uses(h, s)));
    }
  }

  /** What the last record does to the sets and to their uses. */
  lemma NextRecord(numSets: nat, E: nat, trace: seq<Record>)
    requires E > 0 && InRange(trace, numSets) && trace != []
    ensures var h, r := trace[..|trace| - 1], trace[|trace| - 1];
      var c := Run(numSets, E, h);
      && Run(numSets, E, trace).sets ==
           (if Loads(r) then c.sets[r.row := LoadSet(c.sets[r.row], r.tag, c.time).0] else c.sets)
      && forall s: nat :: Uses(trace, s) == if Loads(r) && s == r.row then Uses(h, s) + [r.tag] else Uses(h, s)
  {
    hide LoadSet;
  }

  lemma LruListNext(E: nat, uses: seq<int>, tag: int)
    ensures LruList(E, uses + [tag]) == Touch(LruList(E, uses), tag, E)
  {
    assert (uses + [tag])[..|uses + [tag]| - 1] == uses;
  }

  function ValidTags(ls: seq<Line>): set<int> {
    set l | 0 <= l < |ls| && ls[l].valid :: ls[l].tag
  }

  lemma RepresentsTags(ls: seq<Line>, rec: seq<int>)
    requires Represents(ls, rec)
    ensures ValidTags(ls) == set x | x in rec
  {
    var p :| Ordered(ls, p) && rec == Tags(ls, p);
    forall x | x in rec ensures x in ValidTags(ls) {
      var a :| 0 <= a < |rec| && rec[a] == x;
      assert ls[p[a]].valid;
    }
    forall l | 0 <= l < |ls| && ls[l].valid ensures ls[l].tag in rec {
      var a := Place(ls, p, l);
      assert rec[a] == ls[l].tag;
    }
  }

  /** The number of hits, in terms of reuse alone: a load hits when fewer than E other tags of its
      set were used since its last use; the second half of an M always hits. */
  function ReuseHits(E: nat, trace: seq<Record>): nat {
    if trace == [] then 0
    else
      var h, r := trace[..|trace| - 1], trace[|trace| - 1];
      ReuseHits(E, h)
      + (if Loads(r) && r.tag in Take(Stack(Uses(h, r.row)), E) then 1 else 0)
      + (if r.op == 'M' then 1 else 0)
  }

  lemma {:induction false} HitsAreReuse(numSets: nat, E: nat, trace: seq<Record>)
    requires E > 0 && InRange(trace, numSets) && SafeRun(numSets, E, trace)
    ensures Run(numSets, E, trace).hits == ReuseHits(E, trace)
  {
    if trace != [] {
      var h, r := trace[..|trace| - 1], trace[|trace| - 1];
      HitsAreReuse(numSets, E, h);
      if Loads(r) {
        NextLoad(numSets, E, h, r.row, r.tag);
        LruIsStackPrefix(E, Uses(h, r.row));
      }
    }
  }

  lemma {:induction false} MoreWaysMoreReuse(E: nat, E': nat, trace: seq<Record>)
    requires E <= E'
    ensures ReuseHits(E, trace) <= ReuseHits(E', trace)
  {
    if trace != [] {
      MoreWaysMoreReuse(E, E', trace[..|trace| - 1]);
    }
  }

  /** LRU inclusion: with the same sets, more lines per set hold a superset of the tags at every
      point of every trace, and never hit less. */
  lemma Inclusion(numSets: nat, E: nat, E': nat, trace: seq<Record>, s: nat)
    requires 0 < E <= E' && InRange(trace, numSets) && s < numSets
    requires SafeRun(numSets, E, trace) && SafeRun(numSets, E', trace)
    ensures ValidTags(Run(numSets, E, trace).sets[s]) <= ValidTags(Run(numSets, E', trace).sets[s])
    ensures Run(numSets, E, trace).hits <= Run(numSets, E', trace).hits
    ensures Run(numSets, E, trace).misses >= Run(numSets, E', trace).misses
  {
    var uses := Uses(trace, s);
    RunRefinesLru(numSets, E, trace, s);
    RunRefinesLru(numSets, E', trace, s);
    LruIsStackPrefix(E, uses);
    LruIsStackPrefix(E', uses);
    RepresentsTags(Run(numSets, E, trace).sets[s], LruList(E, uses));
    RepresentsTags(Run(numSets, E', trace).sets[s], LruList(E', uses));
    HitsAreReuse(numSets, E, trace);
    HitsAreReuse(numSets, E', trace);
    MoreWaysMoreReuse(E, E', trace);
    CountersBalance(numSets, E, trace);
    CountersBalance(numSets, E', trace);
  }

  // ----- A modify is two loads -----

  /** Every M record replaced by two loads of the same address. */
  function Expand(trace: seq<Record>): (t: seq<Record>)
    ensures forall numSets: nat :: InRange(trace, numSets) ==> InRange(t, numSets)
  {
    if trace == [] then []
    else
      var h, r := trace[..|trace| - 1], trace[|trace| - 1];
      assert forall numSets: nat :: InRange(trace, numSets) ==> InRange(h, numSets) && r.row < numSets;
      if r.op == 'M' then Expand(h) + [r.(op := 'L'), r.(op := 'L')] else Expand(h) + [r]
  }

  /** One more record moves its tag to the front of its set's stack, and no other. */
  lemma StackSnoc(h: seq<Record>, r: Record, s: nat)
    ensures Stack(Uses(h + [r], s)) ==
      if Loads(r) && r.row == s then [r.tag] + Remove(Stack(Uses(h, s)), r.tag) else Stack(Uses(h, s))
  {
    assert (h + [r])[..|h + [r]| - 1] == h;
    var uses := Uses(h, s);
    if Loads(r) && r.row == s {
      assert Uses(h + [r], s) == uses + [r.tag];
      assert (uses + [r.tag])[..|uses + [r.tag]| - 1] == uses;
    } else {
      assert Uses(h + [r], s) == uses;
    }
  }

  lemma HitsSnoc(E: nat, h: seq<Record>, r: Record)
    ensures ReuseHits(E, h + [r]) == ReuseHits(E, h)
      + (if Loads(r) && r.tag in Take(Stack(Uses(h, r.row)), E) then 1 else 0)
      + (if r.op == 'M' then 1 else 0)
  {
    assert (h + [r])[..|h + [r]| - 1] == h;
  }

  lemma ExpandSnoc(h: seq<Record>, r: Record)
    ensures Expand(h + [r]) == if r.op == 'M' then (Expand(h) + [r.(op := 'L')]) + [r.(op := 'L')] else Expand(h) + [r]
  {
    assert (h + [r])[..|h + [r]| - 1] == h;
    assert [r.(op := 'L'), r.(op := 'L')] == [r.(op := 'L')] + [r.(op := 'L')];
  }

  /** Two loads of one address leave the stack one load would leave. */
  lemma TwoLoadsStack(h: seq<Record>, l: Record, s: nat)
    requires l.op == 'L'
    ensures Stack(Uses((h + [l]) + [l], s)) == Stack(Uses(h + [l], s))
  {
    StackSnoc(h, l, s);
    StackSnoc(h + [l], l, s);
    if l.row == s {
      var r := Remove(Stack(Uses(h, s)), l.tag);
      assert ([l.tag] + r)[1..] == r;
      assert Remove([l.tag] + r, l.tag) == r;
    }
  }

  lemma {:induction false} ExpandKeepsStack(trace: seq<Record>, s: nat)
    ensures Stack(Uses(Expand(trace), s)) == Stack(Uses(trace, s))
  {
    if trace != [] {
      var h, r := trace[..|trace| - 1], trace[|trace| - 1];
      assert trace == h + [r];
      ExpandKeepsStack(h, s);
      ExpandSnoc(h, r);
      StackSnoc(h, r, s);
      if r.op == 'M' {
        TwoLoadsStack(Expand(h), r.(op := 'L'), s);
        StackSnoc(Expand(h), r.(op := 'L'), s);
      } else {
        StackSnoc(Expand(h), r, s);
      }
    }
  }

  /** A second load of the same address hits. */
  lemma TwoLoadsHits(E: nat, h: seq<Record>, l: Record)
    requires E > 0 && l.op == 'L'
    ensures ReuseHits(E, (h + [l]) + [l]) == ReuseHits(E, h + [l]) + 1
  {
    HitsSnoc(E, h + [l], l);
    StackSnoc(h, l, l.row);
    var st := Stack(Uses(h + [l], l.row));
    assert st[0] == l.tag && Take(st, E)[0] == l.tag;
  }

  lemma {:induction false} ExpandKeepsHits(E: nat, trace: seq<Record>)
    requires E > 0
    ensures ReuseHits(E, Expand(trace)) == ReuseHits(E, trace)
  {
    if trace != [] {
      var h, r := trace[..|trace| - 1], trace[|trace| - 1];
      assert trace == h + [r];
      ExpandKeepsHits(E, h);
      ExpandKeepsStack(h, r.row);
      ExpandSnoc(h, r);
      HitsSnoc(E, h, r);
      if r.op == 'M' {
        TwoLoadsHits(E, Expand(h), r.(op := 'L'));
        HitsSnoc(E, Expand(h), r.(op := 'L'));
      } else {
        HitsSnoc(E, Expand(h), r);
      }
    }
  }

  lemma {:induction false} ExpandKeepsAccesses(trace: seq<Record>)
    ensures Accesses(Expand(trace)) == Accesses(trace)
  {
    if trace != [] {
      var h, r := trace[..|trace| - 1], trace[|trace| - 1];
      ExpandKeepsAccesses(h);
      if r.op == 'M' {
        var l := r.(op := 'L');
        assert Expand(trace)[..|Expand(trace)| - 1] == Expand(h) + [l];
        assert (Expand(h) + [l])[..|Expand(h)|] == Expand(h);
        assert Accesses(Expand(h) + [l]) == Accesses(Expand(h)) + 1;
      } else {
        assert Expand(trace)[..|Expand(trace)| - 1] == Expand(h);
      }
    }
  }

  lemma {:induction false} PrefixCount(ls: seq<Line>, n: nat)
    requires ValidPrefix(ls, n)
    ensures ValidCount(ls) == n
  {
    if ls != [] {
      assert ls[0].valid <==> 0 < n;
      forall i | 0 <= i < |ls[1..]| ensures ls[1..][i].valid <==> i < (if n > 0 then n - 1 else 0) {
        assert ls[1..][i] == ls[i + 1];
      }
      PrefixCount(ls[1..], if n > 0 then n - 1 else 0);
    }
  }

  /** A set has as many valid lines as its list has tags. */
  lemma RepresentsCount(ls: seq<Line>, rec: seq<int>)
    requires Represents(ls, rec)
    ensures ValidCount(ls) == |rec|
  {
    var p :| Ordered(ls, p) && rec == Tags(ls, p);
    PrefixCount(ls, |p|);
  }

  lemma ExpandKeepsLists(numSets: nat, E: nat, trace: seq<Record>, s: nat)
    requires E > 0 && InRange(trace, numSets) && s < numSets
    requires SafeRun(numSets, E, trace) && SafeRun(numSets, E, Expand(trace))
    ensures Represents(Run(numSets, E, trace).sets[s], LruList(E, Uses(trace, s)))
    ensures Represents(Run(numSets, E, Expand(trace)).sets[s], LruList(E, Uses(trace, s)))
  {
    RunRefinesLru(numSets, E, trace, s);
    RunRefinesLru(numSets, E, Expand(trace), s);
    LruIsStackPrefix(E, Uses(trace, s));
    LruIsStackPrefix(E, Uses(Expand(trace), s));
    ExpandKeepsStack(trace, s);
  }

  lemma ExpandKeepsCount(numSets: nat, E: nat, trace: seq<Record>)
    requires E > 0 && InRange(trace, numSets)
    requires SafeRun(numSets, E, trace) && SafeRun(numSets, E, Expand(trace))
    ensures Sum(Run(numSets, E, trace).sets, ValidCount) == Sum(Run(numSets, E, Expand(trace)).sets, ValidCount)
  {
    var c, d := Run(numSets, E, trace).sets, Run(numSets, E, Expand(trace)).sets;
    forall u | 0 <= u < numSets ensures ValidCount(c[u]) == ValidCount(d[u]) {
      ExpandKeepsLists(numSets, E, trace, u);
      RepresentsCount(c[u], LruList(E, Uses(trace, u)));
      RepresentsCount(d[u], LruList(E, Uses(trace, u)));
    }
    SumSame(c, d, ValidCount, ValidCount);
  }

  /** Handling M as one load plus a free hit gives the counters and the recency order of two
      loads. */
  lemma ModifyIsTwoLoads(numSets: nat, E: nat, trace: seq<Record>, s: nat)
    requires E > 0 && InRange(trace, numSets) && s < numSets
    requires SafeRun(numSets, E, trace) && SafeRun(numSets, E, Expand(trace))
    ensures var c, d := Run(numSets, E, trace), Run(numSets, E, Expand(trace));
      && c.hits == d.hits && c.misses == d.misses && c.evictions == d.evictions
      && Represents(c.sets[s], LruList(E, Uses(trace, s)))
      && Represents(d.sets[s], LruList(E, Uses(trace, s)))
  {
    ExpandKeepsCount(numSets, E, trace);
    ExpandKeepsLists(numSets, E, trace, s);
    HitsAreReuse(numSets, E, trace);
    HitsAreReuse(numSets, E, Expand(trace));
    ExpandKeepsHits(E, trace);
    ExpandKeepsAccesses(trace);
    CountersBalance(numSets, E, trace);
    CountersBalance(numSets, E, Expand(trace));
  }

  // ----- The sentinel is reachable -----

  function Repeat(r: Record, n: nat): (t: seq<Record>)
    ensures |t| == n && InRange(t, r.row + 1)
  {
    seq(n, _ => r)
  }

  lemma TwoLines(a: Line, b: Line, tag: int, t: nat)
    ensures var r := LoadSet([a, b], tag, t);
      && (!a.valid ==> r == ([Line(t, tag, true), b], Fill))
      && (a.valid && a.tag == tag ==> r == ([a.(timer := t), b], Hit))
      && (a.valid && a.tag != tag && !b.valid ==> r == ([a, Line(t, tag, true)], Fill))
      && (a.valid && a.tag != tag && b.valid && b.tag != tag && a.timer >= SENTINEL && b.timer >= SENTINEL ==>
            r == ([a, b.(tag := tag, timer := t)], Evict))
  {
    var ls := [a, b];
    assert ls[1..] == [b] && [b][1..] == [];
    assert ls[0 := Line(t, tag, true)] == [Line(t, tag, true), b] && ls[0 := a.(timer := t)] == [a.(timer := t), b];
    assert ls[1 := Line(t, tag, true)] == [a, Line(t, tag, true)];
    assert ls[1 := b.(tag := tag, timer := t)] == [a, b.(tag := tag, timer := t)];
    assert Slot([b], tag) == if !b.valid || b.tag == tag then 0 else 1;
    assert Scan(ls, 0) == (SENTINEL, 0);
    if a.timer >= SENTINEL && b.timer >= SENTINEL {
      assert Scan(ls, 1) == (SENTINEL, 0) && Scan(ls, 2) == (SENTINEL, 0);
    }
  }

  lemma RunSnoc(h: seq<Record>, l0: Line, l1: Line, tag: int)
    requires InRange(h, 1) && Run(1, 2, h).sets == [[l0, l1]]
    ensures InRange(h + [Record('L', 0, tag)], 1)
    ensures var c, c' := Run(1, 2, h), Run(1, 2, h + [Record('L', 0, tag)]);
      var (ls, outcome) := LoadSet([l0, l1], tag, c.time);
      && c'.sets == [ls]
      && c'.time == c.time + (if outcome == Evict then 2 else 1)
      && c'.hits == c.hits + (if outcome == Hit then 1 else 0)
      && c'.misses == c.misses + (if outcome == Hit then 0 else 1)
      && c'.evictions == c.evictions + (if outcome == Evict then 1 else 0)
  {
    var t := h + [Record('L', 0, tag)];
    assert t[..|t| - 1] == h;
  }

  /** n > 0 loads of one tag leave one line stamped n - 1. */
  lemma {:induction false} RunOfRepeats(n: nat)
    requires n > 0
    ensures Run(1, 2, Repeat(Record('L', 0, 0), n))
         == Cache([[Line(n - 1, 0, true), Line(0, 0, false)]], n - 1, 1, 0, n)
  {
    var r := Record('L', 0, 0);
    assert Repeat(r, n) == Repeat(r, n - 1) + [r];
    if n == 1 {
      assert Repeat(r, 0) == [];
      var x := Line(0, 0, false);
      assert seq(2, _ => x) == [x, x];
      assert Fresh(1, 2).sets == [[x, x]];
      TwoLines(Line(0, 0, false), Line(0, 0, false), 0, 0);
      RunSnoc([], Line(0, 0, false), Line(0, 0, false), 0);
    } else {
      RunOfRepeats(n - 1);
      TwoLines(Line(n - 2, 0, true), Line(0, 0, false), 0, n - 1);
      RunSnoc(Repeat(r, n - 1), Line(n - 2, 0, true), Line(0, 0, false), 0);
    }
  }

  function PastTrace(m: nat): seq<Record> {
    (Repeat(Record('L', 0, 0), m) + [Record('L', 0, 1)]) + [Record('L', 0, 2)]
  }

  lemma PastTraceLines(m: nat)
    requires m > SENTINEL
    ensures InRange(PastTrace(m), 1)
    ensures Run(1, 2, PastTrace(m)).sets == [[Line(m - 1, 0, true), Line(m + 1, 2, true)]]
  {
    hide Run, Repeat, LoadSet;
    var zeros := Repeat(Record('L', 0, 0), m);
    var l0, l1 := Line(m - 1, 0, true), Line(m, 1, true);
    RunOfRepeats(m);
    TwoLines(l0, Line(0, 0, false), 1, m);
    RunSnoc(zeros, l0, Line(0, 0, false), 1);
    TwoLines(l0, l1, 2, m + 1);
    RunSnoc(zeros + [Record('L', 0, 1)], l0, l1, 2);
  }

  /** A use of a new tag goes on top of the stack. */
  lemma NewTagOnTop(h: seq<Record>, r: Record, below: seq<int>)
    requires r.op == 'L' && r.row == 0 && Stack(Uses(h, 0)) == below && r.tag !in below
    ensures Stack(Uses(h + [r], 0)) == [r.tag] + below
  {
    StackSnoc(h, r, 0);
    RemoveAbsent(below, r.tag);
  }

  lemma PastTraceList(m: nat)
    requires m > 0
    ensures LruList(2, Uses(PastTrace(m), 0)) == [2, 1]
  {
    hide LruList, Repeat, Uses, Stack;
    var zeros, a, b := Repeat(Record('L', 0, 0), m), Record('L', 0, 1), Record('L', 0, 2);
    UsesOfRepeats(m);
    NewTagOnTop(zeros, a, [0]);
    NewTagOnTop(zeros + [a], b, [1] + [0]);
    LruIsStackPrefix(2, Uses(PastTrace(m), 0));
  }

  /** Past the sentinel the replacement is no longer LRU: after m uses of tag 0, one of tag 1 and
      one of tag 2, a two-line set has dropped 1 and kept 0. */
  lemma PastTheSentinel(m: nat)
    requires m > SENTINEL
    ensures InRange(PastTrace(m), 1)
    ensures ValidTags(Run(1, 2, PastTrace(m)).sets[0]) == {0, 2}
    ensures LruList(2, Uses(PastTrace(m), 0)) == [2, 1]
    ensures !Represents(Run(1, 2, PastTrace(m)).sets[0], LruList(2, Uses(PastTrace(m), 0)))
  {
    PastTraceLines(m);
    PastTraceList(m);
    var ls := Run(1, 2, PastTrace(m)).sets[0];
    assert ls[0].tag == 0 && ls[1].tag == 2;
    assert [2, 1][1] in [2, 1];
    TagGone(ls, [2, 1], 1);
  }

  lemma {:induction false} UsesOfRepeats(n: nat)
    requires n > 0
    ensures Stack(Uses(Repeat(Record('L', 0, 0), n), 0)) == [0]
  {
    var r := Record('L', 0, 0);
    assert Repeat(r, n) == Repeat(r, n - 1) + [r];
    StackSnoc(Repeat(r, n - 1), r, 0);
    if n > 1 { UsesOfRepeats(n - 1); } else { assert Repeat(r, 0) == []; }
  }
}
