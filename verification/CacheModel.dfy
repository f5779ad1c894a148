/** The cache simulator: what one record of the trace does to the array of lines, first as
    functions on values, then as the class whose methods change the flat array in place. */
module CacheModel {

  datatype Line = Line(timer: nat, tag: int, valid: bool)

  /** One record of the trace, its address already split into set and tag. */
  datatype Record = Record(op: char, row: nat, tag: int)

  datatype Cache = Cache(sets: seq<seq<Line>>, hits: nat, misses: nat, evictions: nat, time: nat)

  const SENTINEL: nat := 999999

  /** The first line that is invalid or holds the tag; |ls| when there is none. */
  function Slot(ls: seq<Line>, tag: int): (l: nat)
    ensures l <= |ls|
    ensures forall i :: 0 <= i < l ==> ls[i].valid && ls[i].tag != tag
    ensures l < |ls| ==> !ls[l].valid || ls[l].tag == tag
  {
    if ls == [] || !ls[0].valid || ls[0].tag == tag then 0 else 1 + Slot(ls[1..], tag)
  }

  /** Smallest timer below the sentinel among the last k lines, and its distance from the end. */
  function Scan(ls: seq<Line>, k: nat): (r: (nat, nat))
    requires k <= |ls|
  {
    if k == 0 then (SENTINEL, 0)
    else
      var (best, idx) := Scan(ls, k - 1);
      if ls[|ls| - k].timer < best then (ls[|ls| - k].timer, k - 1) else (best, idx)
  }

  function Victim(ls: seq<Line>): nat
    requires ls != []
  {
    ScanMeaning(ls, |ls|);
    |ls| - 1 - Scan(ls, |ls|).1
  }

  lemma {:induction false} ScanMeaning(ls: seq<Line>, k: nat)
    requires k <= |ls|
    ensures var (best, idx) := Scan(ls, k);
      && best <= SENTINEL && (idx < k || idx == 0)
      && (forall i :: |ls| - k <= i < |ls| ==> ls[i].timer >= best || ls[i].timer >= SENTINEL)
      && (if best == SENTINEL then idx == 0 && forall i :: |ls| - k <= i < |ls| ==> ls[i].timer >= SENTINEL
          else k > 0 && ls[|ls| - 1 - idx].timer == best)
  {
    if k > 0 { ScanMeaning(ls, k - 1); }
  }

  datatype Outcome = Hit | Fill | Evict

  /** One load of tag in one set at clock t. */
  function LoadSet(ls: seq<Line>, tag: int, t: nat): (r: (seq<Line>, Outcome))
    requires ls != []
  {
    var l := Slot(ls, tag);
    if l < |ls| then
      if ls[l].valid then (ls[l := ls[l].(timer := t)], Hit) else (ls[l := Line(t, tag, true)], Fill)
    else
      (ls[Victim(ls) := ls[Victim(ls)].(tag := tag, timer := t)], Evict)
  }

  ghost predicate Shaped(c: Cache, numSets: nat, E: nat) {
    && |c.sets| == numSets
    && forall s :: 0 <= s < numSets ==> |c.sets[s]| == E
  }

  /** LoadCache: an eviction advances the clock twice. */
  function Load(c: Cache, row: nat, tag: int): Cache
    requires row < |c.sets| && c.sets[row] != []
  {
    var (ls, outcome) := LoadSet(c.sets[row], tag, c.time);
    var c' := c.(sets := c.sets[row := ls]);
    match outcome
    case Hit => c'.(hits := c.hits + 1, time := c.time + 1)
    case Fill => c'.(misses := c.misses + 1, time := c.time + 1)
    case Evict => c'.(misses := c.misses + 1, evictions := c.evictions + 1, time := c.time + 2)
  }

  predicate Loads(r: Record) {
    r.op == 'L' || r.op == 'S' || r.op == 'M'
  }

  function Step(c: Cache, r: Record): Cache
    requires r.row < |c.sets| && c.sets[r.row] != []
  {
    if r.op == 'M' then var c' := Load(c, r.row, r.tag); c'.(hits := c'.hits + 1)
    else if r.op == 'L' || r.op == 'S' then Load(c, r.row, r.tag)
    else c
  }

  ghost predicate InRange(trace: seq<Record>, numSets: nat) {
    forall i :: 0 <= i < |trace| ==> trace[i].row < numSets
  }

  function Fresh(numSets: nat, E: nat): (c: Cache)
    ensures Shaped(c, numSets, E)
  {
    Cache(seq(numSets, _ => seq(E, _ => Line(0, 0, false))), 0, 0, 0, 0)
  }

  /** The state after the whole trace, from an empty cache. */
  function Run(numSets: nat, E: nat, trace: seq<Record>): (c: Cache)
    requires E > 0 && InRange(trace, numSets)
    ensures Shaped(c, numSets, E)
  {
    if trace == [] then Fresh(numSets, E)
    else Step(Run(numSets, E, trace[..|trace| - 1]), trace[|trace| - 1])
  }

  // ----- The flat array -----

  /** Where set s starts: s * E, defined by counting so that proofs stay linear. */
  function Start(s: nat, E: nat): nat {
    if s == 0 then 0 else Start(s - 1, E) + E
  }

  lemma {:induction false} StartIsProduct(s: nat, E: nat)
    ensures Start(s, E) == s * E
  {
    if s > 0 { StartIsProduct(s - 1, E); }
  }

  lemma {:induction false} StartIncreases(s: nat, s': nat, E: nat)
    requires s < s'
    ensures Start(s, E) + E <= Start(s', E)
  {
    if s + 1 < s' { StartIncreases(s, s' - 1, E); }
  }

  function Segment(flat: seq<Line>, numSets: nat, E: nat, s: nat): (ls: seq<Line>)
    requires |flat| == Start(numSets, E) && s < numSets
    ensures |ls| == E
  {
    StartIncreases(s, numSets, E);
    flat[Start(s, E)..Start(s, E) + E]
  }

  /** Set s is the s-th run of E lines. */
  function Cut(flat: seq<Line>, numSets: nat, E: nat): (sets: seq<seq<Line>>)
    requires |flat| == Start(numSets, E)
    ensures |sets| == numSets
    ensures forall s :: 0 <= s < numSets ==> |sets[s]| == E && sets[s] == Segment(flat, numSets, E, s)
  {
    seq(numSets, s requires 0 <= s < numSets => Segment(flat, numSets, E, s))
  }

  lemma CutAt(flat: seq<Line>, numSets: nat, E: nat, s: nat, l: nat)
    requires |flat| == Start(numSets, E) && s < numSets && l < E
    ensures Start(s, E) + l < |flat| && Cut(flat, numSets, E)[s][l] == flat[Start(s, E) + l]
  {
    StartIncreases(s, numSets, E);
  }

  /** Writing one cell of the flat array changes one line of one set. */
  lemma CutUpdate(flat: seq<Line>, numSets: nat, E: nat, s: nat, l: nat, x: Line)
    requires |flat| == Start(numSets, E) && s < numSets && l < E
    ensures Start(s, E) + l < |flat|
    ensures Cut(flat[Start(s, E) + l := x], numSets, E)
         == Cut(flat, numSets, E)[s := Cut(flat, numSets, E)[s][l := x]]
  {
    CutAt(flat, numSets, E, s, l);
    var flat' := flat[Start(s, E) + l := x];
    var sets, sets' := Cut(flat, numSets, E), Cut(flat', numSets, E);
    var want := sets[s := sets[s][l := x]];
    forall u | 0 <= u < numSets ensures sets'[u] == want[u] {
      forall k | 0 <= k < E ensures sets'[u][k] == want[u][k] {
        CutAt(flat, numSets, E, u, k);
        CutAt(flat', numSets, E, u, k);
        if u < s { StartIncreases(u, s, E); } else if u > s { StartIncreases(s, u, E); }
      }
    }
  }

  class Simulator {
    const numSets: nat
    const E: nat
    const lines: array<Line>
    var hits: nat
    var misses: nat
    var evictions: nat
    var time: nat

    ghost predicate Valid() {
      E > 0 && lines.Length == Start(numSets, E)
    }

    ghost function State(): Cache
      requires Valid()
      reads this, lines
    {
      Cache(Cut(lines[..], numSets, E), hits, misses, evictions, time)
    }

    constructor (numSets: nat, E: nat)
      requires E > 0
      ensures Valid() && this.numSets == numSets && this.E == E && fresh(lines)
      ensures State() == Fresh(numSets, E)
    {
      this.numSets, this.E := numSets, E;
      StartIsProduct(numSets, E);
      lines := new Line[numSets * E](_ => Line(0, 0, false));
      hits, misses, evictions, time := 0, 0, 0, 0;
      new;
      forall s, l | 0 <= s < numSets && 0 <= l < E
        ensures Cut(lines[..], numSets, E)[s][l] == Line(0, 0, false)
      {
        CutAt(lines[..], numSets, E, s, l);
      }
      assert forall s :: 0 <= s < numSets ==> Cut(lines[..], numSets, E)[s] == Fresh(numSets, E).sets[s];
    }

    function At(row: nat, l: nat): (i: nat)
      requires Valid() && row < numSets && l < E
      ensures i < lines.Length && i == Start(row, E) + l
    {
      StartIsProduct(row, E);
      StartIncreases(row, numSets, E);
      row * E + l
    }

    /** Reading and storing one line, in terms of the sets. */
    method Get(row: nat, l: nat) returns (x: Line)
      requires Valid() && row < numSets && l < E
      ensures x == State().sets[row][l]
    {
      CutAt(lines[..], numSets, E, row, l);
      x := lines[At(row, l)];
    }

    method Put(row: nat, l: nat, x: Line)
      requires Valid() && row < numSets && l < E
      modifies lines
      ensures State() == var c := old(State()); c.(sets := c.sets[row := c.sets[row][l := x]])
    {
      CutUpdate(lines[..], numSets, E, row, l, x);
      lines[At(row, l)] := x;
    }

    /** Replace the line with the smallest timer, looking from the last line of the set to the
        first; the clock advances. */
    method WriteCache(tag: int, row: nat)
      requires Valid() && row < numSets
      modifies lines, `evictions, `time
      ensures State() == var c := old(State()); var ls := c.sets[row]; var v := Victim(ls);
        c.(sets := c.sets[row := ls[v := ls[v].(tag := tag, timer := c.time)]],
           evictions := c.evictions + 1, time := c.time + 1)
    {
      ghost var ls := State().sets[row];
      var leastRecentUsed: nat := SENTINEL;
      var lruIdx: nat := 0;
      for l := 0 to E
        invariant State() == old(State())
        invariant lruIdx < l || lruIdx == 0
        invariant (leastRecentUsed, lruIdx) == Scan(ls, l)
      {
        var block := Get(row, E - 1 - l);
        if block.timer < leastRecentUsed {
          leastRecentUsed := block.timer;
          lruIdx := l;
        }
      }
      var newTarget := E - 1 - lruIdx;
      assert newTarget == Victim(ls);
      var target := Get(row, newTarget);
      Put(row, newTarget, target.(tag := tag, timer := time));
      evictions := evictions + 1;
      time := time + 1;
    }

    method LoadCache(tag: int, row: nat)
      requires Valid() && row < numSets
      modifies lines, this
      ensures State() == Load(old(State()), row, tag)
    {
      ghost var ls := State().sets[row];
      var l := 0;
      var get := false;
      while l < E && !get
        invariant l <= E
        invariant !get ==> State() == old(State()) && Slot(ls, tag) >= l
        invariant get ==> State().(time := State().time + 1) == Load(old(State()), row, tag)
        decreases E - l, !get
      {
        var target := Get(row, l);
        if target.valid && target.tag == tag {
          hits := hits + 1;
          Put(row, l, target.(timer := time));
          get := true;
        } else if !target.valid {
          misses := misses + 1;
          Put(row, l, target.(timer := time, valid := true, tag := tag));
          get := true;
        } else {
          l := l + 1;
        }
      }
      if !get {
        WriteCache(tag, row);
        misses := misses + 1;
      }
      time := time + 1;
    }

    /** The simulator's loop over the records. */
    method Simulate(trace: seq<Record>)
      requires Valid() && InRange(trace, numSets) && State() == Fresh(numSets, E)
      modifies lines, this
      ensures State() == Run(numSets, E, trace)
    {
      for i := 0 to |trace|
        invariant State() == Run(numSets, E, trace[..i])
      {
        assert trace[..i + 1][..i] == trace[..i];
        var r := trace[i];
        if r.op == 'M' {
          LoadCache(r.tag, r.row);
          hits := hits + 1;
        } else if r.op == 'L' || r.op == 'S' {
          LoadCache(r.tag, r.row);
        }
      }
      assert trace[..|trace|] == trace;
    }
  }
}
