/** What the word table of the dictionary program means: chains of entries, hash functions and
    statistics as values. */
module WordTable {
  import opened WordArithmetic

  datatype Entry = Entry(word: string, freq: int)

  /** Where a find function puts a word it did not find. */
  datatype Place = Front | Rear

  datatype HashFun = ModHash | AddHash | XorHash

  datatype Stats = Stats(ucnt: nat, mcnt: int, mstring: string, llen: nat, lstring: string, lcnt: nat)

  const NO_STATS := Stats(0, 0, "", 0, "", 0)

  // ----- Chains -----

  /** The place of w in a chain; the chain's length when it is not there. */
  function Find(es: seq<Entry>, w: string): (i: nat)
    ensures i <= |es| && (i < |es| ==> es[i].word == w)
    ensures forall k :: 0 <= k < i ==> es[k].word != w
  {
    if es == [] || es[0].word == w then 0 else 1 + Find(es[1..], w)
  }

  function Bump(es: seq<Entry>, w: string, place: Place): seq<Entry> {
    var i := Find(es, w);
    if i < |es| then es[i := Entry(w, es[i].freq + 1)]
    else if place == Front then [Entry(w, 1)] + es
    else es + [Entry(w, 1)]
  }

  /** Passing over a first entry with another word, as the recursive find function does. */
  lemma BumpRest(st: Stats, es: seq<Entry>, w: string)
    requires es != [] && es[0].word != w
    ensures Noted(st, es, w) == Noted(st, es[1..], w)
    ensures Bump(es, w, Rear) == [es[0]] + Bump(es[1..], w, Rear)
  {
  }

  /** Find is the only place with these properties, so a search that stops there has found it. */
  lemma FindIs(es: seq<Entry>, w: string, i: nat)
    requires i <= |es| && (i < |es| ==> es[i].word == w)
    requires forall k :: 0 <= k < i ==> es[k].word != w
    ensures Find(es, w) == i
  {
  }

  // ----- Statistics -----

  function NewWord(st: Stats, w: string): Stats {
    var counted := st.(ucnt := st.ucnt + 1);
    if |w| > st.llen then counted.(llen := |w|, lstring := w, lcnt := 1)
    else if |w| == st.llen then counted.(lcnt := st.lcnt + 1)
    else counted
  }

  function Repeated(st: Stats, w: string, freq: int): Stats {
    if freq > st.mcnt then st.(mcnt := freq, mstring := w) else st
  }

  function Noted(st: Stats, es: seq<Entry>, w: string): Stats {
    var i := Find(es, w);
    if i < |es| then Repeated(st, w, es[i].freq + 1) else NewWord(st, w)
  }

  lemma Found(st: Stats, es: seq<Entry>, w: string, i: nat)
    requires i < |es| && es[i].word == w && forall k :: 0 <= k < i ==> es[k].word != w
    ensures forall place :: Bump(es, w, place) == es[i := Entry(w, es[i].freq + 1)]
    ensures Noted(st, es, w) == Repeated(st, w, es[i].freq + 1)
  {
    FindIs(es, w, i);
  }

  lemma NotFound(st: Stats, es: seq<Entry>, w: string)
    requires forall k :: 0 <= k < |es| ==> es[k].word != w
    ensures Bump(es, w, Front) == [Entry(w, 1)] + es && Bump(es, w, Rear) == es + [Entry(w, 1)]
    ensures Noted(st, es, w) == NewWord(st, w)
  {
    FindIs(es, w, |es|);
  }

  /** The statistics of a text: no table, no hash function and no find function is involved. */
  function StatsOf(words: seq<string>): Stats {
    if words == [] then NO_STATS
    else
      var before, w := words[..|words| - 1], words[|words| - 1];
      if w in before then Repeated(StatsOf(before), w, multiset(before)[w] + 1)
      else NewWord(StatsOf(before), w)
  }

  function Distinct(words: seq<string>): set<string> {
    set w | w in words
  }

  function Longest(words: seq<string>, n: nat): set<string> {
    set w | w in words && |w| == n
  }

  ghost predicate Meaning(st: Stats, words: seq<string>) {
    st.ucnt == |Distinct(words)| && LengthsMean(st, words) && FrequenciesMean(st, words)
  }

  ghost predicate LengthsMean(st: Stats, words: seq<string>) {
    && (forall w :: w in words ==> |w| <= st.llen)
    && (st.llen > 0 ==> st.lstring in words && |st.lstring| == st.llen)
    && st.lcnt == |Longest(words, st.llen)|
  }

  ghost predicate FrequenciesMean(st: Stats, words: seq<string>) {
    && (forall w :: w in words && multiset(words)[w] >= 2 ==> multiset(words)[w] <= st.mcnt)
    && (st.mcnt != 0 ==> st.mcnt >= 2 && multiset(words)[st.mstring] == st.mcnt)
  }

  /** ucnt counts the distinct words, llen is the greatest length, lcnt the distinct words that long,
      and mcnt the highest frequency if some word repeats, 0 if none does. */
  lemma {:induction false} StatsMeaning(words: seq<string>)
    ensures Meaning(StatsOf(words), words)
  {
    if words == [] {
      assert Distinct(words) == {} && Longest(words, 0) == {};
    } else {
      var before, w := words[..|words| - 1], words[|words| - 1];
      assert words == before + [w];
      StatsMeaning(before);
      if w in before {
        RepeatedMeaning(StatsOf(before), before, w);
      } else {
        NewWordMeaning(StatsOf(before), before, w);
      }
    }
  }

  /** On a tie the word seen first is kept: lstring is the first of the longest words, and mstring the
      first word to have occurred mcnt times. */
  ghost predicate KeepsFirst(st: Stats, words: seq<string>) {
    && (st.llen > 0 ==> FirstLongest(words, st.lstring, st.llen))
    && (st.mcnt > 0 ==> FirstToReach(words, st.mstring, st.mcnt))
  }

  ghost predicate FirstLongest(words: seq<string>, w: string, n: nat) {
    exists p :: 0 <= p < |words| && words[p] == w && |w| == n && AllShorter(words[..p], n)
  }

  ghost predicate AllShorter(words: seq<string>, n: nat) {
    forall v :: v in words ==> |v| < n
  }

  ghost predicate AllRarer(words: seq<string>, n: int) {
    forall v: string :: multiset(words)[v] < n
  }

  ghost predicate FirstToReach(words: seq<string>, w: string, n: int) {
    exists p :: 0 <= p < |words| && words[p] == w && multiset(words[..p + 1])[w] == n && AllRarer(words[..p], n)
  }

  lemma {:induction false} StatsKeepFirst(words: seq<string>)
    ensures KeepsFirst(StatsOf(words), words)
  {
    if words != [] {
      var before, w := words[..|words| - 1], words[|words| - 1];
      assert words == before + [w];
      StatsKeepFirst(before);
      StatsMeaning(before);
      StatsNext(before, w);
      if w in before {
        RepeatedKeepsFirst(StatsOf(before), before, w);
      } else {
        NewKeepsFirst(StatsOf(before), before, w);
      }
    }
  }

  lemma LongestStays(words: seq<string>, x: string, w: string, n: nat)
    requires FirstLongest(words, w, n)
    ensures FirstLongest(words + [x], w, n)
  {
    var p :| 0 <= p < |words| && words[p] == w && |w| == n && AllShorter(words[..p], n);
    var all := words + [x];
    assert all[p] == w && all[..p] == words[..p];
  }

  lemma ReachedStays(words: seq<string>, x: string, w: string, n: int)
    requires FirstToReach(words, w, n)
    ensures FirstToReach(words + [x], w, n)
  {
    var p :| 0 <= p < |words| && words[p] == w && multiset(words[..p + 1])[w] == n && AllRarer(words[..p], n);
    var all := words + [x];
    assert all[p] == w && all[..p + 1] == words[..p + 1] && all[..p] == words[..p];
  }

  lemma RepeatedKeepsFirst(st: Stats, words: seq<string>, w: string)
    requires KeepsFirst(st, words) && Meaning(st, words) && w in words
    ensures KeepsFirst(Repeated(st, w, multiset(words)[w] + 1), words + [w])
  {
    hide FirstLongest, FirstToReach, LengthsMean;
    if st.llen > 0 { LongestStays(words, w, st.lstring, st.llen); }
    var n := multiset(words)[w] + 1;
    if n > st.mcnt {
      NowReached(st, words, w);
    } else {
      ReachedStays(words, w, st.mstring, st.mcnt);
    }
  }

  lemma NowReached(st: Stats, words: seq<string>, w: string)
    requires FrequenciesMean(st, words) && w in words && multiset(words)[w] + 1 > st.mcnt
    ensures FirstToReach(words + [w], w, multiset(words)[w] + 1)
  {
    var all, n := words + [w], multiset(words)[w] + 1;
    assert all[|words|] == w && all[..|words| + 1] == all && all[..|words|] == words;
    assert multiset(words)[w] >= 1;
    forall v: string ensures multiset(words)[v] < n {
      if multiset(words)[v] >= 2 { assert v in words; }
    }
  }

  lemma NewKeepsFirst(st: Stats, words: seq<string>, w: string)
    requires KeepsFirst(st, words) && Meaning(st, words) && w !in words
    ensures KeepsFirst(NewWord(st, w), words + [w])
  {
    hide FirstToReach, FrequenciesMean;
    if st.mcnt > 0 { ReachedStays(words, w, st.mstring, st.mcnt); }
    if |w| > st.llen {
      var all := words + [w];
      assert all[|words|] == w && all[..|words|] == words;
    } else if st.llen > 0 {
      LongestStays(words, w, st.lstring, st.llen);
    }
  }

  lemma OneMore(words: seq<string>, w: string, n: nat)
    ensures Distinct(words + [w]) == Distinct(words) + {w}
    ensures Longest(words + [w], n) == Longest(words, n) + (if |w| == n then {w} else {})
  {
  }

  lemma NotThere(words: seq<string>, w: string, n: nat)
    requires w !in words
    ensures w !in Distinct(words) && w !in Longest(words, n)
  {
  }

  lemma NothingLonger(words: seq<string>, n: nat)
    requires forall w :: w in words ==> |w| < n
    ensures Longest(words, n) == {}
  {
  }

  lemma RepeatedMeaning(st: Stats, words: seq<string>, w: string)
    requires Meaning(st, words) && w in words
    ensures Meaning(Repeated(st, w, multiset(words)[w] + 1), words + [w])
  {
    hide FrequenciesMean;
    OneMore(words, w, st.llen);
    assert Distinct(words) + {w} == Distinct(words);
    assert |w| == st.llen ==> Longest(words, st.llen) + {w} == Longest(words, st.llen);
    RepeatedFrequencies(st, words, w);
  }

  lemma RepeatedFrequencies(st: Stats, words: seq<string>, w: string)
    requires FrequenciesMean(st, words) && w in words
    ensures FrequenciesMean(Repeated(st, w, multiset(words)[w] + 1), words + [w])
  {
    assert multiset(words + [w]) == multiset(words) + multiset{w};
    assert multiset(words)[w] >= 1;
  }

  lemma NewWordMeaning(st: Stats, words: seq<string>, w: string)
    requires Meaning(st, words) && w !in words
    ensures Meaning(NewWord(st, w), words + [w])
  {
    hide Distinct, Longest, LengthsMean, FrequenciesMean;
    OneMore(words, w, 0);
    NotThere(words, w, 0);
    NewWordLengths(st, words, w);
    NewWordFrequencies(st, words, w);
  }

  lemma NewWordLengths(st: Stats, words: seq<string>, w: string)
    requires LengthsMean(st, words) && w !in words
    ensures LengthsMean(NewWord(st, w), words + [w])
  {
    hide Distinct, Longest;
    OneMore(words, w, st.llen);
    OneMore(words, w, |w|);
    NotThere(words, w, st.llen);
    if |w| > st.llen {
      NothingLonger(words, |w|);
    }
  }

  lemma NewWordFrequencies(st: Stats, words: seq<string>, w: string)
    requires FrequenciesMean(st, words) && w !in words
    ensures FrequenciesMean(NewWord(st, w), words + [w])
  {
    assert multiset(words + [w]) == multiset(words) + multiset{w};
    assert multiset(words)[w] == 0;
  }

  // ----- Buckets -----

  /** Bucket b holds each word of the text that hashes to b, once, with its number of occurrences,
      and no other word. */
  ghost predicate BucketHolds(es: seq<Entry>, words: seq<string>, hash: HashFun, tsize: nat, b: nat)
    requires tsize > 0
  {
    && (forall i :: 0 <= i < |es| ==>
          && es[i].word in words && Hash(hash, es[i].word, tsize) == b
          && es[i].freq == multiset(words)[es[i].word])
    && (forall i, j :: 0 <= i < j < |es| ==> es[i].word != es[j].word)
    && (forall w :: w in words && Hash(hash, w, tsize) == b ==> Find(es, w) < |es|)
  }

  /** Inserting w keeps its own bucket right, whichever place new words go to. */
  lemma BumpKeeps(es: seq<Entry>, words: seq<string>, hash: HashFun, tsize: nat, w: string, place: Place)
    requires tsize > 0 && BucketHolds(es, words, hash, tsize, Hash(hash, w, tsize))
    ensures BucketHolds(Bump(es, w, place), words + [w], hash, tsize, Hash(hash, w, tsize))
    ensures Find(es, w) < |es| <==> w in words
  {
    hide Hash, Find;
    var b, i, es', words' := Hash(hash, w, tsize), Find(es, w), Bump(es, w, place), words + [w];
    assert multiset(words') == multiset(words) + multiset{w};
    forall v | v in words' && Hash(hash, v, tsize) == b
      ensures Find(es', v) < |es'|
    {
      Listed(es, w, place, v);
    }
    BumpEntries(es, words, w, place);
    forall k | 0 <= k < |es'|
      ensures es'[k].word in words' && Hash(hash, es'[k].word, tsize) == b
      ensures es'[k].freq == multiset(words')[es'[k].word]
    {
    }
  }

  lemma BumpEntries(es: seq<Entry>, words: seq<string>, w: string, place: Place)
    requires forall i :: 0 <= i < |es| ==> es[i].freq == multiset(words)[es[i].word]
    requires forall i, j :: 0 <= i < j < |es| ==> es[i].word != es[j].word
    requires w in words ==> Find(es, w) < |es|
    ensures forall e :: e in Bump(es, w, place) ==>
              && (e.word == w || exists i :: 0 <= i < |es| && es[i].word == e.word)
              && e.freq == multiset(words)[e.word] + if e.word == w then 1 else 0
    ensures forall i, j :: 0 <= i < j < |Bump(es, w, place)| ==> Bump(es, w, place)[i].word != Bump(es, w, place)[j].word
  {
    hide Find;
    var i, es' := Find(es, w), Bump(es, w, place);
    if i < |es| {
      assert forall k :: 0 <= k < |es| && k != i ==> es[k].word != w && es'[k] == es[k];
    } else if place == Front {
      assert forall k :: 0 < k < |es'| ==> es'[k] == es[k - 1];
    } else {
      assert forall k :: 0 <= k < |es| ==> es'[k] == es[k];
    }
  }

  /** What an insertion notes when it looks only at one bucket is what the whole text asks for. */
  lemma NotedIsNext(es: seq<Entry>, words: seq<string>, hash: HashFun, tsize: nat, w: string, place: Place)
    requires tsize > 0 && BucketHolds(es, words, hash, tsize, Hash(hash, w, tsize))
    ensures Noted(StatsOf(words), es, w) == StatsOf(words + [w])
    ensures StatsOf(words + [w]).ucnt == StatsOf(words).ucnt + |Bump(es, w, place)| - |es|
  {
    hide Hash, StatsOf, Find;
    StatsNext(words, w);
    BumpKeeps(es, words, hash, tsize, w, place);
    var i := Find(es, w);
    if i < |es| {
      assert es[i].freq == multiset(words)[w];
    }
  }

  lemma StatsNext(words: seq<string>, w: string)
    ensures StatsOf(words + [w]) ==
              if w in words then Repeated(StatsOf(words), w, multiset(words)[w] + 1) else NewWord(StatsOf(words), w)
  {
    assert (words + [w])[..|words|] == words;
  }

  lemma Listed(es: seq<Entry>, w: string, place: Place, v: string)
    requires v == w || Find(es, v) < |es|
    ensures Find(Bump(es, w, place), v) < |Bump(es, w, place)|
  {
    var es', i, j := Bump(es, w, place), Find(es, w), Find(es, v);
    if i < |es| {
      assert es'[if v == w then i else j].word == v;
    } else if place == Front {
      assert es'[if v == w then 0 else j + 1].word == v;
    } else {
      assert es'[if v == w then |es| else j].word == v;
    }
  }

  /** The other buckets stay right untouched. */
  lemma OthersKeep(es: seq<Entry>, words: seq<string>, hash: HashFun, tsize: nat, b: nat, w: string)
    requires tsize > 0 && BucketHolds(es, words, hash, tsize, b) && Hash(hash, w, tsize) != b
    ensures BucketHolds(es, words + [w], hash, tsize, b)
  {
    hide Hash;
    assert multiset(words + [w]) == multiset(words) + multiset{w};
  }

  ghost predicate TableHolds(t: seq<seq<Entry>>, words: seq<string>, hash: HashFun) {
    |t| > 0 && forall b :: 0 <= b < |t| ==> BucketHolds(t[b], words, hash, |t|, b)
  }

  /** The program's answer for a word. */
  function Frequency(t: seq<seq<Entry>>, hash: HashFun, w: string): int
    requires |t| > 0
  {
    var es := t[Hash(hash, w, |t|)];
    var i := Find(es, w);
    if i < |es| then es[i].freq else 0
  }

  /** A table for a text answers with the number of occurrences, and has one entry for each distinct
      word in all: the one in the bucket its hash names. */
  lemma TableCounts(t: seq<seq<Entry>>, words: seq<string>, hash: HashFun, w: string)
    requires TableHolds(t, words, hash)
    ensures Frequency(t, hash, w) == multiset(words)[w]
    ensures forall b, i :: 0 <= b < |t| && 0 <= i < |t[b]| && t[b][i].word == w ==>
              w in words && b == Hash(hash, w, |t|) && i == Find(t[b], w)
  {
    hide Hash;
    var h := Hash(hash, w, |t|);
    assert BucketHolds(t[h], words, hash, |t|, h);
    forall b, i | 0 <= b < |t| && 0 <= i < |t[b]| && t[b][i].word == w
      ensures w in words && b == h && i == Find(t[b], w)
    {
      assert BucketHolds(t[b], words, hash, |t|, b);
    }
  }

  /** Two tables for the same text agree on every word, whatever hash functions, table sizes and
      find functions built them. */
  lemma SameAnswers(t: seq<seq<Entry>>, hash: HashFun, t': seq<seq<Entry>>, hash': HashFun, words: seq<string>, w: string)
    requires TableHolds(t, words, hash) && TableHolds(t', words, hash')
    ensures Frequency(t, hash, w) == Frequency(t', hash', w)
  {
    TableCounts(t, words, hash, w);
    TableCounts(t', words, hash', w);
  }

  // ----- Lower case -----

  function LowerChar(c: char): char {
    if 'A' <= c <= 'Z' then (c as int + 32) as char else c
  }

  function Lower(s: string): (r: string)
    ensures |r| == |s| && forall k :: 0 <= k < |s| ==> r[k] == LowerChar(s[k])
  {
    seq(|s|, k requires 0 <= k < |s| => LowerChar(s[k]))
  }

  /** The letters of the alphabet. */
  function Capital(i: nat): char
    requires i < 26
  {
    ('A' as int + i) as char
  }

  function Small(i: nat): char
    requires i < 26
  {
    ('a' as int + i) as char
  }

  /** a is a capital letter and b the same letter in lower case. */
  ghost predicate CasePair(a: char, b: char) {
    exists i: nat :: i < 26 && a == Capital(i) && b == Small(i)
  }

  ghost predicate IsCapital(c: char) {
    exists i: nat :: i < 26 && c == Capital(i)
  }

  /** The strings agree at each place, up to the case of letters. */
  ghost predicate EqualUpToCase(s: string, t: string) {
    |s| == |t| && forall k :: 0 <= k < |s| ==> s[k] == t[k] || CasePair(s[k], t[k]) || CasePair(t[k], s[k])
  }

  ghost predicate NoCapitals(s: string) {
    forall k :: 0 <= k < |s| ==> !IsCapital(s[k])
  }

  lemma LowerCharIs(c: char)
    ensures if IsCapital(c) then CasePair(c, LowerChar(c)) else LowerChar(c) == c
    ensures !IsCapital(LowerChar(c))
  {
    if 'A' <= c <= 'Z' {
      var i := c as int - 'A' as int;
      assert c == Capital(i) && LowerChar(c) == Small(i);
    }
  }

  lemma CasePairLowers(a: char, b: char)
    requires CasePair(a, b)
    ensures LowerChar(a) == b && LowerChar(b) == b
  {
  }

  /** The lowered string is the one string without capitals that equals it up to case. */
  lemma LowerIs(s: string, t: string)
    ensures t == Lower(s) <==> NoCapitals(t) && EqualUpToCase(s, t)
  {
    forall k | 0 <= k < |s|
      ensures s[k] == Lower(s)[k] || CasePair(s[k], Lower(s)[k])
      ensures !IsCapital(Lower(s)[k])
    {
      LowerCharIs(s[k]);
    }
    if NoCapitals(t) && EqualUpToCase(s, t) {
      forall k | 0 <= k < |s| ensures t[k] == LowerChar(s[k]) {
        assert !IsCapital(t[k]);
        LowerCharIs(s[k]);
        SameLowerChar(s[k], t[k]);
        LowerCharIs(t[k]);
      }
    }
  }

  /** Lowering again changes nothing. */
  lemma LowerTwice(s: string)
    ensures Lower(Lower(s)) == Lower(s)
  {
    LowerIs(s, Lower(s));
    LowerIs(Lower(s), Lower(s));
  }

  /** Two strings have the same lowered form exactly when they are equal up to case. */
  lemma SameLower(s: string, t: string)
    ensures Lower(s) == Lower(t) <==> EqualUpToCase(s, t)
  {
    if |s| == |t| {
      forall k | 0 <= k < |s|
        ensures LowerChar(s[k]) == LowerChar(t[k]) <==> s[k] == t[k] || CasePair(s[k], t[k]) || CasePair(t[k], s[k])
      {
        SameLowerChar(s[k], t[k]);
      }
      if EqualUpToCase(s, t) {
        assert Lower(s) == Lower(t);
      } else {
        var k :| 0 <= k < |s| && !(s[k] == t[k] || CasePair(s[k], t[k]) || CasePair(t[k], s[k]));
        assert Lower(s)[k] != Lower(t)[k];
      }
    }
  }

  lemma SameLowerChar(a: char, b: char)
    ensures LowerChar(a) == LowerChar(b) <==> a == b || CasePair(a, b) || CasePair(b, a)
  {
    LowerCharIs(a);
    LowerCharIs(b);
    if CasePair(a, b) { CasePairLowers(a, b); }
    if CasePair(b, a) { CasePairLowers(b, a); }
  }

  // ----- Hash functions -----

  const UINT := 0x1_0000_0000

  /** A character as the signed integer the code assigns it to. */
  function CharValue(c: char): int {
    var b := c as int % 256;
    if b < 128 then b else b - 256
  }

  function ModFold(s: string, tsize: nat): (val: nat)
    requires tsize > 0
    ensures val < tsize
  {
    if s == [] then 0 else ModStep(ModFold(s[..|s| - 1], tsize), s[|s| - 1], tsize)
  }

  function ModStep(val: nat, c: char, tsize: nat): (val': nat)
    requires tsize > 0
    ensures val' < tsize
  {
    ((val * 128 + CharValue(c)) % UINT) % tsize
  }

  function AddFold(s: string): (val: nat)
    ensures val < UINT
  {
    if s == [] then 0 else (AddFold(s[..|s| - 1]) + CharValue(s[|s| - 1])) % UINT
  }

  function Mix(val: bv32, c: char): bv32 {
    ((val ^ ((CharValue(c) % UINT) as bv32)) << 4) | ((val >> 28) & 0xF)
  }

  function XorFold(s: string): bv32 {
    if s == [] then 0 else Mix(XorFold(s[..|s| - 1]), s[|s| - 1])
  }

  function Hash(hash: HashFun, s: string, tsize: nat): (b: nat)
    requires tsize > 0
    ensures b < tsize
  {
    match hash
    case ModHash => ModFold(s, tsize)
    case AddHash => AddFold(s) % tsize
    case XorHash => XorFold(s) as int % tsize
  }

  /** A character's value is the one signed byte congruent to its code. */
  lemma CharValueIs(c: char)
    ensures -128 <= CharValue(c) < 128 && (c as int - CharValue(c)) % 256 == 0
  {
  }

  function CharSum(s: string): int {
    if s == [] then 0 else CharSum(s[..|s| - 1]) + CharValue(s[|s| - 1])
  }

  /** The additive hash is the sum of the characters in 32 bits, modulo the size. */
  lemma {:induction false} AddHashIsSum(s: string, tsize: nat)
    requires tsize > 0
    ensures AddFold(s) == CharSum(s) % UINT && Hash(AddHash, s, tsize) == (CharSum(s) % UINT) % tsize
  {
    hide CharValue;
    if s != [] {
      AddHashIsSum(s[..|s| - 1], tsize);
    }
  }

  /** It does not see the order of the characters. */
  lemma {:induction false} AddHashForgetsOrder(s: string, t: string, tsize: nat)
    requires tsize > 0
    ensures Hash(AddHash, s + t, tsize) == Hash(AddHash, t + s, tsize)
  {
    AddHashIsSum(s + t, tsize);
    AddHashIsSum(t + s, tsize);
    CharSumAppend(s, t);
    CharSumAppend(t, s);
  }

  lemma {:induction false} CharSumAppend(s: string, t: string)
    ensures CharSum(s + t) == CharSum(s) + CharSum(t)
  {
    if t == [] {
      assert s + t == s;
    } else {
      CharSumAppend(s, t[..|t| - 1]);
      assert (s + t)[..|s + t| - 1] == s + t[..|t| - 1];
    }
  }

  /** One step of the xor hash, on its bits: the low 28 bits of the value and the character combined move
      up by four, and the four highest of the value come round. */
  lemma MixBits(val: bv32, c: char)
    ensures Mix(val, c) >> 4 == (val ^ ((CharValue(c) % UINT) as bv32)) & 0x0FFF_FFFF
    ensures Mix(val, c) & 0xF == val >> 28
  {
    hide CharValue;
    var x := (CharValue(c) % UINT) as bv32;
    MixWord(val, x);
  }

  lemma MixWord(val: bv32, x: bv32)
    ensures (((val ^ x) << 4) | ((val >> 28) & 0xF)) >> 4 == (val ^ x) & 0x0FFF_FFFF
    ensures (((val ^ x) << 4) | ((val >> 28) & 0xF)) & 0xF == val >> 28
  {
  }

  /** The xor hash of a longer text is one more such step. */
  lemma XorHashStep(s: string, c: char, tsize: nat)
    requires tsize > 0
    ensures XorFold(s + [c]) == Mix(XorFold(s), c)
    ensures Hash(XorHash, s, tsize) == XorFold(s) as int % tsize && XorFold([]) == 0
  {
    assert (s + [c])[..|s|] == s;
  }

  function Horner(s: string): nat
    requires forall k :: 0 <= k < |s| ==> s[k] as int < 128
  {
    if s == [] then 0 else Horner(s[..|s| - 1]) * 128 + s[|s| - 1] as int
  }

  /** On ASCII text and tables of up to 2^25 - 1 buckets nothing wraps, and division hashing is the
      remainder of the text read as a number in base 128. */
  lemma {:induction false} ModHashIsRemainder(s: string, tsize: nat)
    requires 0 < tsize < 0x200_0000 && forall k :: 0 <= k < |s| ==> s[k] as int < 128
    ensures Hash(ModHash, s, tsize) == Horner(s) % tsize
  {
    hide ModStep;
    if s != [] {
      var h, x := s[..|s| - 1], s[|s| - 1];
      ModHashIsRemainder(h, tsize);
      ModStepIs(Horner(h), x, tsize);
    }
  }

  lemma ModStepIs(v: nat, x: char, tsize: nat)
    requires 0 < tsize < 0x200_0000 && x as int < 128
    ensures v % tsize >= 0 && ModStep(v % tsize, x, tsize) == (v * 128 + x as int) % tsize
  {
    hide CharValue;
    NoWrap(v % tsize, x, tsize);
    RemainderStep(v, x as int, tsize);
  }

  lemma NoWrap(v: nat, x: char, tsize: nat)
    requires v < tsize < 0x200_0000 && x as int < 128
    ensures CharValue(x) == x as int && (v * 128 + CharValue(x)) % UINT == v * 128 + x as int
  {
  }

  lemma RemainderStep(v: nat, c: nat, t: nat)
    requires t > 0
    ensures ((v % t) * 128 + c) % t == (v * 128 + c) % t
  {
    var low := (v % t) * 128 + c;
    QuotientRemainder(v, t);
    QuotientRemainder(low, t);
    var k := 128 * (v / t) + low / t;
    assert v * 128 + c == 128 * (v / t) * t + low;
    assert k * t == 128 * (v / t) * t + (low / t) * t by { Distribute(128 * (v / t), low / t, t); }
    RemainderUnique(v * 128 + c, k, low % t, t);
  }

  lemma QuotientRemainder(x: nat, t: nat)
    requires t > 0
    ensures x == (x / t) * t + x % t && 0 <= x % t < t
  {
  }

  lemma RemainderUnique(x: nat, q: int, r: int, t: nat)
    requires t > 0 && 0 <= r < t && x == q * t + r
    ensures x % t == r
  {
    QuotientRemainder(x, t);
    var d := q - x / t;
    assert d * t == x % t - r by { Distribute(q, -(x / t), t); }
    NoMultiple(d, t, x % t - r);
  }
}
