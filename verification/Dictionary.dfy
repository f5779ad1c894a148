/** The dictionary program's hash table of linked nodes, updated in place. */
module Dictionary {
  import opened CStrings
  import opened Sums
  import opened WordTable

  class Node {
    var word: string
    var freq: int
    var next: Node?

    constructor (s: string)
      ensures word == s && freq == 1 && next == null
    {
      word := s;
      freq := 1;
      next := null;
    }
  }

  /** The program's global statistics. */
  class Counters {
    var ucnt: nat
    var mcnt: int
    var mstring: string
    var llen: nat
    var lstring: string
    var lcnt: nat

    constructor ()
      ensures Value() == NO_STATS
    {
      ucnt, mcnt, mstring, llen, lstring, lcnt := 0, 0, "", 0, "", 0;
    }

    function Value(): Stats
      reads this
    {
      Stats(ucnt, mcnt, mstring, llen, lstring, lcnt)
    }

    /** The counting in new_ele and beside its calls. */
    method CountNew(s: string)
      modifies this
      ensures Value() == NewWord(old(Value()), s)
    {
      if |s| > llen {
        lstring := s;
        llen := |s|;
        lcnt := 1;
      } else if |s| == llen {
        lcnt := lcnt + 1;
      }
      ucnt := ucnt + 1;
    }

    method CountRepeat(s: string, freq: int)
      modifies this
      ensures Value() == Repeated(old(Value()), s, freq)
    {
      if freq > mcnt {
        mcnt := freq;
        mstring := s;
      }
    }
  }

  function At(ns: seq<Node>, i: nat): Node? {
    if i < |ns| then ns[i] else null
  }

  /** The nodes reached from head, in order, are ns. */
  ghost predicate IsList(head: Node?, ns: seq<Node>)
    reads ns
  {
    && head == At(ns, 0)
    && (forall i, j :: 0 <= i < j < |ns| ==> ns[i] != ns[j] && (j == i + 1 ==> ns[i].next == ns[j]))
    && (ns != [] ==> ns[|ns| - 1].next == null)
  }

  ghost function Entries(ns: seq<Node>): (es: seq<Entry>)
    reads ns
    ensures |es| == |ns|
    ensures forall i :: 0 <= i < |ns| ==> es[i] == Entry(ns[i].word, ns[i].freq)
  {
    seq(|ns|, i requires 0 <= i < |ns| reads ns => Entry(ns[i].word, ns[i].freq))
  }

  lemma Nodes(head: Node?, ns: seq<Node>)
    requires IsList(head, ns)
    ensures head == At(ns, 0) && forall i, j :: 0 <= i < j < |ns| ==> ns[i] != ns[j]
  {
  }

  lemma Next(head: Node?, ns: seq<Node>, i: nat)
    requires IsList(head, ns) && i < |ns|
    ensures ns[i].next == At(ns, i + 1)
  {
  }

  lemma Tail(head: Node?, ns: seq<Node>)
    requires IsList(head, ns) && head != null
    ensures ns != [] && IsList(head.next, ns[1..]) && head !in ns[1..]
    ensures Entries(ns) == [Entry(head.word, head.freq)] + Entries(ns[1..])
  {
    hide Entries;
    var rest := ns[1..];
    assert Entries(ns) == [Entry(head.word, head.freq)] + Entries(rest);
    forall i, j | 0 <= i < j < |rest|
      ensures rest[i] != rest[j] && (j == i + 1 ==> rest[i].next == rest[j])
    {
      assert rest[i] == ns[i + 1] && rest[j] == ns[j + 1];
    }
  }

  lemma One(n: Node)
    requires n.next == null
    ensures IsList(n, [n]) && Entries([n]) == [Entry(n.word, n.freq)]
  {
  }

  lemma Prepended(head: Node, ns: seq<Node>)
    requires IsList(head.next, ns) && head !in ns
    ensures IsList(head, [head] + ns)
    ensures Entries([head] + ns) == [Entry(head.word, head.freq)] + Entries(ns)
  {
    hide Entries;
    var all := [head] + ns;
    assert Entries(all) == [Entry(head.word, head.freq)] + Entries(ns);
    assert all[|all| - 1] == if ns == [] then head else ns[|ns| - 1];
    forall i, j | 0 <= i < j < |all|
      ensures all[i] != all[j] && (j == i + 1 ==> all[i].next == all[j])
    {
      assert all[j] == ns[j - 1] && (i > 0 ==> all[i] == ns[i - 1]);
    }
  }

  /** Hooks a node to the end of a list. */
  method HookOn(last: Node, end: Node, ghost ls: Node?, ghost ns: seq<Node>)
    requires IsList(ls, ns) && ns != [] && last == ns[|ns| - 1]
    requires end.next == null && end !in ns
    modifies last`next
    ensures IsList(ls, ns + [end])
    ensures Entries(ns + [end]) == old(Entries(ns)) + [Entry(end.word, end.freq)]
  {
    last.next := end;
  }

  // ----- The three find functions -----

  /** What all three do at a node that holds the word. */
  method Again(ele: Node, s: string, st: Counters, ghost ls: Node?, ghost ns: seq<Node>, ghost i: nat)
    requires IsList(ls, ns) && i < |ns| && ns[i] == ele && ele.word == s
    requires forall k :: 0 <= k < i ==> Entries(ns)[k].word != s
    modifies st, ele`freq
    ensures IsList(ls, ns)
    ensures forall place :: Entries(ns) == Bump(old(Entries(ns)), s, place)
    ensures st.Value() == Noted(old(st.Value()), old(Entries(ns)), s)
  {
    hide Bump, Noted;
    ghost var es := Entries(ns);
    Found(st.Value(), es, s, i);
    ele.freq := ele.freq + 1;
    st.CountRepeat(s, ele.freq);
    assert Entries(ns) == es[i := Entry(s, es[i].freq + 1)];
  }

  /** find_ele_rec: rewrites every next field on the way back. */
  method FindRec(ls: Node?, s: string, st: Counters, ghost ns: seq<Node>) returns (r: Node?, ghost ns': seq<Node>)
    requires IsList(ls, ns)
    modifies st, ns
    ensures IsList(r, ns') && forall x :: x in ns' ==> x in ns || fresh(x)
    ensures Entries(ns') == Bump(old(Entries(ns)), s, Rear)
    ensures st.Value() == Noted(old(st.Value()), old(Entries(ns)), s)
    decreases |ns|
  {
    hide Entries, IsList, Bump, Noted, NewWord, Repeated;
    ghost var es := Entries(ns);
    Nodes(ls, ns);
    if ls == null {
      NotFound(st.Value(), es, s);
      st.CountNew(s);
      r := new Node(s);
      ns' := [r];
      One(r);
    } else if s == ls.word {
      Again(ls, s, st, ls, ns, 0);
      r, ns' := ls, ns;
    } else {
      Tail(ls, ns);
      BumpRest(st.Value(), es, s);
      ghost var rest;
      ls.next, rest := FindRec(ls.next, s, st, ns[1..]);
      r, ns' := ls, [ls] + rest;
      Prepended(ls, rest);
    }
  }

  /** find_ele_iter_f: new words go to the front. */
  method FindFront(ls: Node?, s: string, st: Counters, ghost ns: seq<Node>) returns (r: Node?, ghost ns': seq<Node>)
    requires IsList(ls, ns)
    modifies st, ns
    ensures IsList(r, ns') && forall x :: x in ns' ==> x in ns || fresh(x)
    ensures Entries(ns') == Bump(old(Entries(ns)), s, Front)
    ensures st.Value() == Noted(old(st.Value()), old(Entries(ns)), s)
  {
    hide Entries, IsList, Bump, Noted, NewWord, Repeated;
    ghost var es, i := Entries(ns), 0;
    Nodes(ls, ns);
    var ele := ls;
    while ele != null
      invariant i <= |ns| && ele == At(ns, i) && IsList(ls, ns)
      invariant Entries(ns) == es && st.Value() == old(st.Value())
      invariant forall k :: 0 <= k < i ==> es[k].word != s
      decreases |ns| - i
    {
      if s == ele.word {
        Again(ele, s, st, ls, ns, i);
        return ls, ns;
      }
      Next(ls, ns, i);
      ele, i := ele.next, i + 1;
    }
    NotFound(st.Value(), es, s);
    var head := new Node(s);
    st.CountNew(s);
    head.next := ls;
    r, ns' := head, [head] + ns;
    Prepended(head, ns);
  }

  /** find_ele_iter_r: new words go to the end, through a pointer that trails behind. */
  method FindRear(ls: Node?, s: string, st: Counters, ghost ns: seq<Node>) returns (r: Node?, ghost ns': seq<Node>)
    requires IsList(ls, ns)
    modifies st, ns
    ensures IsList(r, ns') && forall x :: x in ns' ==> x in ns || fresh(x)
    ensures Entries(ns') == Bump(old(Entries(ns)), s, Rear)
    ensures st.Value() == Noted(old(st.Value()), old(Entries(ns)), s)
  {
    hide Entries, IsList, Bump, Noted, NewWord, Repeated;
    ghost var es, i := Entries(ns), 0;
    Nodes(ls, ns);
    var ele := ls;
    var last: Node? := null;
    while ele != null
      invariant i <= |ns| && ele == At(ns, i) && last == (if i > 0 then ns[i - 1] else null) && IsList(ls, ns)
      invariant Entries(ns) == es && st.Value() == old(st.Value())
      invariant forall k :: 0 <= k < i ==> es[k].word != s
      decreases |ns| - i
    {
      if s == ele.word {
        Again(ele, s, st, ls, ns, i);
        return ls, ns;
      }
      Next(ls, ns, i);
      last := ele;
      ele, i := ele.next, i + 1;
    }
    NotFound(st.Value(), es, s);
    var end := new Node(s);
    st.CountNew(s);
    end.next := null;
    ns' := ns + [end];
    if last != null {
      HookOn(last, end, ls, ns);
      r := ls;
    } else {
      r := end;
      One(end);
      assert ns' == [end];
    }
  }

  // ----- Strings -----

  method Strlen(s: array<char>) returns (len: nat)
    requires NUL in s[..]
    ensures len == IndexOf(s[..], NUL)
  {
    len := 0;
    while s[len] != NUL
      invariant len <= IndexOf(s[..], NUL)
      decreases s.Length - len
    {
      len := len + 1;
    }
  }

  ghost function LoweredBuffer(mem: seq<char>): seq<char> {
    var n := IndexOf(mem, NUL);
    Lower(mem[..n]) + mem[n..]
  }

  /** A buffer lowered up to i keeps its length as a string. */
  lemma PartlyLowered(mem: seq<char>, mem': seq<char>, i: nat)
    requires NUL in mem && |mem'| == |mem| && i <= IndexOf(mem, NUL)
    requires forall k :: 0 <= k < |mem| ==> mem'[k] == if k < i then LowerChar(mem[k]) else mem[k]
    ensures NUL in mem' && IndexOf(mem', NUL) == IndexOf(mem, NUL)
    ensures i == IndexOf(mem, NUL) ==> mem' == LoweredBuffer(mem)
  {
    hide LowerChar;
    var n := IndexOf(mem, NUL);
    assert n < |mem| by { var k :| 0 <= k < |mem| && mem[k] == NUL; }
    assert mem'[n] == NUL;
    forall k | 0 <= k < n ensures mem'[k] != NUL { LowerNeverEnds(mem[k]); }
    FirstNul(mem', n);
  }

  lemma LowerNeverEnds(c: char)
    ensures LowerChar(c) == NUL <==> c == NUL
  {
  }

  lemma FirstNul(mem: seq<char>, n: nat)
    requires n < |mem| && mem[n] == NUL && forall k :: 0 <= k < n ==> mem[k] != NUL
    ensures NUL in mem && IndexOf(mem, NUL) == n
  {
  }

  /** The string in a lowered buffer is the lowered string. */
  lemma LoweredText(mem: seq<char>)
    requires NUL in mem
    ensures NUL in LoweredBuffer(mem) && CString(LoweredBuffer(mem), 0) == Lower(CString(mem, 0))
  {
    var n := IndexOf(mem, NUL);
    TextEnds(mem);
    var low := LoweredBuffer(mem);
    assert mem[0..] == mem && CString(mem, 0) == mem[..n];
    assert low[n] == NUL && low[0..n] == Lower(mem[..n]);
    assert NUL !in Lower(mem[..n]);
    CStringIs(low, 0, Lower(mem[..n]));
  }

  /** lower1 measures the string again before every step. */
  method Lower1(s: array<char>)
    requires NUL in s[..]
    modifies s
    ensures s[..] == LoweredBuffer(old(s[..]))
  {
    ghost var mem := s[..];
    var i := 0;
    var len := Strlen(s);
    while i < len
      invariant i <= len == IndexOf(mem, NUL) && len < s.Length
      invariant forall k :: 0 <= k < s.Length ==> s[k] == if k < i then LowerChar(mem[k]) else mem[k]
    {
      if 'A' <= s[i] <= 'Z' {
        s[i] := (s[i] as int - ('A' as int - 'a' as int)) as char;
      }
      i := i + 1;
      PartlyLowered(mem, s[..], i);
      len := Strlen(s);
    }
    PartlyLowered(mem, s[..], i);
  }

  /** lower2 measures it once. */
  method Lower2(s: array<char>)
    requires NUL in s[..]
    modifies s
    ensures s[..] == LoweredBuffer(old(s[..]))
  {
    ghost var mem := s[..];
    var i := 0;
    var len := Strlen(s);
    while i < len
      invariant i <= len == IndexOf(mem, NUL) && len < s.Length
      invariant forall k :: 0 <= k < s.Length ==> s[k] == if k < i then LowerChar(mem[k]) else mem[k]
    {
      if 'A' <= s[i] <= 'Z' {
        s[i] := (s[i] as int - ('A' as int - 'a' as int)) as char;
      }
      i := i + 1;
    }
    PartlyLowered(mem, s[..], i);
  }

  lemma TextEnds(mem: seq<char>)
    requires NUL in mem
    ensures var text := CString(mem, 0);
            |text| < |mem| && text == mem[..|text|] && mem[|text|] == NUL && NUL !in text
  {
    var k :| 0 <= k < |mem| && mem[k] == NUL;
    assert mem[0..] == mem;
  }

  /** h_mod */
  method HashMod(s: array<char>, tsize: nat) returns (val: nat)
    requires NUL in s[..] && tsize > 0
    ensures val == Hash(ModHash, CString(s[..], 0), tsize)
  {
    hide ModStep, IndexOf;
    ghost var text := CString(s[..], 0);
    TextEnds(s[..]);
    var p := 0;
    val := 0;
    while s[p] != NUL
      invariant p <= |text| < s.Length && text == s[..|text|] && s[|text|] == NUL
      invariant val == ModFold(text[..p], tsize)
      decreases s.Length - p
    {
      assert text[..p + 1][..p] == text[..p] && text[..p + 1][p] == s[p];
      val := ModStep(val, s[p], tsize);
      p := p + 1;
    }
    assert text[..p] == text;
  }

  /** h_add */
  method HashAdd(s: array<char>, tsize: nat) returns (val: nat)
    requires NUL in s[..] && tsize > 0
    ensures val == Hash(AddHash, CString(s[..], 0), tsize)
  {
    hide CharValue, IndexOf;
    ghost var text := CString(s[..], 0);
    TextEnds(s[..]);
    var p := 0;
    val := 0;
    while s[p] != NUL
      invariant p <= |text| < s.Length && text == s[..|text|] && s[|text|] == NUL
      invariant val == AddFold(text[..p])
      decreases s.Length - p
    {
      assert text[..p + 1][..p] == text[..p];
      val := (val + CharValue(s[p])) % UINT;
      p := p + 1;
    }
    assert text[..p] == text;
    val := val % tsize;
  }

  /** h_xor */
  method HashXor(s: array<char>, tsize: nat) returns (val: nat)
    requires NUL in s[..] && tsize > 0
    ensures val == Hash(XorHash, CString(s[..], 0), tsize)
  {
    hide Mix, IndexOf;
    ghost var text := CString(s[..], 0);
    TextEnds(s[..]);
    var p, bits: bv32 := 0, 0;
    while s[p] != NUL
      invariant p <= |text| < s.Length && text == s[..|text|] && s[|text|] == NUL
      invariant bits == XorFold(text[..p])
      decreases s.Length - p
    {
      assert text[..p + 1][..p] == text[..p];
      bits := Mix(bits, s[p]);
      p := p + 1;
    }
    assert text[..p] == text;
    val := bits as int % tsize;
  }

  // ----- The table -----

  datatype LowerFun = LowerSlow | LowerFast

  datatype FindFun = FindRecursive | FindToFront | FindToRear

  function PlaceOf(find: FindFun): Place {
    if find == FindToFront then Front else Rear
  }

  /** Which end of the chain a word not found goes to. */
  lemma NewWordGoes(st: Stats, es: seq<Entry>, w: string)
    requires forall k :: 0 <= k < |es| ==> es[k].word != w
    ensures Bump(es, w, PlaceOf(FindToFront)) == [Entry(w, 1)] + es
    ensures Bump(es, w, PlaceOf(FindRecursive)) == es + [Entry(w, 1)] == Bump(es, w, PlaceOf(FindToRear))
  {
    NotFound(st, es, w);
  }

  function Length<T>(s: seq<T>): nat {
    |s|
  }

  method FindElement(find: FindFun, ls: Node?, s: string, st: Counters, ghost ns: seq<Node>)
    returns (r: Node?, ghost ns': seq<Node>)
    requires IsList(ls, ns)
    modifies st, ns
    ensures IsList(r, ns') && forall x :: x in ns' ==> x in ns || fresh(x)
    ensures Entries(ns') == Bump(old(Entries(ns)), s, PlaceOf(find))
    ensures st.Value() == Noted(old(st.Value()), old(Entries(ns)), s)
  {
    hide IsList, Entries, Bump, Noted;
    match find {
      case FindRecursive =>
        r, ns' := FindRec(ls, s, st, ns);
      case FindToFront =>
        r, ns' := FindFront(ls, s, st, ns);
      case FindToRear =>
        r, ns' := FindRear(ls, s, st, ns);
    }
  }

  /** The table is right for the words inserted so far: each bucket is a list of nodes that holds
      what it should, the statistics are those of the text, and there are ucnt nodes in all. */
  ghost predicate Right(htable: array<Node?>, hash: HashFun, st: Counters,
                        nodes: set<Node>, lists: seq<seq<Node>>, words: seq<string>)
    reads htable, st, nodes
  {
    && htable.Length == |lists| > 0
    && (forall b, i :: 0 <= b < |lists| && 0 <= i < |lists[b]| ==> lists[b][i] in nodes)
    && (forall b :: 0 <= b < |lists| ==> IsList(htable[b], lists[b]))
    && (forall b :: 0 <= b < |lists| ==> BucketHolds(Entries(lists[b]), words, hash, |lists|, b))
    && st.Value() == StatsOf(words)
    && Sum(lists, Length) == st.ucnt
  }

  lemma NowRight(htable: array<Node?>, hash: HashFun, st: Counters, nodes: set<Node>,
                 lists: seq<seq<Node>>, index: nat, chain: seq<Node>, words: seq<string>)
    requires htable.Length == |lists| > index
    requires IsList(htable[index], chain) && BucketHolds(Entries(chain), words, hash, |lists|, index)
    requires forall x :: x in chain ==> x in nodes
    requires forall c :: 0 <= c < |lists| && c != index ==>
               && (forall x :: x in lists[c] ==> x in nodes) && IsList(htable[c], lists[c])
               && BucketHolds(Entries(lists[c]), words, hash, |lists|, c)
    requires st.Value() == StatsOf(words) && Sum(lists[index := chain], Length) == st.ucnt
    ensures Right(htable, hash, st, nodes, lists[index := chain], words)
  {
    hide BucketHolds, Entries, IsList, StatsOf, Sum;
  }

  class Table {
    const htable: array<Node?>
    const hash: HashFun
    const st: Counters
    ghost var nodes: set<Node>
    ghost var lists: seq<seq<Node>>
    ghost var words: seq<string>

    ghost predicate Valid()
      reads this, htable, st, nodes
    {
      Right(htable, hash, st, nodes, lists, words)
    }

    ghost function Image(): (t: seq<seq<Entry>>)
      requires Valid()
      reads this, htable, st, nodes
      ensures TableHolds(t, words, hash)
    {
      var ls, all := lists, nodes;
      seq(|ls|, b requires 0 <= b < |ls| && (forall x :: x in ls[b] ==> x in all) reads all => Entries(ls[b]))
    }

    /** new_table, with the statistics as they are at the program's start. */
    constructor (size: nat, hash: HashFun)
      requires size > 0
      ensures Valid() && words == [] && this.hash == hash && |lists| == size
      ensures fresh(htable) && fresh(st) && fresh(nodes)
    {
      this.hash := hash;
      var counters := new Counters();
      st := counters;
      htable := new Node?[size](_ => null);
      nodes, words := {}, [];
      lists := seq(size, _ => []);
      new;
      SumZero(lists, Length);
    }

    lemma Size()
      requires Valid()
      ensures htable.Length == |lists| > 0
    {
    }

    lemma Answers()
      requires Valid()
      ensures st.Value() == StatsOf(words) && |Image()| > 0
      ensures forall w :: Frequency(Image(), hash, w) == multiset(words)[w]
    {
      hide Frequency;
      forall w ensures Frequency(Image(), hash, w) == multiset(words)[w] {
        TableCounts(Image(), words, hash, w);
      }
    }

    /** A node's word hashes to its bucket, so no node is in two buckets. */
    lemma Apart(b: nat, c: nat)
      requires Valid() && b < |lists| && c < |lists| && b != c
      ensures forall x :: x in lists[b] ==> x !in lists[c]
    {
      hide Hash;
      forall i, j | 0 <= i < |lists[b]| && 0 <= j < |lists[c]|
        ensures lists[b][i] != lists[c][j]
      {
        assert Hash(hash, Entries(lists[b])[i].word, |lists|) == b;
        assert Hash(hash, Entries(lists[c])[j].word, |lists|) == c;
      }
    }

    method HashOf(s: array<char>) returns (index: nat)
      requires NUL in s[..] && htable.Length > 0
      ensures index == Hash(hash, CString(s[..], 0), htable.Length)
    {
      match hash
      case ModHash => index := HashMod(s, htable.Length);
      case AddHash => index := HashAdd(s, htable.Length);
      case XorHash => index := HashXor(s, htable.Length);
    }

    /** The other buckets share no node with bucket index, and are right for the longer text too. */
    lemma OthersStay(word: string, index: nat)
      requires Valid() && index == Hash(hash, word, |lists|)
      ensures index < htable.Length == |lists| && forall x :: x in lists[index] ==> x in nodes
      ensures forall c :: 0 <= c < |lists| && c != index ==>
                && (forall x :: x in lists[c] ==> x !in lists[index] && x in nodes) && IsList(htable[c], lists[c])
                && BucketHolds(Entries(lists[c]), words + [word], hash, |lists|, c)
    {
      hide Hash, BucketHolds, Entries, IsList;
      forall c | 0 <= c < |lists| && c != index
        ensures forall x :: x in lists[c] ==> x !in lists[index]
        ensures BucketHolds(Entries(lists[c]), words + [word], hash, |lists|, c)
      {
        Apart(c, index);
        OthersKeep(Entries(lists[c]), words, hash, |lists|, c, word);
      }
    }

    lemma OwnBucket(word: string, index: nat, place: Place)
      requires Valid() && index == Hash(hash, word, |lists|)
      ensures index < htable.Length && IsList(htable[index], lists[index])
      ensures var es := Entries(lists[index]);
              && BucketHolds(Bump(es, word, place), words + [word], hash, |lists|, index)
              && Noted(st.Value(), es, word) == StatsOf(words + [word])
              && Noted(st.Value(), es, word).ucnt == Sum(lists, Length) + |Bump(es, word, place)| - |es|
    {
      hide Hash, Bump, Noted, BucketHolds, StatsOf, Entries, IsList, Sum;
      BumpKeeps(Entries(lists[index]), words, hash, |lists|, word, place);
      NotedIsNext(Entries(lists[index]), words, hash, |lists|, word, place);
    }

    /** The assignment htable[index] = find_ele_fun(htable[index], s). */
    method InsertWord(word: string, index: nat, find: FindFun)
      requires Valid() && index == Hash(hash, word, |lists|)
      modifies this`nodes, this`lists, this`words, st, htable, nodes
      ensures Valid() && fresh(nodes - old(nodes)) && |lists| == old(|lists|)
      ensures words == old(words) + [word]
      ensures Entries(lists[index]) == Bump(old(Entries(lists[index])), word, PlaceOf(find))
      ensures forall c :: 0 <= c < |lists| && c != index ==> Entries(lists[c]) == old(Entries(lists[c]))
    {
      hide Right, Hash, Bump, Noted, BucketHolds, StatsOf, Entries, IsList, Sum;
      OthersStay(word, index);
      OwnBucket(word, index, PlaceOf(find));
      ghost var chain := lists[index];
      ghost var chain';
      htable[index], chain' := FindElement(find, htable[index], word, st, chain);
      forall c | 0 <= c < |lists| && c != index
        ensures Entries(lists[c]) == old(Entries(lists[c]))
        ensures IsList(htable[c], lists[c]) && BucketHolds(Entries(lists[c]), words + [word], hash, |lists|, c)
      {
        assert forall x :: x in lists[c] ==> unchanged(x);
        assert forall i :: 0 <= i < |lists[c]| ==> lists[c][i] in lists[c];
        assert Entries(lists[c]) == old(Entries(lists[c]));
        assert IsList(htable[c], lists[c]) == old(IsList(htable[c], lists[c]));
      }
      SumUpdate(lists, index, chain', Length);
      ghost var nodes' := nodes + set x | x in chain';
      NowRight(htable, hash, st, nodes', lists, index, chain', words + [word]);
      assert fresh(nodes' - old(nodes));
      nodes, lists, words := nodes', lists[index := chain'], words + [word];
    }

    /** insert_string, with any of the lower case and find functions. */
    method InsertString(s: array<char>, lower: LowerFun, find: FindFun)
      requires Valid() && NUL in s[..]
      modifies this`nodes, this`lists, this`words, st, htable, nodes, s
      ensures Valid() && fresh(nodes - old(nodes)) && |lists| == old(|lists|)
      ensures s[..] == LoweredBuffer(old(s[..]))
      ensures words == old(words) + [CString(s[..], 0)] && CString(s[..], 0) == Lower(old(CString(s[..], 0)))
      ensures var b := Hash(hash, CString(s[..], 0), |lists|);
              && Entries(lists[b]) == Bump(old(Entries(lists[b])), CString(s[..], 0), PlaceOf(find))
              && forall c :: 0 <= c < |lists| && c != b ==> Entries(lists[c]) == old(Entries(lists[c]))
    {
      hide Right, Hash, Bump, LoweredBuffer, CString, Entries, Lower;
      Size();
      LoweredText(s[..]);
      var word, index := Prepare(s, lower);
      InsertWord(word, index, find);
    }

    /** Lowers the string and hashes it. */
    method Prepare(s: array<char>, lower: LowerFun) returns (word: string, index: nat)
      requires NUL in s[..] && htable.Length > 0
      modifies s
      ensures s[..] == LoweredBuffer(old(s[..])) && word == CString(s[..], 0)
      ensures index == Hash(hash, word, htable.Length)
    {
      hide Hash, Lower, IndexOf;
      match lower {
        case LowerSlow => Lower1(s);
        case LowerFast => Lower2(s);
      }
      var len := Strlen(s);
      word := s[..len];
      assert s[..][0..] == s[..];
      index := HashOf(s);
    }
  }
}
