/** The main loop of the dictionary program: the table of the n-grams of a text. */
module WordFrequency {
  import opened CStrings
  import opened Dictionary
  import opened NgramWindow
  import opened WordTable

  function LowerAll(tokens: seq<string>): seq<string> {
    seq(|tokens|, i requires 0 <= i < |tokens| => Lower(tokens[i]))
  }

  lemma {:induction false} JoinNoNul(ws: seq<string>)
    requires forall w :: w in ws ==> NUL !in w
    ensures NUL !in Join(ws)
  {
    if |ws| == 1 {
      assert ws[0] in ws;
    } else if |ws| > 1 {
      JoinNoNul(ws[..|ws| - 1]);
      assert ws[|ws| - 1] in ws;
    }
  }

  /** How many of the tokens equal x up to case. */
  ghost function CountUpToCase(tokens: seq<string>, x: string): nat {
    if tokens == [] then 0
    else CountUpToCase(tokens[..|tokens| - 1], x) + if EqualUpToCase(tokens[|tokens| - 1], x) then 1 else 0
  }

  /** Lowering puts exactly those together. */
  lemma {:induction false} LowerPutsTogether(tokens: seq<string>, x: string)
    ensures multiset(LowerAll(tokens))[Lower(x)] == CountUpToCase(tokens, x)
  {
    hide Lower, EqualUpToCase;
    if tokens == [] {
      LowerNothing();
    } else {
      var h, y := tokens[..|tokens| - 1], tokens[|tokens| - 1];
      LowerPutsTogether(h, x);
      LowerAllNext(tokens, |tokens| - 1);
      assert tokens[..|tokens|] == tokens;
      SameLower(y, x);
      assert multiset(LowerAll(h) + [Lower(y)]) == multiset(LowerAll(h)) + multiset{Lower(y)};
    }
  }

  lemma AllPutTogether(tokens: seq<string>)
    ensures forall x :: multiset(LowerAll(tokens))[Lower(x)] == CountUpToCase(tokens, x)
  {
    forall x ensures multiset(LowerAll(tokens))[Lower(x)] == CountUpToCase(tokens, x) {
      LowerPutsTogether(tokens, x);
    }
  }

  lemma LowerNothing()
    ensures LowerAll([]) == []
  {
  }

  lemma LowerAllNext(all: seq<string>, k: nat)
    requires k < |all|
    ensures LowerAll(all[..k + 1]) == LowerAll(all[..k]) + [Lower(all[k])]
  {
    assert all[..k + 1] == all[..k] + [all[k]];
  }

  method CopyText(text: string) returns (s: array<char>)
    ensures fresh(s) && s[..] == text + [NUL]
  {
    s := new char[|text| + 1](i requires 0 <= i <= |text| => if i < |text| then text[i] else NUL);
  }

  method InsertText(table: Table, text: string, lower: LowerFun, find: FindFun)
    requires table.Valid() && NUL !in text
    modifies table`nodes, table`lists, table`words, table.st, table.htable, table.nodes
    ensures table.Valid() && fresh(table.nodes - old(table.nodes))
    ensures table.words == old(table.words) + [Lower(text)]
  {
    hide Right, Entries, Bump, Hash, CString, Lower, LoweredBuffer;
    var s := CopyText(text);
    CStringIs(s[..], 0, text);
    table.InsertString(s, lower, find);
  }

  lemma Started(tok: Tokenizer, ngram: nat)
    requires tok.Valid(ngram) && tok.next == 0
    ensures tok.Produced(ngram) == 0 && tok.next <= |tok.words|
  {
  }

  /** word_freq without its report: the table afterwards is right for the n-grams of the text in
      lower case, whichever functions are chosen. */
  method WordFreq(words: seq<string>, ngram: nat, size: nat, hash: HashFun, lower: LowerFun, find: FindFun)
    returns (table: Table)
    requires 1 <= ngram <= MAXNG && size > 0 && forall w :: w in words ==> NUL !in w
    ensures table.Valid() && table.hash == hash
    ensures table.words == LowerAll(Ngrams(words, ngram))
    ensures table.st.Value() == StatsOf(table.words)
    ensures forall w :: Frequency(table.Image(), hash, w) == multiset(table.words)[w]
    ensures forall x :: Frequency(table.Image(), hash, Lower(x)) == CountUpToCase(Ngrams(words, ngram), x)
  {
    hide Ngrams, Join, Lower, LoweredBuffer, LowerAll, Right, Entries, Bump, Hash, CString;
    hide Tokenizer.Valid, Tokenizer.Produced;
    ghost var all := Ngrams(words, ngram);
    var tok := new Tokenizer(words, ngram);
    table := new Table(size, hash);
    Started(tok, ngram);
    assert all[..0] == [] && LowerAll([]) == [] by { LowerNothing(); }
    var token := tok.GetToken(ngram);
    ghost var k := 0;
    while token.Some?
      invariant tok.Valid(ngram) && tok.words == words && k <= |all|
      invariant tok.Produced(ngram) == k + if token.Some? then 1 else 0
      invariant if token.Some? then k < |all| && token.value == all[k] else k == |all|
      invariant table.Valid() && table.hash == hash && table.words == LowerAll(all[..k])
      invariant fresh(table) && fresh(table.htable) && fresh(table.st) && fresh(table.nodes)
      invariant fresh(tok) && fresh(tok.tokenBuf)
      decreases |all| - k, token.Some?
    {
      NgramAt(words, ngram, k);
      JoinNoNul(words[k..k + ngram]);
      LowerAllNext(all, k);
      InsertText(table, token.value, lower, find);
      k := k + 1;
      token := tok.GetToken(ngram);
    }
    assert all[..k] == all;
    table.Answers();
    AllPutTogether(all);
  }
}
