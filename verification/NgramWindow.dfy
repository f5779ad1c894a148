/** The n-gram tokens of the dictionary program: a ring buffer of words read as a sliding window. */
module NgramWindow {

  const MAXNG: nat := 10

  datatype Option<T> = None | Some(value: T)

  /** Words joined by single spaces. */
  function Join(ws: seq<string>): string {
    if ws == [] then ""
    else if |ws| == 1 then ws[0]
    else Join(ws[..|ws| - 1]) + " " + ws[|ws| - 1]
  }

  /** A string cut at its blanks. */
  function Cut(s: string): seq<string> {
    if s == [] then [""]
    else
      var pieces, c := Cut(s[..|s| - 1]), s[|s| - 1];
      if pieces == [] then []
      else if c == ' ' then pieces + [""]
      else pieces[..|pieces| - 1] + [pieces[|pieces| - 1] + [c]]
  }

  lemma {:induction false} CutAppend(s: string, w: string)
    requires ' ' !in w && Cut(s) != []
    ensures Cut(s + w) == Cut(s)[..|Cut(s)| - 1] + [Cut(s)[|Cut(s)| - 1] + w]
  {
    if w == [] {
      assert s + w == s;
      var p := Cut(s);
      assert p == p[..|p| - 1] + [p[|p| - 1]] && p[|p| - 1] + w == p[|p| - 1];
    } else {
      var h, c := w[..|w| - 1], w[|w| - 1];
      assert ' ' !in h && c in w && c != ' ';
      CutAppend(s, h);
      assert (s + w)[..|s + w| - 1] == s + h && (s + w)[|s + w| - 1] == c;
      var p := Cut(s);
      assert p[|p| - 1] + h + [c] == p[|p| - 1] + w;
    }
  }

  lemma CutBlank(s: string)
    ensures Cut("") == [""] && Cut(s + " ") == if Cut(s) == [] then [] else Cut(s) + [""]
  {
    assert (s + " ")[..|s|] == s;
  }

  /** Cutting a token at its blanks gives back its words. */
  lemma {:induction false} CutUndoesJoin(ws: seq<string>)
    requires ws != [] && forall w :: w in ws ==> ' ' !in w
    ensures Cut(Join(ws)) == ws
  {
    hide Cut;
    var h, w := ws[..|ws| - 1], ws[|ws| - 1];
    assert w in ws;
    CutBlank("");
    if |ws| == 1 {
      CutAppend("", w);
      assert "" + w == w && ws == [w];
    } else {
      assert forall v :: v in h ==> v in ws;
      CutUndoesJoin(h);
      var s := Join(h) + " ";
      CutBlank(Join(h));
      CutAppend(s, w);
      assert (h + [""])[..|h|] == h && "" + w == w;
      assert ws == h + [w];
    }
  }

  /** The number of tokens of a text. */
  function TokenCount(words: nat, ngram: nat): nat {
    if words < ngram then 0 else words - ngram + 1
  }

  /** All tokens of a text: the windows of ngram consecutive words. */
  function Ngrams(words: seq<string>, ngram: nat): (tokens: seq<string>)
    requires ngram > 0
    ensures |tokens| == TokenCount(|words|, ngram)
    ensures forall i :: 0 <= i < |tokens| ==> tokens[i] == Join(words[i..i + ngram])
  {
    seq(TokenCount(|words|, ngram), i requires 0 <= i < TokenCount(|words|, ngram) => Join(words[i..i + ngram]))
  }

  lemma NgramAt(words: seq<string>, ngram: nat, k: nat)
    requires ngram > 0
    ensures k < |Ngrams(words, ngram)| <==> k + ngram <= |words|
    ensures k + ngram <= |words| ==> Ngrams(words, ngram)[k] == Join(words[k..k + ngram])
  {
  }

  lemma JoinNext(words: seq<string>, k: nat, i: nat)
    requires k + i < |words|
    ensures Join(words[k..k + i + 1]) == Join(words[k..k + i]) + (if i > 0 then " " else "") + words[k + i]
  {
    var ws := words[k..k + i + 1];
    assert ws[..i] == words[k..k + i] && ws[i] == words[k + i];
    if i == 0 { assert words[k..k + i] == []; }
  }

  /** Where word number c goes. */
  function Slot(c: nat): (i: nat)
    ensures i < MAXNG
  {
    c % MAXNG
  }

  lemma SlotNext(c: nat)
    ensures Slot(c + 1) == if Slot(c) + 1 >= MAXNG then 0 else Slot(c) + 1
  {
  }

  lemma SlotBack(c: nat, n: nat)
    requires n <= MAXNG && n <= c
    ensures Slot(c - n) == if Slot(c) < n then Slot(c) - n + MAXNG else Slot(c) - n
  {
  }

  lemma SlotStart(c: nat)
    requires c < MAXNG
    ensures Slot(c) == c
  {
  }

  lemma JoinOne(words: seq<string>, k: nat)
    requires k < |words|
    ensures Join(words[k..k + 1]) == words[k]
  {
  }

  lemma JoinNone(words: seq<string>, k: nat)
    requires k <= |words|
    ensures Join(words[k..k]) == ""
  {
  }

  /** get_token with its static variables; words is what get_word will return, read up to next. */
  class Tokenizer {
    const tokenBuf: array<string>
    const words: seq<string>
    var next: nat
    var first: bool
    var bindex: nat

    /** Once the buffer is primed the last MAXNG words read sit at their number modulo MAXNG. */
    ghost predicate Valid(ngram: nat)
      reads this, tokenBuf
    {
      && 1 <= ngram <= MAXNG && tokenBuf.Length == MAXNG && next <= |words|
      && (first ==> bindex < MAXNG && (ngram > 1 ==> bindex == next <= ngram - 1))
      && (first && ngram > 1 ==> forall j :: 0 <= j < next ==> tokenBuf[j] == words[j])
      && (!first ==> ngram > 1 && next >= ngram - 1 && bindex == Slot(next)
                     && Holds(tokenBuf[..], words, next))
    }

    /** How many tokens have been returned. */
    ghost function Produced(ngram: nat): nat
      requires Valid(ngram)
      reads this, tokenBuf
    {
      if next < ngram then 0 else next - ngram + 1
    }

    constructor (words: seq<string>, ghost ngram: nat)
      requires 1 <= ngram <= MAXNG
      ensures Valid(ngram) && this.words == words && next == 0 && fresh(tokenBuf)
    {
      this.words := words;
      tokenBuf := new string[MAXNG](_ => "");
      next, first, bindex := 0, true, 0;
    }

    /** get_word, on a stream of words that is already cut. */
    method GetWord() returns (word: Option<string>)
      requires next <= |words|
      modifies this`next
      ensures old(next) < |words| ==> word == Some(words[old(next)]) && next == old(next) + 1
      ensures old(next) == |words| ==> word == None && next == old(next)
    {
      if next == |words| { return None; }
      word := Some(words[next]);
      next := next + 1;
    }

    /** The i-th call that returns a token returns words i to i + ngram - 1, across all wraps of the
        ring, and there is a token exactly as long as that many words are left. */
    method GetToken(ngram: nat) returns (token: Option<string>)
      requires Valid(ngram)
      modifies this`next, this`first, this`bindex, tokenBuf
      ensures Valid(ngram)
      ensures var k, all := old(Produced(ngram)), Ngrams(words, ngram);
              if k < |all| then token == Some(all[k]) && Produced(ngram) == k + 1
              else token == None && Produced(ngram) == k
    {
      hide Join, Holds, Slot, Ngrams;
      ghost var k := Produced(ngram);
      NgramAt(words, ngram, k);
      if ngram == 1 {
        token := GetWord();
        if token.Some? { JoinOne(words, k); }
        return;
      }
      if first {
        var enough := Prime(ngram);
        if !enough { return None; }
      }
      var word := GetWord();
      if word.None? { return None; }
      HoldsNext(tokenBuf[..], words, next - 1);
      ghost var slots := tokenBuf[..];
      tokenBuf[bindex] := word.value;
      assert tokenBuf[..] == slots[bindex := word.value];
      SlotNext(next - 1);
      bindex := bindex + 1;
      if bindex >= MAXNG { bindex := 0; }
      var sbuf := Collect(ngram);
      token := Some(sbuf);
    }

    /** The first ngram - 1 words fill the buffer from its start. */
    method Prime(ngram: nat) returns (enough: bool)
      requires Valid(ngram) && first && ngram > 1
      modifies this`next, this`first, this`bindex, tokenBuf
      ensures Valid(ngram) && enough == !first
      ensures if enough then next == ngram - 1 else next == |words| < ngram - 1
    {
      while bindex < ngram - 1
        invariant Valid(ngram) && first
        decreases ngram - bindex
      {
        var word := GetWord();
        if word.None? { return false; }
        tokenBuf[bindex] := word.value;
        bindex := bindex + 1;
      }
      PrimedHolds();
      first := false;
      enough := true;
    }

    lemma PrimedHolds()
      requires tokenBuf.Length == MAXNG && next < MAXNG && next <= |words|
      requires forall j :: 0 <= j < next ==> tokenBuf[j] == words[j]
      ensures Slot(next) == next && Holds(tokenBuf[..], words, next)
    {
      forall j | 0 <= j <= next ensures Slot(j) == j { SlotStart(j); }
    }

    /** Joins the last ngram words, walking round the ring. */
    method Collect(ngram: nat) returns (sbuf: string)
      requires Valid(ngram) && !first && next >= ngram
      ensures sbuf == Join(words[next - ngram..next])
    {
      hide Join, Holds, Slot;
      ghost var k := next - ngram;
      var index := bindex as int - ngram as int;
      if index < 0 { index := index + MAXNG; }
      SlotBack(next, ngram);
      sbuf := "";
      JoinNone(words, k);
      for i := 0 to ngram
        invariant index == Slot(k + i) && sbuf == Join(words[k..k + i])
      {
        if i != 0 { sbuf := sbuf + " "; }
        JoinNext(words, k, i);
        HoldsAt(tokenBuf[..], words, next, k + i);
        SlotNext(k + i);
        sbuf := sbuf + tokenBuf[index];
        index := index + 1;
        if index >= MAXNG { index := 0; }
      }
    }
  }

  ghost predicate Holds(slots: seq<string>, words: seq<string>, next: nat)
    requires |slots| == MAXNG && next <= |words|
  {
    forall j :: 0 <= j < next && next - MAXNG <= j ==> slots[Slot(j)] == words[j]
  }

  lemma HoldsAt(slots: seq<string>, words: seq<string>, next: nat, j: nat)
    requires |slots| == MAXNG && j < next <= |words| && next - MAXNG <= j && Holds(slots, words, next)
    ensures slots[Slot(j)] == words[j]
  {
  }

  /** The next word goes over the oldest one. */
  lemma HoldsNext(slots: seq<string>, words: seq<string>, next: nat)
    requires |slots| == MAXNG && next < |words| && Holds(slots, words, next)
    ensures Holds(slots[Slot(next) := words[next]], words, next + 1)
  {
  }
}
