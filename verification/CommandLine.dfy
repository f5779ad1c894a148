/** The shell's tokenizer: it cuts a copy of the command line in place. */
module CommandLine {

  import opened CStrings

  function SkipSpaces(s: string): (r: string)
    ensures |r| <= |s| && (r != [] ==> r[0] != ' ')
  {
    if s != [] && s[0] == ' ' then SkipSpaces(s[1..]) else s
  }

  /** The first word of a string without leading blanks, and what follows its delimiter. */
  datatype Split = NoWord | Word(word: string, rest: string)

  function SplitAt(s: string, delimiter: char): (r: Split)
    ensures r.Word? ==> |r.rest| < |s|
  {
    var d := IndexOf(s, delimiter);
    if d == |s| then NoWord else Word(s[..d], s[d + 1..])
  }

  function FirstWord(s: string): (r: Split)
    ensures r.Word? ==> |r.rest| < |s|
  {
    if s != [] && s[0] == '\'' then SplitAt(s[1..], '\'') else SplitAt(s, ' ')
  }

  /** The words of a line; a quote that is not closed, or a last word that no blank ends, drops
      the rest of the line. */
  function Tokens(s: string): seq<string>
    decreases |s|
  {
    match FirstWord(SkipSpaces(s))
    case NoWord => []
    case Word(word, rest) => [word] + Tokens(rest)
  }

  /** The words, without a last one that starts with &, and whether the job is a background one
      (no word at all says yes). */
  function Command(words: seq<string>): (r: (seq<string>, bool))
    ensures r.0 <= words
  {
    if words == [] then ([], true)
    else
      var last := words[|words| - 1];
      if last != [] && last[0] == '&' then (words[..|words| - 1], true) else (words, false)
  }

  /** The last character, normally the newline, counts as a blank. */
  function Parse(cmdline: string): (seq<string>, bool)
    requires cmdline != []
  {
    Command(Tokens(cmdline[..|cmdline| - 1] + " "))
  }

  /** strchr from p in a buffer whose string ends at n. */
  method StrChr(mem: array<char>, p: nat, n: nat, c: char) returns (found: bool, q: nat)
    requires p <= n < mem.Length && mem[n] == NUL && NUL !in mem[p..n] && c != NUL
    ensures p <= q <= n && (found <==> q < n)
    ensures SplitAt(mem[p..n], c) == if found then Word(mem[p..q], mem[q + 1..n]) else NoWord
  {
    ghost var s := mem[p..n];
    q := p;
    while mem[q] != NUL && mem[q] != c
      invariant p <= q <= n && IndexOf(s, c) >= q - p
      decreases n - q
    {
      assert q < n && mem[q] == s[q - p];
      q := q + 1;
    }
    found := mem[q] == c;
    assert q < n ==> mem[q] == s[q - p] && s[q - p] in s;
    assert IndexOf(s, c) == q - p;
    assert found ==> s[..q - p] == mem[p..q] && s[q - p + 1..] == mem[q + 1..n];
  }

  method SkipBlanks(mem: array<char>, p: nat, n: nat) returns (q: nat)
    requires p <= n < mem.Length && mem[n] == NUL && NUL !in mem[p..n]
    ensures p <= q <= n && mem[q..n] == SkipSpaces(mem[p..n])
  {
    ghost var s := mem[p..n];
    q := p;
    while mem[q] != NUL && mem[q] == ' '
      invariant p <= q <= n
      invariant SkipSpaces(s[q - p..]) == SkipSpaces(s)
      decreases n - q
    {
      assert mem[q] == s[q - p..][0];
      assert s[q - p..][1..] == s[q + 1 - p..];
      q := q + 1;
    }
    assert q < n ==> mem[q] == s[q - p..][0] && mem[q] in s;
    assert mem[q..n] == s[q - p..];
  }

  /** The words cut so far: argv[i] points at args[i], in the part the loop has left behind. */
  ghost predicate Cut(mem: seq<char>, argv: seq<nat>, args: seq<string>, before: nat) {
    && |argv| == |args| && before <= |mem|
    && forall i :: 0 <= i < |argv| ==>
         && argv[i] + |args[i]| < before && NUL !in args[i]
         && mem[argv[i]..argv[i] + |args[i]|] == args[i] && mem[argv[i] + |args[i]|] == NUL
  }

  /** From a place past the blanks: where the word would start, and its delimiter. */
  method NextDelimiter(mem: array<char>, p: nat, n: nat) returns (start: nat, found: bool, delim: nat)
    requires p <= n < mem.Length && mem[n] == NUL && NUL !in mem[p..n]
    ensures p <= start <= delim <= n && (found <==> delim < n)
    ensures FirstWord(mem[p..n]) == if found then Word(mem[start..delim], mem[delim + 1..n]) else NoWord
  {
    ghost var s := mem[p..n];
    if mem[p] == '\'' {
      start := p + 1;
      assert s[0] == '\'' && mem[start..n] == s[1..];
      assert NUL !in s[1..];
      found, delim := StrChr(mem, start, n, '\'');
    } else {
      start := p;
      found, delim := StrChr(mem, start, n, ' ');
    }
  }

  /** Between words: p is where the rest of the line starts, all its words in the end. */
  ghost predicate AtGap(mem: seq<char>, n: nat, p: nat, argv: seq<nat>, args: seq<string>, all: seq<string>) {
    && p <= n < |mem| && mem[n] == NUL && NUL !in mem[p..n]
    && Cut(mem, argv, args, p)
    && all == args + Tokens(mem[p..n])
  }

  /** At the loop's test: the next word and its delimiter, if there is one. */
  ghost predicate AtWord(mem: seq<char>, n: nat, start: nat, found: bool, delim: nat,
                         argv: seq<nat>, args: seq<string>, all: seq<string>) {
    && start <= delim <= n < |mem| && (found <==> delim < n)
    && mem[n] == NUL && NUL !in mem[start..n]
    && Cut(mem, argv, args, start)
    && all == args + if found then [mem[start..delim]] + Tokens(mem[delim + 1..n]) else []
  }

  /** Skip the blanks from p and look for the next word. */
  method NextWord(mem: array<char>, p: nat, n: nat, ghost argv: seq<nat>, ghost args: seq<string>, ghost all: seq<string>)
    returns (start: nat, found: bool, delim: nat)
    requires AtGap(mem[..], n, p, argv, args, all)
    ensures AtWord(mem[..], n, start, found, delim, argv, args, all) && p <= start
  {
    assert mem[p..n] == mem[..][p..n];
    var buf := SkipBlanks(mem, p, n);
    Within(mem[..], p, buf, n, n);
    start, found, delim := NextDelimiter(mem, buf, n);
    Within(mem[..], p, start, n, n);
    assert found ==> mem[start..delim] == mem[..][start..delim] && mem[delim + 1..n] == mem[..][delim + 1..n];
    assert Tokens(mem[p..n]) == if found then [mem[start..delim]] + Tokens(mem[delim + 1..n]) else [];
  }

  /** Ending the word: its delimiter becomes NUL. */
  lemma EndWord(mem: seq<char>, n: nat, start: nat, delim: nat, argv: seq<nat>, args: seq<string>, all: seq<string>)
    requires AtWord(mem, n, start, true, delim, argv, args, all)
    ensures AtGap(mem[delim := NUL], n, delim + 1, argv + [start], args + [mem[start..delim]], all)
  {
    Within(mem, start, start, delim, n);
    Within(mem, start, delim + 1, n, n);
    CutMore(mem, mem[delim := NUL], argv, args, start, start, delim);
    assert mem[delim := NUL][delim + 1..n] == mem[delim + 1..n];
  }

  /** parseline's loop: cut the string of length n into words, in place. */
  method CutWords(mem: array<char>, n: nat) returns (argv: seq<nat>, ghost args: seq<string>)
    requires n < mem.Length && mem[n] == NUL && NUL !in mem[..][0..n]
    modifies mem
    ensures args == Tokens(old(mem[..][0..n])) && Cut(mem[..], argv, args, n + 1)
  {
    hide AtWord, AtGap, Cut, Tokens;
    ghost var all := Tokens(mem[..][0..n]);
    args := [];
    argv := [];
    AtStart(mem[..], n);
    var start, found, delim := NextWord(mem, 0, n, argv, args, all);
    WordBounds(mem[..], n, start, found, delim, argv, args, all);
    while found
      invariant start <= delim <= n && (found <==> delim < n)
      invariant AtWord(mem[..], n, start, found, delim, argv, args, all)
      decreases n - delim
    {
      ghost var before := mem[..];
      EndWord(before, n, start, delim, argv, args, all);
      mem[delim] := NUL;
      assert mem[..] == before[delim := NUL];
      argv := argv + [start];
      args := args + [before[start..delim]];
      start, found, delim := NextWord(mem, delim + 1, n, argv, args, all);
      WordBounds(mem[..], n, start, found, delim, argv, args, all);
    }
    AllCut(mem[..], n, start, delim, argv, args, all);
  }

  lemma AtStart(mem: seq<char>, n: nat)
    requires n < |mem| && mem[n] == NUL && NUL !in mem[0..n]
    ensures AtGap(mem, n, 0, [], [], Tokens(mem[0..n]))
  {
  }

  lemma WordBounds(mem: seq<char>, n: nat, start: nat, found: bool, delim: nat,
                   argv: seq<nat>, args: seq<string>, all: seq<string>)
    requires AtWord(mem, n, start, found, delim, argv, args, all)
    ensures start <= delim <= n < |mem| && (found <==> delim < n)
  {
  }

  lemma AllCut(mem: seq<char>, n: nat, start: nat, delim: nat, argv: seq<nat>, args: seq<string>, all: seq<string>)
    requires AtWord(mem, n, start, false, delim, argv, args, all)
    ensures args == all && Cut(mem, argv, args, n + 1)
  {
  }

  /** The copy of the line, its last character replaced by a blank. */
  method CopyLine(cmdline: string, mem: array<char>)
    requires cmdline != [] && |cmdline| < mem.Length
    modifies mem
    ensures mem[..][0..|cmdline|] == cmdline[..|cmdline| - 1] + " " && mem[|cmdline|] == NUL
  {
    var n := |cmdline|;
    forall k | 0 <= k < n { mem[k] := cmdline[k]; }
    mem[n] := NUL;
    mem[n - 1] := ' ';
  }

  /** A last word starting with & is not passed on. */
  method DropAmpersand(mem: array<char>, all: seq<nat>, ghost words: seq<string>, ghost before: nat)
    returns (argv: seq<nat>, bg: bool)
    requires Cut(mem[..], all, words, before)
    ensures argv <= all && |argv| == |Command(words).0| && bg == Command(words).1
  {
    if |all| == 0 { return all, true; }
    var last := all[|all| - 1];
    FirstChar(mem[..], last, words[|words| - 1]);
    bg := mem[last] == '&';
    argv := if bg then all[..|all| - 1] else all;
  }

  /** parseline: argv holds places in the cut-up copy. */
  method ParseLine(cmdline: string, mem: array<char>) returns (argv: seq<nat>, bg: bool)
    requires cmdline != [] && NUL !in cmdline && |cmdline| < mem.Length
    modifies mem
    ensures bg == Parse(cmdline).1 && |argv| == |Parse(cmdline).0|
    ensures forall i :: 0 <= i < |argv| ==> argv[i] < mem.Length && CString(mem[..], argv[i]) == Parse(cmdline).0[i]
  {
    CopyLine(cmdline, mem);
    var all; ghost var words;
    all, words := CutWords(mem, |cmdline|);
    ArgvStrings(mem[..], all, words, |cmdline| + 1);
    argv, bg := DropAmpersand(mem, all, words, |cmdline| + 1);
  }

  lemma ArgvStrings(mem: seq<char>, argv: seq<nat>, args: seq<string>, before: nat)
    requires Cut(mem, argv, args, before)
    ensures forall i :: 0 <= i < |argv| ==> argv[i] < |mem| && CString(mem, argv[i]) == args[i]
  {
    forall i | 0 <= i < |argv| ensures argv[i] < |mem| && CString(mem, argv[i]) == args[i] {
      CStringIs(mem, argv[i], args[i]);
    }
  }

  /** A part of a part without NUL has none either. */
  lemma Within(mem: seq<char>, p: nat, q: nat, r: nat, n: nat)
    requires p <= q <= r <= n <= |mem| && NUL !in mem[p..n]
    ensures NUL !in mem[q..r]
  {
    forall k | q <= k < r ensures mem[k] != NUL { assert mem[k] == mem[p..n][k - p]; }
  }

  /** Ending one more word: its delimiter becomes NUL, the earlier words are not touched. */
  lemma CutMore(mem: seq<char>, mem': seq<char>, argv: seq<nat>, args: seq<string>, buf: nat, start: nat, delim: nat)
    requires Cut(mem, argv, args, buf) && buf <= start <= delim < |mem|
    requires mem' == mem[delim := NUL] && NUL !in mem[start..delim]
    ensures forall q :: delim < q <= |mem| ==> Cut(mem', argv + [start], args + [mem[start..delim]], q)
  {
    var argv', args' := argv + [start], args + [mem[start..delim]];
    forall i | 0 <= i < |argv'|
      ensures argv'[i] + |args'[i]| <= delim && NUL !in args'[i]
      ensures mem'[argv'[i]..argv'[i] + |args'[i]|] == args'[i] && mem'[argv'[i] + |args'[i]|] == NUL
    {
      if i < |argv| {
        assert mem[argv[i]..argv[i] + |args[i]|] == args[i];
      }
    }
  }

  /** What *argv[i] reads: NUL when the word is empty, else its first character. */
  lemma FirstChar(mem: seq<char>, p: nat, text: string)
    requires p + |text| < |mem| && mem[p..p + |text|] == text && mem[p + |text|] == NUL
    ensures mem[p] == if text == [] then NUL else text[0]
  {
  }

  // ----- The printer -----

  /** An argument as it is typed. */
  datatype Arg = Bare(text: string) | Quoted(text: string)

  ghost predicate Typable(a: Arg) {
    match a
    case Bare(text) => text != [] && ' ' !in text && text[0] != '\''
    case Quoted(text) => '\'' !in text
  }

  function Show(a: Arg): string {
    match a
    case Bare(text) => text
    case Quoted(text) => "'" + text + "'"
  }

  function Blanks(n: nat): string {
    seq(n, _ => ' ')
  }

  /** The arguments, each after its number of blanks, then a last run of blanks. */
  function Render(args: seq<Arg>, gaps: seq<nat>): string
    requires |gaps| == |args| + 1
  {
    if args == [] then Blanks(gaps[0])
    else Blanks(gaps[0]) + (Show(args[0]) + Render(args[1..], gaps[1..]))
  }

  /** A bare argument is followed by at least one blank, or by the end of the line. */
  ghost predicate Separated(args: seq<Arg>, gaps: seq<nat>)
    requires |gaps| == |args| + 1
  {
    forall i :: 0 <= i < |args| - 1 && args[i].Bare? ==> gaps[i + 1] >= 1
  }

  function Texts(args: seq<Arg>): seq<string> {
    seq(|args|, i requires 0 <= i < |args| => args[i].text)
  }

  lemma {:induction false} SkipBlanksAway(n: nat, s: string)
    ensures SkipSpaces(Blanks(n) + s) == SkipSpaces(s)
  {
    if n == 0 {
      assert Blanks(0) + s == s;
    } else {
      SkipBlanksAway(n - 1, s);
      assert (Blanks(n) + s)[1..] == Blanks(n - 1) + s;
    }
  }

  lemma TokensSkip(n: nat, s: string)
    ensures Tokens(Blanks(n) + s) == Tokens(s)
  {
    SkipBlanksAway(n, s);
  }

  lemma SplitAfter(text: string, c: char, rest: string)
    requires c !in text
    ensures SplitAt(text + [c] + rest, c) == Word(text, rest)
  {
    var s := text + [c] + rest;
    assert forall k :: 0 <= k < |text| ==> s[k] == text[k];
    assert s[|text|] == c;
    assert IndexOf(s, c) == |text|;
    assert s[..|text|] == text && s[|text| + 1..] == rest;
  }

  /** One argument in front of a rest that, after a bare one, starts with a blank. */
  lemma TokensOne(a: Arg, rest: string)
    requires Typable(a) && (a.Bare? ==> rest != [] && rest[0] == ' ')
    ensures Tokens(Show(a) + rest) == [a.text] + Tokens(rest)
  {
    if a.Quoted? { TokensQuoted(a.text, rest); } else { TokensBare(a.text, rest); }
  }

  lemma TokensBare(text: string, rest: string)
    requires Typable(Bare(text)) && rest != [] && rest[0] == ' '
    ensures Tokens(text + rest) == [text] + Tokens(rest)
  {
    var s := text + rest;
    assert s == text + [' '] + rest[1..];
    assert s[0] == text[0] && text[0] in text;
    SplitAfter(text, ' ', rest[1..]);
    assert SkipSpaces(s) == s && FirstWord(s) == Word(text, rest[1..]);
    assert SkipSpaces(rest) == SkipSpaces(rest[1..]);
  }

  lemma TokensQuoted(text: string, rest: string)
    requires Typable(Quoted(text))
    ensures Tokens(Show(Quoted(text)) + rest) == [text] + Tokens(rest)
  {
    var s := Show(Quoted(text)) + rest;
    assert s[0] == '\'' && s[1..] == text + ['\''] + rest;
    SplitAfter(text, '\'', rest);
    assert SkipSpaces(s) == s && FirstWord(s) == Word(text, rest);
  }

  lemma Regroup(a: string, b: string, c: string, d: string)
    ensures (a + (b + c)) + d == a + (b + (c + d))
  {
  }

  lemma TextsCons(args: seq<Arg>)
    requires args != []
    ensures Texts(args) == [args[0].text] + Texts(args[1..])
  {
  }

  lemma {:induction false} TokensRender(args: seq<Arg>, gaps: seq<nat>)
    requires |gaps| == |args| + 1 && Separated(args, gaps)
    requires forall i :: 0 <= i < |args| ==> Typable(args[i])
    ensures Tokens(Render(args, gaps) + " ") == Texts(args)
  {
    if args == [] {
      TokensSkip(gaps[0], " ");
      assert Tokens(" ") == [];
    } else {
      var a, rest := args[0], Render(args[1..], gaps[1..]) + " ";
      TailTypable(args, gaps);
      TokensRender(args[1..], gaps[1..]);
      StartsBlank(args[1..], gaps[1..]);
      TextsCons(args);
      Regroup(Blanks(gaps[0]), Show(a), Render(args[1..], gaps[1..]), " ");
      TokensSkip(gaps[0], Show(a) + rest);
      TokensOne(a, rest);
    }
  }

  lemma TailTypable(args: seq<Arg>, gaps: seq<nat>)
    requires |gaps| == |args| + 1 && Separated(args, gaps) && args != []
    requires forall i :: 0 <= i < |args| ==> Typable(args[i])
    ensures Separated(args[1..], gaps[1..]) && Typable(args[0])
    ensures forall i :: 0 <= i < |args[1..]| ==> Typable(args[1..][i])
    ensures args[0].Bare? && args[1..] != [] ==> gaps[1..][0] >= 1
  {
    forall i | 0 <= i < |args[1..]| - 1 && args[1..][i].Bare? ensures gaps[1..][i + 1] >= 1 {
      assert args[1..][i] == args[i + 1] && gaps[1..][i + 1] == gaps[i + 2];
    }
  }

  lemma StartsBlank(args: seq<Arg>, gaps: seq<nat>)
    requires |gaps| == |args| + 1
    ensures args == [] || gaps[0] >= 1 ==> (Render(args, gaps) + " ")[0] == ' '
  {
  }

  /** The parser undoes the printer: a typed line gives back the arguments that were typed, less
      a last one starting with &, which asks for a background job. */
  lemma {:induction false} ParseUndoesRender(args: seq<Arg>, gaps: seq<nat>)
    requires |gaps| == |args| + 1 && Separated(args, gaps) && args != []
    requires forall i :: 0 <= i < |args| ==> Typable(args[i])
    ensures var last := args[|args| - 1].text;
      Parse(Render(args, gaps) + "\n") ==
        if last != [] && last[0] == '&' then (Texts(args[..|args| - 1]), true) else (Texts(args), false)
  {
    hide Render, Tokens, Typable, Separated;
    var text := Render(args, gaps);
    assert (text + "\n")[..|text + "\n"| - 1] == text;
    TokensRender(args, gaps);
    assert Texts(args)[..|args| - 1] == Texts(args[..|args| - 1]);
  }

  /** A quote that is never closed drops the rest of the line. */
  lemma OpenQuoteDrops(text: string)
    requires '\'' !in text
    ensures Tokens("'" + text) == []
  {
    var s := "'" + text;
    assert s[0] == '\'' && s[1..] == text && SkipSpaces(s) == s;
    assert IndexOf(text, '\'') == |text|;
  }

  /** The last character counts as a blank whatever it is. */
  lemma LastCharacterIsBlank(text: string, c: char)
    ensures Parse(text + [c]) == Parse(text + "\n") && Parse(text + [c]) == Command(Tokens(text + " "))
  {
    assert (text + [c])[..|text|] == text && (text + "\n")[..|text|] == text;
  }

  /** A blank line is no command, and counts as a background one. */
  lemma ParseBlankLine(n: nat)
    ensures Parse(Blanks(n) + "\n") == ([], true)
  {
    assert (Blanks(n) + "\n")[..n] + " " == Blanks(n) + " ";
    TokensSkip(n, " ");
    assert Tokens(" ") == [];
  }
}
