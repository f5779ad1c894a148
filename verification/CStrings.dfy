/** NUL-terminated strings in memory. */
module CStrings {

  const NUL := '\0'

  /** The first place of c in s; |s| when it does not occur. */
  function IndexOf(s: string, c: char): (d: nat)
    ensures d <= |s| && (d < |s| ==> s[d] == c)
    ensures forall k :: 0 <= k < d ==> s[k] != c
  {
    if s == [] || s[0] == c then 0 else 1 + IndexOf(s[1..], c)
  }

  /** The C string at p. */
  function CString(mem: seq<char>, p: nat): string
    requires p <= |mem|
  {
    mem[p..p + IndexOf(mem[p..], NUL)]
  }

  lemma CStringIs(mem: seq<char>, p: nat, text: string)
    requires p + |text| < |mem| && mem[p..p + |text|] == text && mem[p + |text|] == NUL && NUL !in text
    ensures CString(mem, p) == text
  {
    var d := IndexOf(mem[p..], NUL);
    assert forall k :: 0 <= k < |text| ==> mem[p..][k] == text[k];
    assert mem[p..][|text|] == NUL;
    assert d == |text|;
  }
}
