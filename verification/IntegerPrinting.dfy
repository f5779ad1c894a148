/** Printing a long in any base, digits first to last in place, and reading it back. */
module IntegerPrinting {
  import opened CStrings

  const LONG_MAX: int := 0x7fff_ffff_ffff_ffff
  const LONG_MIN: int := -LONG_MAX - 1

  /** Division and remainder truncate toward zero. */
  function Quot(v: int, b: int): int
    requires b > 0
  {
    if v >= 0 then v / b else -(-v / b)
  }

  function Rem(v: int, b: int): (r: int)
    requires b > 0
    ensures -b < r < b && (v >= 0 ==> r >= 0)
  {
    if v >= 0 then v % b else -(-v % b)
  }

  /** -v in 64 bits. */
  function Negated(v: int): int {
    if v == LONG_MIN then LONG_MIN else -v
  }

  function DigitChar(c: int): char
    requires -36 < c < 36
  {
    if c < 10 then (c + '0' as int) as char else (c - 10 + 'a' as int) as char
  }

  /** The characters of the 36 digits. */
  lemma DigitCharIs(d: nat)
    requires d < 36
    ensures DigitChar(d) == "0123456789abcdefghijklmnopqrstuvwxyz"[d]
  {
  }

  /** The characters the loop writes, lowest digit first. */
  function LowFirst(v: int, b: nat): (s: string)
    requires 2 <= b <= 36
    ensures |s| > 0
    decreases if v > 0 then v else 0
  {
    [DigitChar(Rem(v, b))] + if Quot(v, b) > 0 then QuotSmaller(v, b); LowFirst(Quot(v, b), b) else []
  }

  lemma QuotSmaller(v: int, b: nat)
    requires b >= 2 && Quot(v, b) > 0
    ensures v > 0 && 0 < Quot(v, b) == v / b < v
  {
    if v < 0 { NegativeQuot(v, b); }
  }

  lemma NegativeQuot(v: int, b: nat)
    requires v < 0 && b > 0
    ensures Quot(v, b) <= 0
  {
  }

  function Reverse(s: string): (r: string)
    ensures |r| == |s|
  {
    if s == [] then [] else Reverse(s[1..]) + [s[0]]
  }

  lemma {:induction false} ReverseAt(s: string, k: nat)
    requires k < |s|
    ensures Reverse(s)[k] == s[|s| - 1 - k]
  {
    if k < |s| - 1 { ReverseAt(s[1..], k); }
  }

  /** What sio_ltoa leaves in the buffer. */
  function Ltoa(v: int, b: nat): string
    requires 2 <= b <= 36
  {
    Reverse(if v < 0 then LowFirst(Negated(v), b) + "-" else LowFirst(v, b))
  }

  /** sio_reverse on the string of length n. */
  method SioReverse(s: array<char>)
    requires NUL in s[..]
    modifies s
    ensures CString(s[..], 0) == Reverse(old(CString(s[..], 0)))
  {
    ghost var mem := s[..];
    ghost var text := CString(mem, 0);
    assert mem[0..] == mem;
    var n := 0;
    while s[n] != NUL
      invariant n <= |text| < |mem|
      decreases |text| - n
    {
      assert text[..] == mem[0..|text|];
      n := n + 1;
    }
    assert n == |text|;
    var i, j := 0, n - 1;
    while i < j
      invariant 0 <= i <= j + 2 && i + j == n - 1
      invariant forall k :: 0 <= k < i ==> s[k] == mem[n - 1 - k] && s[n - 1 - k] == mem[k]
      invariant forall k :: i <= k <= j ==> s[k] == mem[k]
      invariant s[n] == NUL
    {
      var c := s[i];
      s[i] := s[j];
      s[j] := c;
      i, j := i + 1, j - 1;
    }
    Reversed(mem, s[..], n);
  }

  lemma Reversed(mem: seq<char>, now: seq<char>, n: nat)
    requires n < |mem| == |now| && mem[n] == NUL == now[n] && CString(mem, 0) == mem[..n]
    requires forall k :: 0 <= k < n ==> mem[k] != NUL && now[k] == mem[n - 1 - k]
    ensures CString(now, 0) == Reverse(mem[..n])
  {
    var text, r := mem[..n], Reverse(mem[..n]);
    forall k | 0 <= k < n ensures now[..n][k] == r[k] && r[k] != NUL {
      ReverseAt(text, k);
    }
    assert |r| == n by { if n > 0 { ReverseAt(text, 0); } }
    assert now[0..n] == r;
    CStringIs(now, 0, r);
  }

  /** sio_ltoa; the caller's buffer must have room for the digits, the sign and the NUL. */
  method SioLtoa(v: int, s: array<char>, b: nat)
    requires LONG_MIN <= v <= LONG_MAX && 2 <= b <= 36 && |Ltoa(v, b)| < s.Length
    modifies s
    ensures CString(s[..], 0) == Ltoa(v, b)
  {
    var neg := v < 0;
    var u := if neg then Negated(v) else v;
    ghost var digits := LowFirst(u, b);
    ghost var text := if neg then digits + "-" else digits;
    var i := 0;
    var more := true;
    while more
      invariant i <= |digits| && s[..i] == digits[..i]
      invariant if more then digits[i..] == LowFirst(u, b) else i == |digits|
      decreases |digits| - i, more
    {
      s[i] := DigitChar(Rem(u, b));
      assert digits[i] == digits[i..][0];
      assert digits[i + 1..] == digits[i..][1..];
      i := i + 1;
      more := Quot(u, b) > 0;
      u := Quot(u, b);
    }
    if neg {
      s[i] := '-';
      i := i + 1;
    }
    assert s[..i] == text;
    s[i] := NUL;
    NoNul(if neg then Negated(v) else v, b);
    CStringIs(s[..], 0, text);
    SioReverse(s);
  }

  lemma {:induction false} NoNul(v: int, b: nat)
    requires 2 <= b <= 36
    ensures NUL !in LowFirst(v, b)
    decreases if v > 0 then v else 0
  {
    if Quot(v, b) > 0 {
      QuotSmaller(v, b);
      NoNul(Quot(v, b), b);
    }
  }

  // ----- Reading it back -----

  datatype Parsed = Invalid | Number(value: int)

  /** The value of a digit; 36 for any other character. */
  function DigitValue(c: char): nat {
    if '0' <= c <= '9' then c as int - '0' as int
    else if 'a' <= c <= 'z' then c as int - 'a' as int + 10
    else 36
  }

  function ParseDigits(s: string, b: nat): Parsed {
    if s == [] then Number(0)
    else
      var front, d := ParseDigits(s[..|s| - 1], b), DigitValue(s[|s| - 1]);
      if front.Number? && d < b then Number(front.value * b + d) else Invalid
  }

  /** Base-b text to number: an optional minus sign, then at least one digit. */
  function ParseLong(s: string, b: nat): Parsed {
    if s == [] then Invalid
    else if s[0] != '-' then ParseDigits(s, b)
    else if |s| == 1 then Invalid
    else
      var r := ParseDigits(s[1..], b);
      if r.Number? then Number(-r.value) else Invalid
  }

  /** The digits of n, highest first. */
  function Digits(n: nat, b: nat): (s: string)
    requires 2 <= b <= 36
    ensures |s| > 0
  {
    DivFacts(n, b);
    if n < b then [DigitChar(n)] else Digits(n / b, b) + [DigitChar(n % b)]
  }

  lemma DivFacts(n: nat, b: nat)
    requires b >= 2
    ensures n / b * b + n % b == n && b * (n / b) + n % b == n && 0 <= n % b < b
    ensures n < b ==> n / b == 0 && n % b == n
    ensures n >= b ==> 0 < n / b < n
  {
    DivMod(n, b);
    SmallerQuotient(n, b, n / b, n % b);
  }

  lemma DivMod(n: nat, b: nat)
    requires b > 0
    ensures n == (n / b) * b + n % b && 0 <= n % b < b && n / b >= 0
  {
  }

  lemma SmallerQuotient(n: nat, b: nat, q: nat, r: nat)
    requires b >= 2 && n == q * b + r && r < b
    ensures b * q == q * b && (n < b ==> q == 0) && (n >= b ==> 0 < q < n)
  {
    MulMono(q, 2, b);
    if q > 0 { MulMono(b, 1, q); }
  }

  lemma {:induction false} LowFirstReversed(n: nat, b: nat)
    requires 2 <= b <= 36
    ensures Reverse(LowFirst(n, b)) == Digits(n, b)
  {
    DivFacts(n, b);
    var c, q := DigitChar(n % b), n / b;
    if n < b {
      assert LowFirst(n, b) == [c] && Reverse([c]) == Reverse([]) + [c] == [c];
    } else {
      LowFirstReversed(q, b);
      assert LowFirst(n, b) == [c] + LowFirst(q, b);
      assert LowFirst(n, b)[1..] == LowFirst(q, b);
    }
  }

  lemma {:induction false} DigitsParse(n: nat, b: nat)
    requires 2 <= b <= 36
    ensures ParseDigits(Digits(n, b), b) == Number(n)
  {
    DivFacts(n, b);
    if n < b {
      assert [DigitChar(n)][..0] == [];
      assert ParseDigits([], b) == Number(0);
    } else {
      var q, d := n / b, n % b;
      DigitsParse(q, b);
      DigitValueOf(d);
      var s := Digits(n, b);
      assert s == Digits(q, b) + [DigitChar(d)];
      assert s[..|s| - 1] == Digits(q, b) && s[|s| - 1] == DigitChar(d);
      assert q * b + d == n;
    }
  }

  lemma DigitValueOf(d: nat)
    requires d < 36
    ensures DigitValue(DigitChar(d)) == d && DigitChar(d) != '-'
  {
  }

  lemma {:induction false} ReverseSnoc(s: string, c: char)
    ensures Reverse(s + [c]) == [c] + Reverse(s)
  {
    if s == [] {
      assert s + [c] == [c] && Reverse([c]) == Reverse([]) + [c];
    } else {
      ReverseSnoc(s[1..], c);
      assert (s + [c])[1..] == s[1..] + [c];
    }
  }

  lemma LtoaIs(v: int, b: nat)
    requires LONG_MIN < v && 2 <= b <= 36
    ensures Ltoa(v, b) == if v < 0 then "-" + Digits(-v, b) else Digits(v, b)
  {
    if v < 0 {
      LowFirstReversed(-v, b);
      ReverseSnoc(LowFirst(-v, b), '-');
      assert LowFirst(-v, b) + ['-'] == LowFirst(-v, b) + "-";
    } else {
      LowFirstReversed(v, b);
    }
  }

  lemma {:induction false} NoSignInDigits(n: nat, b: nat)
    requires 2 <= b <= 36
    ensures Digits(n, b)[0] != '-'
  {
    DivFacts(n, b);
    if n >= b { NoSignInDigits(n / b, b); } else { DigitValueOf(n); }
  }

  /** The text of the smallest long has one character after the sign, never the number's value. */
  lemma LtoaOfMin(b: nat)
    requires 2 <= b <= 36
    ensures |Ltoa(LONG_MIN, b)| == 2 && ParseLong(Ltoa(LONG_MIN, b), b) != Number(LONG_MIN)
  {
    NegativeQuot(LONG_MIN, b);
    var c := DigitChar(Rem(LONG_MIN, b));
    assert LowFirst(LONG_MIN, b) == [c];
    ReverseSnoc([c], '-');
    assert Reverse([c]) == Reverse([]) + [c] == [c];
    var s := Ltoa(LONG_MIN, b);
    assert s == ['-', c];
    assert s[1..] == [c] && [c][..0] == [];
    assert ParseDigits([c], b) == if DigitValue(c) < b then Number(DigitValue(c)) else Invalid;
  }

  /** The printer is undone by the parser exactly for the longs whose negation is a long. */
  lemma RoundTrip(v: int, b: nat)
    requires LONG_MIN <= v <= LONG_MAX && 2 <= b <= 36
    ensures ParseLong(Ltoa(v, b), b) == Number(v) <==> v != LONG_MIN
  {
    if v == LONG_MIN {
      LtoaOfMin(b);
    } else {
      var n := if v < 0 then -v else v;
      LtoaIs(v, b);
      DigitsParse(n, b);
      NoSignInDigits(n, b);
      if v < 0 { assert Ltoa(v, b)[1..] == Digits(n, b); }
    }
  }

  function Pow(b: nat, k: nat): nat {
    if k == 0 then 1 else b * Pow(b, k - 1)
  }

  lemma ScaleDown(n: nat, b: nat, lo: nat, hi: nat)
    requires b >= 2 && lo <= n / b < hi
    ensures b * lo <= n < b * hi
  {
    DivFacts(n, b);
    MulMono(b, lo, n / b);
    MulMono(b, n / b + 1, hi);
    assert b * (n / b + 1) == b * (n / b) + b;
  }

  lemma MulMono(b: nat, x: nat, y: nat)
    requires x <= y
    ensures b * x <= b * y
  {
  }

  /** The digits are as few as the value allows: k digits mean b^(k-1) <= n < b^k, and the first
      is not a zero unless n is. */
  lemma {:induction false} DigitsMinimal(n: nat, b: nat)
    requires 2 <= b <= 36
    ensures var k := |Digits(n, b)|;
      && n < Pow(b, k) && (n > 0 ==> Pow(b, k - 1) <= n)
      && (Digits(n, b)[0] == '0' <==> n == 0)
  {
    DivFacts(n, b);
    if n < b {
      assert Pow(b, 1) == b * Pow(b, 0) == b;
    } else {
      assert n / b > 0;
      DigitsMinimal(n / b, b);
      var k := |Digits(n / b, b)|;
      ScaleDown(n, b, Pow(b, k - 1), Pow(b, k));
    }
  }
}
