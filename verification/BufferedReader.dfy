/** The buffered reader of the Rio package over a kernel that delivers the input in pieces of any
    size and may interrupt a read. */
module BufferedReader {

  const RIO_BUFSIZE: nat := 8192

  /** An open descriptor: what read(2) may do. The input still to come is fixed; how much of it
      one call delivers, and when a call is interrupted, is not. */
  class Descriptor {
    var input: string
    var interrupts: nat       // how many more calls a signal will interrupt
    const reliable: bool      // no error but the interrupts

    constructor (input: string, interrupts: nat, reliable: bool)
      ensures this.input == input && this.interrupts == interrupts && this.reliable == reliable
    {
      this.input, this.interrupts, this.reliable := input, interrupts, reliable;
    }

    /** A negative result is an error; eintr tells the interrupt from the others. */
    method Read(dst: array<char>) returns (r: int, eintr: bool)
      requires dst.Length > 0
      modifies this, dst
      ensures -1 <= r <= dst.Length
      ensures r >= 0 ==>
        && r <= |old(input)| && (r == 0 ==> old(input) == [])
        && dst[..r] == old(input)[..r] && input == old(input)[r..] && interrupts == old(interrupts)
      ensures r < 0 ==>
        && input == old(input)
        && (if eintr then interrupts < old(interrupts) else interrupts == old(interrupts) && !reliable)
    {
      var interrupted: bool, failed: bool := *, *;
      if interrupts > 0 && interrupted {
        interrupts := interrupts - 1;
        return -1, true;
      }
      if !reliable && failed {
        return -1, false;
      }
      var k: nat;
      if input == [] {
        k := 0;
      } else {
        k :| 1 <= k <= |input| && k <= dst.Length;
      }
      forall i | 0 <= i < k { dst[i] := input[i]; }
      input := input[k..];
      return k, false;
    }
  }

  /** The contents of a caller's buffer. */
  ghost function Bytes(a: array<char>): (s: seq<char>)
    reads a
    ensures |s| == a.Length
  {
    a[..]
  }

  /** rio_t */
  class Rio {
    const fd: Descriptor
    const buf: array<char>
    var cnt: int      // unread bytes in the internal buffer
    var bufptr: nat   // the next of them

    ghost predicate Valid()
      reads this
    {
      buf.Length == RIO_BUFSIZE && (cnt > 0 ==> bufptr + cnt <= buf.Length)
    }

    /** The bytes the caller has not been given yet. */
    ghost function Unread(): string
      requires Valid()
      reads this, buf, fd
    {
      (if cnt > 0 then buf[bufptr..bufptr + cnt] else []) + fd.input
    }

    /** rio_readinitb */
    constructor (fd: Descriptor)
      ensures Valid() && fresh(buf) && this.fd == fd && Unread() == fd.input
    {
      this.fd := fd;
      buf := new char[RIO_BUFSIZE];
      cnt := 0;
      bufptr := 0;
    }

    /** The refill loop of rio_read. */
    method Refill() returns (ok: bool)
      requires Valid()
      modifies this, buf, fd
      ensures Valid() && Unread() == old(Unread())
      ensures !ok ==> !fd.reliable
      ensures ok ==> cnt > 0 || (cnt == 0 && Unread() == [])
    {
      ok := true;
      while cnt <= 0
        invariant Valid() && Unread() == old(Unread())
        decreases fd.interrupts + (if cnt <= 0 then 1 else 0)
      {
        var eintr;
        cnt, eintr := fd.Read(buf);
        if cnt < 0 {
          if !eintr { return false; }
        } else if cnt == 0 {
          return;
        } else {
          bufptr := 0;
        }
      }
    }

    /** rio_read: give the caller at most n bytes, at usr[off..]. */
    method Read(usr: array<char>, off: nat, n: nat) returns (r: int)
      requires Valid() && off + n <= usr.Length && usr != buf
      modifies this, buf, fd, usr
      ensures Valid() && -1 <= r <= n
      ensures r >= 0 ==> Gives(old(Bytes(usr)), Bytes(usr), off, r, old(Unread()), Unread()) && (r == 0 ==> n == 0 || old(Unread()) == [])
      ensures r < 0 ==> Unread() == old(Unread()) && !fd.reliable
    {
      var ok := Refill();
      if !ok { return -1; }
      if cnt == 0 { return 0; }
      var k: nat := n;
      if cnt < n { k := cnt; }
      Hand(usr, off, k);
      return k;
    }

    /** The copy of rio_read, from the internal buffer to the caller's. */
    method Hand(usr: array<char>, off: nat, k: nat)
      requires Valid() && off + k <= usr.Length && usr != buf && 0 < cnt && k <= cnt
      modifies this, usr
      ensures Valid() && Gives(old(Bytes(usr)), Bytes(usr), off, k, old(Unread()), Unread())
    {
      hide Gives;
      ghost var internal, before, input := buf[bufptr..bufptr + cnt], Bytes(usr), fd.input;
      forall i | 0 <= i < k { usr[off + i] := buf[bufptr + i]; }
      assert Bytes(usr) == before[..off] + internal[..k] + before[off + k..];
      GivesFront(before, Bytes(usr), off, k, internal, input);
      bufptr := bufptr + k;
      cnt := cnt - k;
      assert buf[bufptr..bufptr + cnt] == internal[k..];
    }

    /** rio_read of one byte into a local variable. */
    method ReadChar() returns (rc: int, c: char)
      requires Valid()
      modifies this, buf, fd
      ensures Valid() && -1 <= rc <= 1
      ensures rc == 1 ==> |old(Unread())| > 0 && c == old(Unread())[0] && Unread() == old(Unread())[1..]
      ensures rc == 0 ==> old(Unread()) == [] && Unread() == []
      ensures rc < 0 ==> Unread() == old(Unread()) && !fd.reliable
    {
      var cell := new char[1];
      rc := Read(cell, 0, 1);
      c := cell[0];
      assert rc == 1 ==> cell[..][0] == old(Unread())[..1][0];
    }

    /** rio_readnb: exactly the next n bytes, fewer only when the input ends. */
    method ReadN(usr: array<char>, n: nat) returns (r: int)
      requires Valid() && n <= usr.Length && usr != buf
      modifies this, buf, fd, usr
      ensures Valid() && r >= -1
      ensures r >= 0 ==> BlockDone(old(Bytes(usr)), Bytes(usr), n, r, old(Unread()), Unread())
      ensures r < 0 ==> !fd.reliable && SomeLost(old(Unread()), Unread())
    {
      hide Gives, Unread, TakeN, SomeLost, Bytes, BlockDone;
      ghost var usr0, unread := Bytes(usr), Unread();
      ghost var mem, u := usr0, unread;
      GivesNothing(usr0, unread);
      var nleft: nat := n;
      while nleft > 0
        invariant Valid() && nleft <= n && mem == Bytes(usr) && u == Unread()
        invariant Gives(usr0, mem, 0, n - nleft, unread, u)
      {
        var nread := Read(usr, n - nleft, nleft);
        if nread < 0 {
          GivesBounds(usr0, mem, n - nleft, unread, u);
          return -1;
        }
        GivesMore(usr0, mem, Bytes(usr), n - nleft, nread, unread, u, Unread());
        mem, u := Bytes(usr), Unread();
        nleft := nleft - nread;
        if nread == 0 { break; }
      }
      AllTaken(usr0, mem, n - nleft, n, unread, u);
      BlockIsPiece(usr0, mem, n - nleft, n, unread, u);
      return n - nleft;
    }

    /** rio_readlineb: the next line, newline included, cut at maxlen - 1 bytes; a NUL after it
        unless the input had ended before the call. */
    method ReadLine(usr: array<char>, maxlen: nat) returns (r: int)
      requires Valid() && maxlen <= usr.Length && usr.Length > 0 && usr != buf
      modifies this, buf, fd, usr
      ensures Valid() && -1 <= r < usr.Length
      ensures r >= 0 ==> LineDone(Bytes(usr), r, old(Unread()), Unread(), Limit(maxlen))
      ensures r >= 0 ==> r <= |old(Unread())| && IsPiece(CallLine(maxlen), old(Unread()), Bytes(usr)[..r])
      ensures r >= 0 ==> Unread() == old(Unread())[r..]
      ensures r > 0 || (r == 0 && maxlen <= 1) ==> usr[r] == '\0'
      ensures r < 0 ==> !fd.reliable && SomeLost(old(Unread()), Unread())
    {
      hide InLine, LineDone, SomeLost, Unread, IsPiece;
      ghost var unread, limit := Unread(), Limit(maxlen);
      ghost var over := false;
      LineStart(Bytes(usr), unread, limit);
      var n, p := 1, 0;
      while n < maxlen
        invariant Valid() && p == n - 1 && p <= limit && !over
        invariant InLine(Bytes(usr), p, unread, Unread(), limit)
      {
        ghost var before, u := Bytes(usr), Unread();
        var rc, c := ReadChar();
        if rc == 1 {
          LineStep(before, p, c, unread, u, limit);
          usr[p] := c;
          p := p + 1;
          n := n + 1;
          if c == '\n' {
            over := true;
            break;
          }
        } else if rc == 0 {
          if n == 1 {
            LineEnd(before, p, unread, u, limit);
            LineIsPiece(before, p, unread, u, maxlen);
            return 0;
          }
          break;
        } else {
          LineLost(before, p, unread, u, limit);
          return -1;
        }
      }
      if over { LineBounds(Bytes(usr), p, unread, Unread(), limit); } else { LineEnd(Bytes(usr), p, unread, Unread(), limit); }
      usr[p] := '\0';
      LineIsPiece(Bytes(usr), p, unread, Unread(), maxlen);
      return n - 1;
    }
  }

  /** p bytes of the line are stored and the line is not over. */
  ghost predicate InLine(mem: seq<char>, p: nat, u: string, u': string, limit: nat) {
    && GivesAtLeast(mem, p, u, u') && p <= limit
    && p + LineLength(u', limit - p) == LineLength(u, limit)
  }

  /** The block is stored at the start of the buffer, nothing after it changed, and the rest is left. */
  ghost predicate BlockDone(mem: seq<char>, mem': seq<char>, n: nat, r: nat, u: string, u': string) {
    && r <= |u| && r <= |mem'| == |mem|
    && IsPiece(CallN(n), u, mem'[..r]) && mem'[r..] == mem[r..] && u' == u[r..]
  }

  /** The whole line is stored. */
  ghost predicate LineDone(mem: seq<char>, p: nat, u: string, u': string, limit: nat) {
    GivesAtLeast(mem, p, u, u') && p == LineLength(u, limit)
  }

  lemma LineStart(mem: seq<char>, u: string, limit: nat)
    ensures InLine(mem, 0, u, u, limit)
  {
  }

  lemma LineStep(mem: seq<char>, p: nat, c: char, u: string, u1: string, limit: nat)
    requires InLine(mem, p, u, u1, limit) && p < limit && p < |mem| && u1 != [] && u1[0] == c
    ensures if c == '\n' then LineDone(mem[p := c], p + 1, u, u1[1..], limit)
            else InLine(mem[p := c], p + 1, u, u1[1..], limit)
  {
    GivesOne(mem, p, c, u, u1);
  }

  /** What is stored after the line does not matter. */
  lemma LineBounds(mem: seq<char>, p: nat, u: string, u': string, limit: nat)
    requires LineDone(mem, p, u, u', limit) && p < |mem|
    ensures LineDone(mem[p := '\0'], p, u, u', limit)
  {
    GivesPrefix(mem, mem[p := '\0'], p, u, u');
  }

  /** The line is over at the limit, and at the end of the input. */
  lemma LineEnd(mem: seq<char>, p: nat, u: string, u': string, limit: nat)
    requires InLine(mem, p, u, u', limit) && p < |mem| && (p == limit || u' == [])
    ensures LineDone(mem, p, u, u', limit) && LineDone(mem[p := '\0'], p, u, u', limit)
  {
    LineBounds(mem, p, u, u', limit);
  }

  lemma LineLost(mem: seq<char>, p: nat, u: string, u': string, limit: nat)
    requires InLine(mem, p, u, u', limit)
    ensures SomeLost(u, u')
  {
  }

  lemma GivesFront(mem: seq<char>, mem': seq<char>, off: nat, k: nat, internal: string, input: string)
    requires k <= |internal| && off + k <= |mem| && mem' == mem[..off] + internal[..k] + mem[off + k..]
    ensures Gives(mem, mem', off, k, internal + input, internal[k..] + input)
  {
    assert (internal + input)[..k] == internal[..k] && (internal + input)[k..] == internal[k..] + input;
  }

  lemma GivesOne(mem: seq<char>, p: nat, c: char, u: string, u1: string)
    requires GivesAtLeast(mem, p, u, u1) && p < |mem| && u1 != [] && u1[0] == c
    ensures GivesAtLeast(mem[p := c], p + 1, u, u1[1..])
  {
    assert u[..p + 1] == u[..p] + [c];
    assert mem[p := c][..p + 1] == mem[..p] + [c];
  }

  /** The next r bytes of u are now at mem[off..], nothing else in mem changed, and u' is what is
      left of u. */
  ghost predicate Gives(mem: seq<char>, mem': seq<char>, off: nat, r: nat, u: string, u': string) {
    off + r <= |mem| && r <= |u| && mem' == mem[..off] + u[..r] + mem[off + r..] && u' == u[r..]
  }

  /** mem starts with the next r bytes of u, and u' is what is left. */
  ghost predicate GivesAtLeast(mem: seq<char>, r: nat, u: string, u': string) {
    r <= |mem| && r <= |u| && mem[..r] == u[..r] && u' == u[r..]
  }

  lemma GivesNothing(mem: seq<char>, u: string)
    ensures Gives(mem, mem, 0, 0, u, u)
  {
  }

  lemma GivesBounds(mem: seq<char>, mem': seq<char>, r: nat, u: string, u': string)
    requires Gives(mem, mem', 0, r, u, u')
    ensures r <= |u| && |u'| == |u| - r && SomeLost(u, u')
  {
  }

  lemma AllTaken(mem: seq<char>, mem': seq<char>, r: nat, n: nat, u: string, u': string)
    requires Gives(mem, mem', 0, r, u, u') && r <= n && (r == n || |u'| == 0)
    ensures r == TakeN(u, n)
  {
  }

  lemma GivesMore(mem0: seq<char>, mem1: seq<char>, mem2: seq<char>, done: nat, k: nat, u: string, u1: string, u2: string)
    requires Gives(mem0, mem1, 0, done, u, u1) && Gives(mem1, mem2, done, k, u1, u2)
    ensures Gives(mem0, mem2, 0, done + k, u, u2) && |u2| + k == |u1|
  {
    assert u[..done + k] == u[..done] + u1[..k];
    assert mem1[..done] == u[..done] && mem1[done + k..] == mem0[done + k..];
  }

  lemma GivesPrefix(mem: seq<char>, mem': seq<char>, r: nat, u: string, u': string)
    requires GivesAtLeast(mem, r, u, u') && |mem| == |mem'| && mem[..r] == mem'[..r]
    ensures GivesAtLeast(mem', r, u, u')
  {
  }

  /** A failed call may have taken bytes from the stream. */
  ghost predicate SomeLost(u: string, u': string) {
    |u'| <= |u| && u' == u[|u| - |u'|..]
  }

  function TakeN(s: string, n: nat): nat {
    if n <= |s| then n else |s|
  }

  function Limit(maxlen: nat): nat {
    if maxlen == 0 then 0 else maxlen - 1
  }

  /** Up to and including the first newline, but no more than limit bytes. */
  function LineLength(s: string, limit: nat): nat {
    if limit == 0 || s == [] then 0
    else if s[0] == '\n' then 1
    else 1 + LineLength(s[1..], limit - 1)
  }

  /** What a line call returns, without reference to the loop: only its last byte can be a newline,
      and it stops short of the limit only after a newline or at the end of the input. */
  lemma {:induction false} LineIsMaximal(s: string, limit: nat)
    ensures var r := LineLength(s, limit);
      && r <= limit && r <= |s|
      && (forall i :: 0 <= i < r - 1 ==> s[i] != '\n')
      && ((r > 0 && s[r - 1] == '\n') || r == limit || r == |s|)
  {
    if limit > 0 && s != [] && s[0] != '\n' {
      LineIsMaximal(s[1..], limit - 1);
      var r := LineLength(s[1..], limit - 1);
      assert forall i :: 0 < i < r ==> s[i] == s[1..][i - 1];
    }
  }

  /** And that property has one answer only. */
  lemma LineIsUnique(s: string, limit: nat, r: nat)
    requires r <= limit && r <= |s| && (forall i :: 0 <= i < r - 1 ==> s[i] != '\n')
    requires (r > 0 && s[r - 1] == '\n') || r == limit || r == |s|
    ensures r == LineLength(s, limit)
  {
    LineIsMaximal(s, limit);
  }

  // ----- Any mix of calls -----

  datatype Call = CallN(n: nat) | CallLine(maxlen: nat)

  /** What a call may return of the bytes u that are left: a block is n bytes, or all that is left; a
      line is shorter than maxlen, has a newline nowhere but at its end, and stops without one only for
      want of room or of bytes. */
  ghost predicate IsPiece(call: Call, u: string, piece: string) {
    && piece <= u
    && match call
       case CallN(n) => |piece| == n || (|piece| < n && piece == u)
       case CallLine(maxlen) =>
         && (|piece| < maxlen || piece == [])
         && (forall i :: 0 <= i < |piece| - 1 ==> piece[i] != '\n')
         && ((piece != [] && piece[|piece| - 1] == '\n') || |piece| + 1 == maxlen || maxlen == 0 || piece == u)
  }

  /** Only one piece is that. */
  lemma PieceIsUnique(call: Call, u: string, piece: string)
    requires IsPiece(call, u, piece)
    ensures |piece| == PieceLength(call, u) && piece == u[..PieceLength(call, u)]
  {
    match call
    case CallN(n) =>
    case CallLine(maxlen) =>
      assert forall i :: 0 <= i < |piece| ==> piece[i] == u[i];
      LineIsUnique(u, Limit(maxlen), |piece|);
  }

  lemma PieceExists(call: Call, u: string)
    ensures IsPiece(call, u, u[..PieceLength(call, u)])
  {
    match call
    case CallN(n) =>
      if |u| < n { assert u[..|u|] == u; }
    case CallLine(maxlen) =>
      LineIsMaximal(u, Limit(maxlen));
      if PieceLength(call, u) == |u| { assert u[..|u|] == u; }
  }

  lemma BlockIsPiece(mem: seq<char>, mem': seq<char>, r: nat, n: nat, u: string, u': string)
    requires Gives(mem, mem', 0, r, u, u') && r == TakeN(u, n)
    ensures BlockDone(mem, mem', n, r, u, u')
  {
    PieceExists(CallN(n), u);
    assert mem'[..r] == u[..r] && mem'[r..] == mem[r..];
  }

  lemma LineIsPiece(mem: seq<char>, p: nat, u: string, u': string, maxlen: nat)
    requires LineDone(mem, p, u, u', Limit(maxlen))
    ensures p <= |u| && p <= |mem| && IsPiece(CallLine(maxlen), u, mem[..p]) && u' == u[p..]
  {
    PieceExists(CallLine(maxlen), u);
  }

  /** The pieces are what the calls may return, each of what the ones before left over. */
  ghost predicate Explains(calls: seq<Call>, pieces: seq<string>, u: string)
    decreases |calls|
  {
    if calls == [] || pieces == [] then calls == [] && pieces == []
    else IsPiece(calls[0], u, pieces[0]) && Explains(calls[1..], pieces[1..], u[|pieces[0]|..])
  }

  /** And nothing else is. */
  lemma {:induction false} PiecesAreExplained(calls: seq<Call>, pieces: seq<string>, u: string)
    ensures Explains(calls, pieces, u) <==> pieces == Pieces(calls, u)
    decreases |calls|
  {
    hide IsPiece, PieceLength;
    if calls != [] && pieces != [] {
      var r := PieceLength(calls[0], u);
      PieceExists(calls[0], u);
      if IsPiece(calls[0], u, pieces[0]) { PieceIsUnique(calls[0], u, pieces[0]); }
      PiecesAreExplained(calls[1..], pieces[1..], u[r..]);
      assert pieces == [pieces[0]] + pieces[1..];
      assert Pieces(calls, u)[0] == u[..r] && Pieces(calls, u)[1..] == Pieces(calls[1..], u[r..]);
    }
  }

  function PieceLength(call: Call, unread: string): (r: nat)
    ensures r <= |unread|
  {
    match call
    case CallN(n) => TakeN(unread, n)
    case CallLine(maxlen) => LineIsMaximal(unread, Limit(maxlen)); LineLength(unread, Limit(maxlen))
  }

  /** What a series of calls returns, one after the other. */
  function Pieces(calls: seq<Call>, unread: string): seq<string> {
    if calls == [] then []
    else
      var r := PieceLength(calls[0], unread);
      [unread[..r]] + Pieces(calls[1..], unread[r..])
  }

  /** One call of a client, with a buffer of its own. */
  method Perform(rio: Rio, call: Call) returns (piece: string)
    requires rio.Valid() && rio.fd.reliable
    modifies rio, rio.buf, rio.fd
    ensures rio.Valid()
    ensures var u := old(rio.Unread()); var r := PieceLength(call, u); piece == u[..r] && rio.Unread() == u[r..]
  {
    hide LineLength, Limit;
    var r;
    match call {
      case CallN(n) =>
        var usr := new char[n];
        ghost var u := rio.Unread();
        r := rio.ReadN(usr, n);
        piece := usr[..r];
        PieceIsUnique(call, u, piece);
      case CallLine(maxlen) =>
        var usr := new char[maxlen + 1];
        r := rio.ReadLine(usr, maxlen);
        piece := usr[..r];
    }
  }

  /** A client of a reader whose kernel only interrupts gets the pieces, however the kernel cuts the
      input. */
  method PerformAll(rio: Rio, calls: seq<Call>) returns (pieces: seq<string>)
    requires rio.Valid() && rio.fd.reliable
    modifies rio, rio.buf, rio.fd
    ensures rio.Valid() && pieces == Pieces(calls, old(rio.Unread()))
    ensures Explains(calls, pieces, old(rio.Unread()))
    decreases |calls|
  {
    hide PieceLength, Explains;
    PiecesAreExplained(calls, Pieces(calls, rio.Unread()), rio.Unread());
    if calls == [] { return []; }
    var piece := Perform(rio, calls[0]);
    var rest := PerformAll(rio, calls[1..]);
    pieces := [piece] + rest;
  }

  function Flatten(pieces: seq<string>): string {
    if pieces == [] then "" else pieces[0] + Flatten(pieces[1..])
  }

  /** Line and block calls may be mixed freely: the pieces are consecutive parts of the input. */
  lemma {:induction false} PiecesAreConsecutive(calls: seq<Call>, unread: string)
    ensures Flatten(Pieces(calls, unread)) <= unread
  {
    if calls != [] {
      var r := PieceLength(calls[0], unread);
      PiecesAreConsecutive(calls[1..], unread[r..]);
      var rest := Flatten(Pieces(calls[1..], unread[r..]));
      assert Pieces(calls, unread)[1..] == Pieces(calls[1..], unread[r..]);
      assert unread == unread[..r] + unread[r..];
    }
  }

  /** Calls that ask for at least one byte each drain the whole input in at most |unread| calls. */
  lemma {:induction false} PiecesDrain(calls: seq<Call>, unread: string)
    requires |calls| >= |unread| && forall i :: 0 <= i < |calls| ==> AsksForSome(calls[i])
    ensures Flatten(Pieces(calls, unread)) == unread
  {
    hide PieceLength, AsksForSome;
    if calls != [] {
      var r := PieceLength(calls[0], unread);
      assert forall i :: 0 <= i < |calls[1..]| ==> calls[1..][i] == calls[i + 1];
      if unread != [] { GetsSome(calls[0], unread); }
      PiecesDrain(calls[1..], unread[r..]);
      assert Pieces(calls, unread)[1..] == Pieces(calls[1..], unread[r..]);
    }
  }

  predicate AsksForSome(call: Call) {
    match call
    case CallN(n) => n > 0
    case CallLine(maxlen) => maxlen > 1
  }

  lemma GetsSome(call: Call, unread: string)
    requires AsksForSome(call) && unread != []
    ensures PieceLength(call, unread) > 0
  {
  }
}
