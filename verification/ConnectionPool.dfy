/** The pool of connected descriptors of the select-based echo server. */
module ConnectionPool {

  const FD_SETSIZE: nat := 1024

  /** The descriptors in the occupied slots. */
  ghost function Occupied(slots: seq<int>): set<int> {
    set i | 0 <= i < |slots| && slots[i] >= 0 :: slots[i]
  }

  /** The first free slot; |slots| when there is none. */
  function FirstFree(slots: seq<int>): (i: nat)
    ensures i <= |slots| && (i < |slots| ==> slots[i] < 0) && forall k :: 0 <= k < i ==> slots[k] >= 0
  {
    if slots == [] || slots[0] < 0 then 0 else 1 + FirstFree(slots[1..])
  }

  lemma FirstFreeIs(slots: seq<int>, i: nat)
    requires i < |slots| && slots[i] < 0 && forall k :: 0 <= k < i ==> slots[k] >= 0
    ensures FirstFree(slots) == i
  {
  }

  function Max(a: int, b: int): int {
    if a > b then a else b
  }

  ghost predicate DistinctFds(slots: seq<int>) {
    forall i, j :: 0 <= i < j < |slots| && slots[i] >= 0 ==> slots[i] != slots[j]
  }

  /** Occupied slots hold distinct descriptors, the read set is the listening descriptor and these,
      and the two high-water marks bound everything in use. */
  ghost predicate Consistent(slots: seq<int>, readSet: set<int>, maxfd: int, maxi: int, listenfd: int) {
    && DistinctFds(slots)
    && listenfd !in Occupied(slots)
    && readSet == {listenfd} + Occupied(slots)
    && -1 <= maxi < |slots|
    && (forall i :: maxi < i < |slots| ==> slots[i] < 0)
    && forall fd :: fd in readSet ==> 0 <= fd <= maxfd < FD_SETSIZE
  }

  class Pool {
    const clientfd: array<int>
    var readSet: set<int>
    var readySet: set<int>
    var nready: int
    var maxfd: int
    var maxi: int

    ghost predicate Valid(listenfd: int)
      reads this, clientfd
    {
      clientfd.Length == FD_SETSIZE && Consistent(clientfd[..], readSet, maxfd, maxi, listenfd)
    }

    /** init_pool */
    constructor (listenfd: int)
      requires 0 <= listenfd < FD_SETSIZE
      ensures Valid(listenfd) && fresh(clientfd)
      ensures Occupied(clientfd[..]) == {} && maxfd == listenfd && maxi == -1
    {
      maxi := -1;
      clientfd := new int[FD_SETSIZE](_ => -1);
      maxfd := listenfd;
      readSet := {listenfd};
      readySet := {};
      nready := 0;
    }

    /** add_client. Its loop always finds a free slot: distinct descriptors below FD_SETSIZE, one of
        them the listening one, cannot fill the table. */
    method AddClient(connfd: int, ghost listenfd: int)
      requires Valid(listenfd) && 0 <= connfd < FD_SETSIZE && connfd !in readSet
      modifies this`nready, this`readSet, this`maxfd, this`maxi, clientfd
      ensures Valid(listenfd)
      ensures Occupied(clientfd[..]) == old(Occupied(clientfd[..])) + {connfd}
      ensures nready == old(nready) - 1
      ensures var i := FirstFree(old(clientfd[..]));
              && i < FD_SETSIZE && clientfd[..] == old(clientfd[..])[i := connfd]
              && maxi == Max(old(maxi), i) && maxfd == Max(old(maxfd), connfd)
    {
      ghost var slots := clientfd[..];
      nready := nready - 1;
      var i := 0;
      while i < FD_SETSIZE && clientfd[i] >= 0
        invariant i <= FD_SETSIZE && clientfd[..] == slots
        invariant forall k :: 0 <= k < i ==> slots[k] >= 0
      {
        i := i + 1;
      }
      if i == FD_SETSIZE { var free := FreeSlot(slots, listenfd); }
      FirstFreeIs(slots, i);
      OccupiedPut(slots, i, connfd);
      clientfd[i] := connfd;
      assert clientfd[..] == slots[i := connfd];
      readSet := readSet + {connfd};
      if connfd > maxfd { maxfd := connfd; }
      if i > maxi { maxi := i; }
    }

    /** The end of the input was found on the descriptor in slot i. */
    method Remove(i: nat, ghost listenfd: int)
      requires Valid(listenfd) && i < FD_SETSIZE && clientfd[i] >= 0
      modifies this`readSet, clientfd
      ensures Valid(listenfd)
      ensures clientfd[..] == old(clientfd[..])[i := -1] && readSet == old(readSet - {clientfd[i]})
    {
      hide Consistent;
      ghost var slots := clientfd[..];
      ClearKeeps(slots, readSet, maxfd, maxi, listenfd, i);
      readSet := readSet - {clientfd[i]};
      clientfd[i] := -1;
      assert clientfd[..] == slots[i := -1];
    }

    /** check_clients. eof holds the descriptors on which the next read finds the end of the input;
        served lists the descriptors a line was read from, in order. */
    method CheckClients(eof: set<int>, ghost listenfd: int) returns (served: seq<int>)
      requires Valid(listenfd) && nready == |readySet * Occupied(clientfd[..])|
      modifies this`nready, this`readSet, clientfd
      ensures Valid(listenfd)
      ensures DistinctElements(served)
      ensures Elements(served) == readySet * old(Occupied(clientfd[..])) - {0}
      ensures nready == if 0 in readySet * old(Occupied(clientfd[..])) then 1 else 0
      ensures Occupied(clientfd[..]) == old(Occupied(clientfd[..])) - (Elements(served) * eof)
    {
      hide Consistent, Serving, Occupied, DistinctFds, Elements, DistinctElements;
      ghost var slots := clientfd[..];
      ghost var ready := readySet * Occupied(slots);
      served := [];
      assert DistinctFds(slots) by { Bounds(slots, readSet, maxfd, maxi, listenfd); }
      assert -1 <= maxi < |slots| by { Bounds(slots, readSet, maxfd, maxi, listenfd); }
      ServeStart(slots, ready, eof);
      var i := 0;
      while i <= maxi && nready > 0
        invariant 0 <= i <= maxi + 1
        invariant Valid(listenfd)
        invariant Serving(slots, clientfd[..], ready, served, i, eof) && nready == |ready| - |served|
      {
        var connfd := clientfd[i];
        ghost var cur := clientfd[..];
        if connfd > 0 && connfd in readySet {
          nready := nready - 1;
          StillListed(slots, cur, ready, served, i, eof);
          assert DistinctFds(cur) by { Bounds(cur, readSet, maxfd, maxi, listenfd); }
          ServeOne(slots, cur, ready, served, i, eof, listenfd);
          served := served + [connfd];
          if connfd in eof {
            Remove(i, listenfd);
          }
        } else {
          ServeNone(slots, cur, ready, served, i, eof);
        }
        i := i + 1;
      }
      Bounds(clientfd[..], readSet, maxfd, maxi, listenfd);
      ServeEnd(slots, clientfd[..], ready, served, i, eof, nready);
    }

    /** One turn of main's loop: select reports the descriptors in ready, accept would give connfd. */
    method Round(ready: set<int>, connfd: int, eof: set<int>, listenfd: int) returns (served: seq<int>)
      requires Valid(listenfd) && ready <= readSet
      requires listenfd in ready ==> 0 <= connfd < FD_SETSIZE && connfd !in readSet
      modifies this, clientfd
      ensures Valid(listenfd)
      ensures DistinctElements(served)
      ensures Elements(served) == ready - {listenfd, 0}
      ensures nready == if 0 in ready && listenfd != 0 then 1 else 0
      ensures readSet == old(readSet) + (if listenfd in ready then {connfd} else {}) - (Elements(served) * eof)
    {
      hide Consistent, Occupied, DistinctFds, Elements, DistinctElements;
      Bounds(clientfd[..], readSet, maxfd, maxi, listenfd);
      readySet := ready;
      nready := |ready|;
      ghost var watched, clients := readSet, Occupied(clientfd[..]);
      ghost var accepted := if listenfd in ready then {connfd} else {};
      ReadyClients(ready, clients, listenfd, accepted);
      if listenfd in readySet {
        AddClient(connfd, listenfd);
      }
      ghost var now := Occupied(clientfd[..]);
      assert now == clients + accepted;
      served := CheckClients(eof, listenfd);
      Bounds(clientfd[..], readSet, maxfd, maxi, listenfd);
      StillWatched(ready, watched, clients, listenfd, accepted, Elements(served), eof);
    }
  }

  ghost predicate DistinctElements(s: seq<int>) {
    forall i, j :: 0 <= i < j < |s| ==> s[i] != s[j]
  }

  lemma Bounds(slots: seq<int>, readSet: set<int>, maxfd: int, maxi: int, listenfd: int)
    requires Consistent(slots, readSet, maxfd, maxi, listenfd)
    ensures DistinctFds(slots) && -1 <= maxi < |slots| && forall k :: maxi < k < |slots| ==> slots[k] < 0
    ensures listenfd !in Occupied(slots) && readSet == {listenfd} + Occupied(slots)
  {
  }

  lemma ClearKeeps(slots: seq<int>, readSet: set<int>, maxfd: int, maxi: int, listenfd: int, i: nat)
    requires Consistent(slots, readSet, maxfd, maxi, listenfd) && i < |slots| && slots[i] >= 0
    ensures Consistent(slots[i := -1], readSet - {slots[i]}, maxfd, maxi, listenfd)
  {
    OccupiedClear(slots, i);
    InSlot(slots, i);
  }

  // ----- One pass over the slots -----

  /** Slots before i are done: their ready clients, except a descriptor 0, were served once each,
      and those at the end of their input left the table. */
  ghost predicate Serving(slots: seq<int>, cur: seq<int>, ready: set<int>, served: seq<int>, i: nat, eof: set<int>) {
    && |cur| == |slots| && i <= |slots| && DistinctFds(slots) && ready <= Occupied(slots)
    && (forall k :: i <= k < |slots| ==> cur[k] == slots[k])
    && DistinctElements(served)
    && Elements(served) == ready * Occupied(slots[..i]) - {0}
    && Occupied(cur) == Occupied(slots) - (Elements(served) * eof)
  }

  lemma ServeStart(slots: seq<int>, ready: set<int>, eof: set<int>)
    requires DistinctFds(slots) && ready <= Occupied(slots)
    ensures Serving(slots, slots, ready, [], 0, eof)
  {
    assert Occupied(slots[..0]) == {};
  }

  /** A slot the pass has not reached holds what it held at the start. */
  lemma StillListed(slots: seq<int>, cur: seq<int>, ready: set<int>, served: seq<int>, i: nat, eof: set<int>)
    requires Serving(slots, cur, ready, served, i, eof) && i < |slots| && cur[i] >= 0
    ensures cur[i] in Occupied(slots)
  {
    InSlot(slots, i);
  }

  lemma ServeNone(slots: seq<int>, cur: seq<int>, ready: set<int>, served: seq<int>, i: nat, eof: set<int>)
    requires Serving(slots, cur, ready, served, i, eof) && i < |slots|
    requires cur[i] <= 0 || cur[i] !in ready
    ensures Serving(slots, cur, ready, served, i + 1, eof)
  {
    OccupiedNext(slots, i);
  }

  lemma ServeOne(slots: seq<int>, cur: seq<int>, ready: set<int>, served: seq<int>, i: nat, eof: set<int>, listenfd: int)
    requires Serving(slots, cur, ready, served, i, eof) && i < |slots| && DistinctFds(cur)
    requires cur[i] > 0 && cur[i] in ready
    ensures Serving(slots, if cur[i] in eof then cur[i := -1] else cur, ready, served + [cur[i]], i + 1, eof)
  {
    OccupiedNext(slots, i);
    OccupiedClear(cur, i);
    ElementsSnoc(served, cur[i]);
    assert forall k :: 0 <= k < |served| ==> served[k] in Elements(served);
  }

  /** The loop stops at the high-water mark or when nready is 0; either way nobody is left out. */
  lemma ServeEnd(slots: seq<int>, cur: seq<int>, ready: set<int>, served: seq<int>, i: nat, eof: set<int>, nready: int)
    requires Serving(slots, cur, ready, served, i, eof) && nready == |ready| - |served|
    requires nready <= 0 || forall k :: i <= k < |slots| ==> cur[k] < 0
    ensures DistinctElements(served) && Elements(served) == ready - {0}
    ensures nready == if 0 in ready then 1 else 0
    ensures Occupied(cur) == Occupied(slots) - (Elements(served) * eof)
  {
    hide Occupied, Elements, DistinctElements, DistinctFds;
    ElementsCard(served);
    WithoutZero(ready);
    if nready > 0 {
      AllBelow(slots, i);
      assert ready * Occupied(slots) == ready;
    } else {
      SubsetSameCard(Elements(served), ready);
    }
  }

  lemma WithoutZero(ready: set<int>)
    ensures |ready| == |ready - {0}| + if 0 in ready then 1 else 0
    ensures 0 !in ready ==> ready - {0} == ready
  {
    if 0 !in ready { assert ready - {0} == ready; }
  }

  lemma InSlot(slots: seq<int>, i: nat)
    requires i < |slots| && slots[i] >= 0
    ensures slots[i] in Occupied(slots)
  {
  }

  ghost function Elements(s: seq<int>): set<int> {
    set i | 0 <= i < |s| :: s[i]
  }

  lemma ElementsSnoc(s: seq<int>, x: int)
    ensures Elements(s + [x]) == Elements(s) + {x}
  {
    var t := s + [x];
    forall y | y in Elements(s) + {x} ensures y in Elements(t) {
      if y == x { assert t[|s|] == x; } else {
        var i :| 0 <= i < |s| && s[i] == y;
        assert t[i] == y;
      }
    }
    forall y | y in Elements(t) ensures y in Elements(s) + {x} {
      var i :| 0 <= i < |t| && t[i] == y;
      if i < |s| { assert s[i] == y; }
    }
  }

  lemma {:induction false} ElementsCard(s: seq<int>)
    requires DistinctElements(s)
    ensures |Elements(s)| == |s|
  {
    if s == [] {
      assert Elements(s) == {};
    } else {
      var h, x := s[..|s| - 1], s[|s| - 1];
      ElementsCard(h);
      ElementsSnoc(h, x);
      assert h + [x] == s;
    }
  }

  lemma SubsetCard(a: set<int>, b: set<int>)
    requires a <= b
    ensures |a| <= |b|
  {
    assert a + (b - a) == b && a * (b - a) == {};
  }

  lemma SubsetSameCard(a: set<int>, b: set<int>)
    requires a <= b && |a| >= |b|
    ensures a == b
  {
    SubsetCard(b - a, b);
    assert b == a + (b - a) && a * (b - a) == {};
    assert |b - a| == 0;
  }

  /** What select reported, less the listening descriptor, are the ready clients; a client that was
      only just accepted is not among them. */
  lemma ReadyClients(ready: set<int>, clients: set<int>, listenfd: int, accepted: set<int>)
    requires ready <= {listenfd} + clients && listenfd !in clients && accepted !! ready
    ensures ready * (clients + accepted) == ready - {listenfd}
    ensures |ready - {listenfd}| == if listenfd in ready then |ready| - 1 else |ready|
    ensures clients + {} == clients
  {
    if listenfd !in ready {
      assert ready - {listenfd} == ready;
    }
  }

  lemma StillWatched(ready: set<int>, watched: set<int>, clients: set<int>, listenfd: int,
                     accepted: set<int>, served: set<int>, eof: set<int>)
    requires listenfd !in served && watched == {listenfd} + clients
    ensures {listenfd} + (clients + accepted - (served * eof)) == watched + accepted - (served * eof)
    ensures ready - {listenfd} - {0} == ready - {listenfd, 0}
  {
  }

  function Below(n: nat): (all: set<int>)
    ensures |all| == n && forall x :: x in all <==> 0 <= x < n
  {
    if n == 0 then {} else Below(n - 1) + {n - 1}
  }

  /** Distinct descriptors below the table's size, one of them not in the table, leave a free slot. */
  lemma FreeSlot(slots: seq<int>, listenfd: int) returns (i: nat)
    requires DistinctFds(slots) && 0 <= listenfd < |slots|
    requires listenfd !in Occupied(slots) && forall fd :: fd in Occupied(slots) ==> 0 <= fd < |slots|
    ensures i < |slots| && slots[i] < 0
  {
    if k: nat :| k < |slots| && slots[k] < 0 {
      i := k;
    } else {
      FullTable(slots);
      SubsetCard(Occupied(slots), Below(|slots|) - {listenfd});
      assert false;
    }
  }

  lemma FullTable(slots: seq<int>)
    requires DistinctFds(slots) && forall k :: 0 <= k < |slots| ==> slots[k] >= 0
    ensures |Occupied(slots)| == |slots|
  {
    ElementsCard(slots);
    assert Elements(slots) == Occupied(slots);
  }

  lemma OccupiedPut(slots: seq<int>, i: nat, fd: int)
    requires i < |slots| && slots[i] < 0 && fd >= 0 && fd !in Occupied(slots) && DistinctFds(slots)
    ensures Occupied(slots[i := fd]) == Occupied(slots) + {fd} && DistinctFds(slots[i := fd])
  {
    var slots' := slots[i := fd];
    forall x | x in Occupied(slots) + {fd} ensures x in Occupied(slots') {
      if x == fd { assert slots'[i] == x; } else {
        var k :| 0 <= k < |slots| && slots[k] >= 0 && slots[k] == x;
        assert slots'[k] == x;
      }
    }
    assert forall k :: 0 <= k < |slots| && slots[k] >= 0 ==> slots[k] in Occupied(slots);
  }

  lemma OccupiedClear(slots: seq<int>, i: nat)
    requires i < |slots| && slots[i] >= 0 && DistinctFds(slots)
    ensures Occupied(slots[i := -1]) == Occupied(slots) - {slots[i]} && DistinctFds(slots[i := -1])
  {
    var slots' := slots[i := -1];
    forall x | x in Occupied(slots) - {slots[i]} ensures x in Occupied(slots') {
      var k :| 0 <= k < |slots| && slots[k] >= 0 && slots[k] == x;
      assert slots'[k] == x;
    }
  }

  /** The occupied slots below i + 1; the descriptor in slot i is in none before it. */
  lemma OccupiedNext(slots: seq<int>, i: nat)
    requires i < |slots| && DistinctFds(slots)
    ensures Occupied(slots[..i + 1]) == Occupied(slots[..i]) + (if slots[i] >= 0 then {slots[i]} else {})
    ensures slots[i] >= 0 ==> slots[i] !in Occupied(slots[..i]) && slots[i] in Occupied(slots)
  {
    var a, b := slots[..i], slots[..i + 1];
    assert forall k :: 0 <= k < i ==> a[k] == b[k] == slots[k];
    assert b[i] == slots[i];
    forall x | x in Occupied(a) ensures x in Occupied(b) {
      var k :| 0 <= k < i && a[k] >= 0 && a[k] == x;
      assert b[k] == x;
    }
    forall x | x in Occupied(b) ensures x in Occupied(a) || x == slots[i] {
      var k :| 0 <= k < i + 1 && b[k] >= 0 && b[k] == x;
      if k < i { assert a[k] == x; }
    }
  }

  /** Past the high-water mark nothing is occupied. */
  lemma AllBelow(slots: seq<int>, i: nat)
    requires i <= |slots| && forall k :: i <= k < |slots| ==> slots[k] < 0
    ensures Occupied(slots[..i]) == Occupied(slots)
  {
    forall x | x in Occupied(slots) ensures x in Occupied(slots[..i]) {
      var k :| 0 <= k < |slots| && slots[k] >= 0 && slots[k] == x;
      assert slots[..i][k] == x;
    }
    forall x | x in Occupied(slots[..i]) ensures x in Occupied(slots) {
      var k :| 0 <= k < i && slots[..i][k] >= 0 && slots[..i][k] == x;
      assert slots[k] == x;
    }
  }
}
