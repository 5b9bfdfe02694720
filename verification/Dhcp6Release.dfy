/**
 Splitting an identity association for a Release or Decline: Dhcp6DepriveAddress in
 NetworkPkg/Dhcp6Dxe/Dhcp6Utility.c, which shifts the address array in place.
 */
module Dhcp6Release {
  import opened Bytes
  import opened Dhcp6Codec

  predicate DistinctIps(s: seq<IaAddress>) {
    forall i, j :: 0 <= i < j < |s| ==> s[i].ip != s[j].ip
  }

  predicate DistinctRequests(r: seq<Ipv6>) {
    forall i, j :: 0 <= i < j < |r| ==> r[i] != r[j]
  }

  predicate Present(s: seq<IaAddress>, ip: Ipv6) {
    exists i :: 0 <= i < |s| && s[i].ip == ip
  }

  predicate AllPresent(s: seq<IaAddress>, r: seq<Ipv6>) {
    forall k :: 0 <= k < |r| ==> Present(s, r[k])
  }

  /** The first entry with the address is taken out. */
  function Without(s: seq<IaAddress>, ip: Ipv6): seq<IaAddress> {
    if s == [] then [] else if s[0].ip == ip then s[1..] else [s[0]] + Without(s[1..], ip)
  }

  function WithoutAll(s: seq<IaAddress>, r: seq<Ipv6>): seq<IaAddress> {
    if r == [] then s else Without(WithoutAll(s, r[..|r| - 1]), r[|r| - 1])
  }

  /** What stays: the entries nobody asked for, in their order. */
  function Unrequested(s: seq<IaAddress>, r: seq<Ipv6>): seq<IaAddress> {
    if s == [] then [] else (if s[0].ip in r then [] else [s[0]]) + Unrequested(s[1..], r)
  }

  /** What goes: for each request the entry with that address, in the order of the requests. */
  predicate Requested(s: seq<IaAddress>, r: seq<Ipv6>, copy: seq<IaAddress>) {
    |copy| == |r| && forall k :: 0 <= k < |r| ==> copy[k] in s && copy[k].ip == r[k]
  }

  lemma {:induction false} WithoutAt(s: seq<IaAddress>, i: nat)
    requires i < |s| && forall j :: 0 <= j < i ==> s[j].ip != s[i].ip
    ensures Without(s, s[i].ip) == s[..i] + s[i + 1..]
  {
    if i > 0 {
      WithoutAt(s[1..], i - 1);
      assert s[1..][i - 1] == s[i] && s[1..][..i - 1] == s[1..i] && s[1..][i..] == s[i + 1..];
      assert s[..i] == [s[0]] + s[1..i];
    }
  }

  /** Taking out one address of a distinct list takes out every entry with it. */
  lemma {:induction false} WithoutIsUnrequested(s: seq<IaAddress>, r: seq<Ipv6>, ip: Ipv6)
    requires DistinctIps(s) && ip !in r
    ensures Without(Unrequested(s, r), ip) == Unrequested(s, r + [ip])
  {
    if s != [] {
      var rest := s[1..];
      assert s[0].ip in r + [ip] <==> s[0].ip in r || s[0].ip == ip;
      if s[0].ip !in r {
        assert Unrequested(s, r) == [s[0]] + Unrequested(rest, r);
        assert Unrequested(s, r)[0] == s[0] && Unrequested(s, r)[1..] == Unrequested(rest, r);
      } else {
        assert Unrequested(s, r) == Unrequested(rest, r);
      }
      if s[0].ip == ip {
        assert forall j :: 0 <= j < |rest| ==> rest[j].ip != ip;
        NotRequested(rest, r, ip);
      } else {
        WithoutIsUnrequested(rest, r, ip);
      }
    }
  }

  lemma {:induction false} NotRequested(s: seq<IaAddress>, r: seq<Ipv6>, ip: Ipv6)
    requires forall j :: 0 <= j < |s| ==> s[j].ip != ip
    ensures Unrequested(s, r + [ip]) == Unrequested(s, r)
  {
    if s != [] {
      NotRequested(s[1..], r, ip);
      assert s[0].ip in r <==> s[0].ip in r + [ip];
    }
  }

  lemma {:induction false} WithoutAllIsUnrequested(s: seq<IaAddress>, r: seq<Ipv6>)
    requires DistinctIps(s) && DistinctRequests(r)
    ensures WithoutAll(s, r) == Unrequested(s, r)
    decreases |r|
  {
    if r == [] {
      NothingRequested(s);
    } else {
      var n := |r| - 1;
      WithoutAllIsUnrequested(s, r[..n]);
      WithoutIsUnrequested(s, r[..n], r[n]);
      assert r == r[..n] + [r[n]];
    }
  }

  lemma {:induction false} NothingRequested(s: seq<IaAddress>)
    ensures Unrequested(s, []) == s
  {
    if s != [] { NothingRequested(s[1..]); }
  }

  lemma {:induction false} UnrequestedHas(s: seq<IaAddress>, r: seq<Ipv6>, e: IaAddress)
    ensures e in Unrequested(s, r) <==> e in s && e.ip !in r
  {
    if s != [] { UnrequestedHas(s[1..], r, e); }
  }

  lemma {:induction false} UnrequestedCount(s: seq<IaAddress>, r: seq<Ipv6>)
    ensures |Unrequested(s, r)| <= |s|
    ensures forall e :: multiset(Unrequested(s, r))[e] == if e.ip in r then 0 else multiset(s)[e]
  {
    if s != [] {
      UnrequestedCount(s[1..], r);
      assert s == [s[0]] + s[1..];
      assert multiset(s) == multiset{s[0]} + multiset(s[1..]);
      assert Unrequested(s, r) == (if s[0].ip in r then [] else [s[0]]) + Unrequested(s[1..], r);
    }
  }

  /** Conservation: what goes and what stays are together what was there, nothing lost or duplicated. */
  lemma {:induction false} SplitConserves(s: seq<IaAddress>, r: seq<Ipv6>, copy: seq<IaAddress>)
    requires DistinctIps(s) && DistinctRequests(r) && Requested(s, r, copy)
    ensures multiset(copy) + multiset(Unrequested(s, r)) == multiset(s)
  {
    UnrequestedCount(s, r);
    DistinctCopy(r, copy);
    forall e ensures multiset(copy)[e] + multiset(Unrequested(s, r))[e] == multiset(s)[e] {
      DistinctCount(s, e);
      DistinctCount(copy, e);
      CopyHas(s, r, copy, e);
    }
  }

  /** The copy consists of the listed entries somebody asked for. */
  lemma {:induction false} CopyHas(s: seq<IaAddress>, r: seq<Ipv6>, copy: seq<IaAddress>, e: IaAddress)
    requires DistinctIps(s) && Requested(s, r, copy)
    ensures e in copy <==> e in s && e.ip in r
  {
    if e in s && e.ip in r {
      var k :| 0 <= k < |r| && r[k] == e.ip;
      SameIpSameEntry(s, copy[k], e);
    }
    if e in copy {
      var k :| 0 <= k < |copy| && copy[k] == e;
      assert r[k] == e.ip;
    }
  }

  lemma {:induction false} SameIpSameEntry(s: seq<IaAddress>, a: IaAddress, b: IaAddress)
    requires DistinctIps(s) && a in s && b in s && a.ip == b.ip
    ensures a == b
  {
    var i, j :| 0 <= i < |s| && 0 <= j < |s| && s[i] == a && s[j] == b;
  }

  lemma {:induction false} DistinctCopy(r: seq<Ipv6>, copy: seq<IaAddress>)
    requires DistinctRequests(r) && |copy| == |r| && forall k :: 0 <= k < |r| ==> copy[k].ip == r[k]
    ensures DistinctIps(copy)
  {
  }

  lemma {:induction false} DistinctCount(s: seq<IaAddress>, e: IaAddress)
    requires DistinctIps(s)
    ensures multiset(s)[e] == if e in s then 1 else 0
  {
    if s != [] {
      var rest := s[1..];
      assert s == [s[0]] + rest && multiset(s) == multiset{s[0]} + multiset(rest);
      DistinctCount(rest, e);
      assert forall j :: 0 <= j < |rest| ==> rest[j].ip != s[0].ip;
    }
  }

  /** CopyMem over the array: the entries after `i`, up to `n`, move down by one; the last stays as a copy. */
  method ShiftDown(a: array<IaAddress>, i: nat, n: nat)
    requires i < n <= a.Length
    modifies a
    ensures a[..n - 1] == old(a[..i]) + old(a[i + 1..n]) && a[n - 1..] == old(a[n - 1..])
  {
    ghost var s := a[..];
    var j := i;
    while j + 1 < n
      invariant i <= j < n
      invariant forall k :: 0 <= k < i ==> a[k] == s[k]
      invariant forall k :: i <= k < j ==> a[k] == s[k + 1]
      invariant forall k :: j <= k < a.Length ==> a[k] == s[k]
    {
      a[j] := a[j + 1];
      j := j + 1;
    }
    ShiftedSlice(a[..], s, i, n);
    assert a[..n - 1] == a[..][..n - 1] && s[..i] == old(a[..i]) && s[i + 1..n] == old(a[i + 1..n]);
  }

  lemma {:induction false} ShiftedSlice(after: seq<IaAddress>, s: seq<IaAddress>, i: nat, n: nat)
    requires i < n <= |s| == |after|
    requires (forall k :: 0 <= k < i ==> after[k] == s[k]) && forall k :: i <= k < n - 1 ==> after[k] == s[k + 1]
    ensures after[..n - 1] == s[..i] + s[i + 1..n]
  {
  }

  /** Distinct addresses that are all there cannot be more than there are. */
  lemma {:induction false} NoMoreThanThereAre(s: seq<IaAddress>, r: seq<Ipv6>)
    requires DistinctRequests(r) && AllPresent(s, r)
    ensures |r| <= |s|
    decreases |r|
  {
    if r != [] {
      var n := |r| - 1;
      assert Present(s, r[n]);
      var i :| 0 <= i < |s| && s[i].ip == r[n];
      var rest := s[..i] + s[i + 1..];
      forall k | 0 <= k < n ensures Present(rest, r[..n][k]) {
        assert Present(s, r[k]);
        var j :| 0 <= j < |s| && s[j].ip == r[k];
        assert rest[if j < i then j else j - 1].ip == r[k];
      }
      NoMoreThanThereAre(rest, r[..n]);
    }
  }

  // ----- the loops as functions of the array

  function Address(last: byte): Ipv6 {
    [0, 0, 0, 0, 0, 0, 0, 0, 0, 0, 0, 0, 0, 0, 0, last]
  }

  const NO_ADDRESS: IaAddress := IaAddress(Address(0), 0, 0)

  /** The first entry with the address, or what the slot of the copy holds before. */
  function Entry(s: seq<IaAddress>, ip: Ipv6, blank: IaAddress): IaAddress {
    if s == [] then blank else if s[0].ip == ip then s[0] else Entry(s[1..], ip, blank)
  }

  /** The copy is allocated with zeros, but the IA is copied over its head and so its first address into slot 0. */
  function Blank(s: seq<IaAddress>, k: nat): IaAddress {
    if k == 0 && s != [] then s[0] else NO_ADDRESS
  }

  lemma {:induction false} EntryAt(s: seq<IaAddress>, i: nat, blank: IaAddress)
    requires i < |s| && forall j :: 0 <= j < i ==> s[j].ip != s[i].ip
    ensures Entry(s, s[i].ip, blank) == s[i]
  {
    if i > 0 { EntryAt(s[1..], i - 1, blank); }
  }

  lemma {:induction false} NoEntry(s: seq<IaAddress>, ip: Ipv6, blank: IaAddress)
    requires !Present(s, ip)
    ensures Entry(s, ip, blank) == blank
  {
    if s != [] {
      assert s[0].ip != ip;
      assert forall j :: 0 <= j < |s[1..]| ==> s[1..][j] == s[j + 1];
      NoEntry(s[1..], ip, blank);
    }
  }

  /** One round: the first entry with the address goes, the last one stays behind as a copy. */
  function Taken(s: seq<IaAddress>, ip: Ipv6): (r: seq<IaAddress>)
    ensures |r| == |s|
  {
    if Present(s, ip) then
      WithoutCount(s, ip);
      Without(s, ip) + [s[|s| - 1]]
    else s
  }

  lemma {:induction false} WithoutCount(s: seq<IaAddress>, ip: Ipv6)
    requires Present(s, ip)
    ensures s != [] && |Without(s, ip)| == |s| - 1
  {
    if s[0].ip != ip {
      var i :| 0 <= i < |s| && s[i].ip == ip;
      assert s[1..][i - 1].ip == ip;
      WithoutCount(s[1..], ip);
    }
  }

  /** The array after all rounds. */
  function After(s: seq<IaAddress>, r: seq<Ipv6>): (t: seq<IaAddress>)
    ensures |t| == |s|
  {
    if r == [] then s else Taken(After(s, r[..|r| - 1]), r[|r| - 1])
  }

  /** What the rounds have copied. */
  function Copied(s: seq<IaAddress>, r: seq<Ipv6>): seq<IaAddress> {
    if r == [] then [] else Copied(s, r[..|r| - 1]) + [Entry(After(s, r[..|r| - 1]), r[|r| - 1], Blank(s, |r| - 1))]
  }

  /** Every round has found an entry, as the driver asserts. */
  predicate AllFound(s: seq<IaAddress>, r: seq<Ipv6>) {
    r == [] || (AllFound(s, r[..|r| - 1]) && Present(After(s, r[..|r| - 1]), r[|r| - 1]))
  }

  lemma {:induction false} OneRoundMore(s: seq<IaAddress>, r: seq<Ipv6>, k: nat)
    requires k < |r|
    ensures After(s, r[..k + 1]) == Taken(After(s, r[..k]), r[k])
    ensures Copied(s, r[..k + 1]) == Copied(s, r[..k]) + [Entry(After(s, r[..k]), r[k], Blank(s, k))]
    ensures AllFound(s, r[..k + 1]) <==> AllFound(s, r[..k]) && Present(After(s, r[..k]), r[k])
  {
    assert r[..k + 1][..k] == r[..k];
  }

  lemma {:induction false} FirstWith(s: seq<IaAddress>, ip: Ipv6) returns (i: nat)
    requires Present(s, ip)
    ensures i < |s| && s[i].ip == ip && forall j :: 0 <= j < i ==> s[j].ip != ip
  {
    i := 0;
    while s[i].ip != ip
      invariant i < |s| && forall j :: 0 <= j < i ==> s[j].ip != ip
      invariant exists j :: i <= j < |s| && s[j].ip == ip
      decreases |s| - i
    {
      i := i + 1;
    }
  }

  lemma {:induction false} NotTaken(s: seq<IaAddress>, ip: Ipv6)
    requires !Present(s, ip)
    ensures Taken(s, ip) == s
  {
  }

  lemma {:induction false} TakenAt(s: seq<IaAddress>, i: nat, blank: IaAddress)
    requires i < |s| && forall j :: 0 <= j < i ==> s[j].ip != s[i].ip
    ensures Present(s, s[i].ip) && Taken(s, s[i].ip) == s[..i] + s[i + 1..] + [s[|s| - 1]] && Entry(s, s[i].ip, blank) == s[i]
  {
    WithoutAt(s, i);
    EntryAt(s, i, blank);
  }

  lemma {:induction false} PrefixWithout(s: seq<IaAddress>, live: seq<IaAddress>, i: nat, last: IaAddress)
    requires i < |live| <= |s| && s[..|live|] == live
    ensures (s[..i] + s[i + 1..] + [last])[..|live| - 1] == live[..i] + live[i + 1..] && s[i] == live[i]
  {
    assert forall j :: 0 <= j < |live| ==> s[j] == s[..|live|][j] == live[j];
  }

  /** With `live` entries left in front of stale ones, a round serves the request from the live ones. */
  lemma {:induction false} TakenLive(s: seq<IaAddress>, live: seq<IaAddress>, ip: Ipv6, blank: IaAddress)
    requires |live| <= |s| && s[..|live|] == live && Present(live, ip)
    ensures live != [] && Present(s, ip) && Taken(s, ip)[..|live| - 1] == Without(live, ip)
    ensures Entry(s, ip, blank) in live && Entry(s, ip, blank).ip == ip
  {
    hide Taken, Without, Entry;
    var i := FirstWith(live, ip);
    PrefixWithout(s, live, i, s[|s| - 1]);
    assert forall j :: 0 <= j < i ==> s[j] == s[..|live|][j] == live[j];
    WithoutAt(live, i);
    TakenAt(s, i, blank);
  }

  /** One round serves a distinct request that is there from the entries left. */
  lemma {:induction false} RoundServes(s: seq<IaAddress>, r: seq<Ipv6>, k: nat)
    requires DistinctIps(s) && DistinctRequests(r) && AllPresent(s, r) && k < |r| <= |s|
    requires After(s, r[..k])[..|s| - k] == WithoutAll(s, r[..k])
    ensures After(s, r[..k + 1])[..|s| - (k + 1)] == WithoutAll(s, r[..k + 1])
    ensures Entry(After(s, r[..k]), r[k], Blank(s, k)) in s && Entry(After(s, r[..k]), r[k], Blank(s, k)).ip == r[k] && Present(After(s, r[..k]), r[k])
  {
    hide DistinctIps, DistinctRequests, AllPresent, Present, WithoutAll, Without, Taken, After, Copied, Entry, AllFound;
    var now, live := After(s, r[..k]), WithoutAll(s, r[..k]);
    StillPresent(s, r, k);
    OneRoundMore(s, r, k);
    TakenLive(now, live, r[k], Blank(s, k));
    WithoutOneMore(s, r, k);
  }

  /** Distinct requests that are all there: the first `k` rounds. */
  lemma {:induction false} DistinctRounds(s: seq<IaAddress>, r: seq<Ipv6>, k: nat)
    requires DistinctIps(s) && DistinctRequests(r) && AllPresent(s, r) && k <= |r| <= |s|
    ensures After(s, r[..k])[..|s| - k] == WithoutAll(s, r[..k])
    ensures Requested(s, r[..k], Copied(s, r[..k])) && AllFound(s, r[..k])
  {
    if k > 0 {
      hide DistinctIps, DistinctRequests, AllPresent, Present, Requested, WithoutAll, Without, AllFound, Taken, After, Copied, Entry;
      DistinctRounds(s, r, k - 1);
      RoundServes(s, r, k - 1);
      OneRoundMore(s, r, k - 1);
      RequestedOneMore(s, r, k - 1, Copied(s, r[..k - 1]), Entry(After(s, r[..k - 1]), r[k - 1], Blank(s, k - 1)));
    } else {
      assert s[..|s|] == s;
    }
  }

  /** Then the array is split into the requested entries and the rest. */
  lemma {:induction false} DistinctSplit(s: seq<IaAddress>, r: seq<Ipv6>)
    requires DistinctIps(s) && DistinctRequests(r) && AllPresent(s, r)
    ensures |r| <= |s| && AllFound(s, r) && Requested(s, r, Copied(s, r)) && After(s, r)[..|s| - |r|] == Unrequested(s, r)
    ensures multiset(Copied(s, r)) + multiset(Unrequested(s, r)) == multiset(s)
  {
    hide Present, Requested, WithoutAll, Without, AllFound, Taken, After, Copied, Entry;
    NoMoreThanThereAre(s, r);
    DistinctRounds(s, r, |r|);
    assert r[..|r|] == r;
    WithoutAllIsUnrequested(s, r);
    SplitConserves(s, r, Copied(s, r));
  }

  lemma {:induction false} RequestedTwice(s: seq<IaAddress>, r: seq<Ipv6>, ip: Ipv6)
    requires ip in r
    ensures Unrequested(s, r + [ip]) == Unrequested(s, r)
  {
    if s != [] {
      RequestedTwice(s[1..], r, ip);
      assert s[0].ip in r <==> s[0].ip in r + [ip];
    }
  }

  lemma {:induction false} WithoutLoses(s: seq<IaAddress>, ip: Ipv6)
    ensures |Without(s, ip)| + 1 >= |s|
  {
    if s != [] { WithoutLoses(s[1..], ip); }
  }

  /** Requests take away at most as many entries as there are requests, and less if one is repeated. */
  lemma {:induction false} UnrequestedLeft(s: seq<IaAddress>, r: seq<Ipv6>)
    requires DistinctIps(s)
    ensures |Unrequested(s, r)| + |r| >= |s|
    ensures !DistinctRequests(r) ==> |Unrequested(s, r)| + |r| > |s|
    decreases |r|
  {
    if r == [] {
      NothingRequested(s);
    } else {
      var n := |r| - 1;
      var r', ip := r[..n], r[n];
      assert r == r' + [ip];
      UnrequestedLeft(s, r');
      if ip in r' {
        RequestedTwice(s, r', ip);
      } else {
        WithoutIsUnrequested(s, r', ip);
        WithoutLoses(Unrequested(s, r'), ip);
        if DistinctRequests(r') { assert forall i :: 0 <= i < n ==> r[i] == r'[i] != ip; }
      }
    }
  }

  /** What stays of a partial request is what nobody asked for, exactly if no request is repeated. */
  lemma {:induction false} PartialRequestIff(s: seq<IaAddress>, r: seq<Ipv6>)
    requires DistinctIps(s) && AllPresent(s, r) && |r| <= |s|
    ensures After(s, r)[..|s| - |r|] == Unrequested(s, r) <==> DistinctRequests(r)
    ensures DistinctRequests(r) ==> Requested(s, r, Copied(s, r))
  {
    hide After, Copied, Unrequested, AllPresent, DistinctIps, Requested;
    if DistinctRequests(r) {
      DistinctSplit(s, r);
    } else {
      UnrequestedLeft(s, r);
    }
  }

  /** The requests are the addresses in their order. */
  predicate InOrder(s: seq<IaAddress>, r: seq<Ipv6>) {
    |r| == |s| && forall k :: 0 <= k < |s| ==> r[k] == s[k].ip
  }

  /** A request for as many addresses as there are comes back as asked exactly if it lists them in their order. */
  lemma {:induction false} FullRequestIff(s: seq<IaAddress>, r: seq<Ipv6>)
    requires |r| == |s|
    ensures Requested(s, r, s) && Unrequested(s, r) == [] <==> InOrder(s, r)
    ensures Unrequested(s, r) == [] <==> forall k :: 0 <= k < |s| ==> s[k].ip in r
  {
    forall k | 0 <= k < |s| && s[k].ip !in r ensures Unrequested(s, r) != [] { UnrequestedHas(s, r, s[k]); }
    if Unrequested(s, r) != [] {
      UnrequestedHas(s, r, Unrequested(s, r)[0]);
      var k :| 0 <= k < |s| && s[k] == Unrequested(s, r)[0];
      assert s[k].ip !in r;
    }
  }

  /** Two requests for one of two addresses: the other one, which nobody named, goes too. */
  lemma {:induction false} FullRequestExample()
    ensures var a, b := IaAddress(Address(1), 0, 0), IaAddress(Address(2), 0, 0);
            && AllPresent([a, b], [a.ip, a.ip]) && Unrequested([a, b], [a.ip, a.ip]) == [b]
            && AllPresent([a, b], [b.ip, a.ip]) && !Requested([a, b], [b.ip, a.ip], [a, b])
  {
    var a, b := IaAddress(Address(1), 0, 0), IaAddress(Address(2), 0, 0);
    var s := [a, b];
    assert a.ip[15] == 1 && b.ip[15] == 2;
    assert s[0].ip == a.ip && s[1].ip == b.ip;
    var r := [a.ip, a.ip];
    assert s[1..] == [b] && [b][1..] == [] && a.ip in r && b.ip !in r;
    assert Unrequested([b], r) == [b] + Unrequested([], r);
  }

  /** Two requests for the last of three addresses: the assertion holds in both rounds, and the second address is lost. */
  lemma {:induction false} RepeatedRequestExample()
    ensures var a, b, c := IaAddress(Address(1), 0, 0), IaAddress(Address(2), 0, 0), IaAddress(Address(3), 0, 0);
            var s, r := [a, b, c], [c.ip, c.ip];
            AllPresent(s, r) && AllFound(s, r) && Copied(s, r) == [c, c] && After(s, r)[..1] == [a]
  {
    var a, b, c := IaAddress(Address(1), 0, 0), IaAddress(Address(2), 0, 0), IaAddress(Address(3), 0, 0);
    assert a.ip[15] == 1 && b.ip[15] == 2 && c.ip[15] == 3;
    LastTwice(a, b, c);
    assert [a, b, c][..1] == [a];
  }

  lemma {:induction false} LastTwice(a: IaAddress, b: IaAddress, c: IaAddress)
    requires a.ip != c.ip && b.ip != c.ip
    ensures var s, r := [a, b, c], [c.ip, c.ip]; AllPresent(s, r) && AllFound(s, r) && Copied(s, r) == [c, c] && After(s, r) == s
  {
    var s, r := [a, b, c], [c.ip, c.ip];
    assert s[2].ip == c.ip;
    LastIsTaken(s);
    EntryAt(s, 2, Blank(s, 0));
    EntryAt(s, 2, Blank(s, 1));
    hide Taken, Entry;
    var one := [c.ip];
    assert one[..|one| - 1] == [] && r[..|r| - 1] == one;
    assert Present(s, c.ip) && After(s, []) == s && After(s, one) == s;
    assert AllFound(s, []) && AllFound(s, one);
    assert Copied(s, one) == [c];
  }

  /** To take the last address out only leaves its old copy in its place. */
  lemma {:induction false} LastIsTaken(s: seq<IaAddress>)
    requires s != [] && forall j :: 0 <= j < |s| - 1 ==> s[j].ip != s[|s| - 1].ip
    ensures Taken(s, s[|s| - 1].ip) == s
  {
    var n := |s| - 1;
    WithoutAt(s, n);
    assert s[..n] + s[n + 1..] == s[..n];
    assert s[..n] + [s[n]] == s;
  }

  /** EFI_DHCP6_IA as far as its addresses are concerned. */
  class IaAddresses {
    const ipAddress: array<IaAddress>
    var count: nat                  // a UINT32

    ghost predicate Valid()
      reads this
    {
      count <= ipAddress.Length && count < UINT32_LIMIT
    }

    ghost function Addresses(): seq<IaAddress>
      reads this, ipAddress
      requires Valid()
    {
      ipAddress[..count]
    }

    constructor (a: array<IaAddress>, n: nat)
      requires n <= a.Length && n < UINT32_LIMIT
      ensures Valid() && ipAddress == a && count == n
    {
      ipAddress, count := a, n;
    }

    /** The inner loop: the first entry with the address, among all that were there at the start. */
    method Find(ip: Ipv6) returns (i: nat)
      requires Valid()
      ensures i <= count && (i < count <==> Present(Addresses(), ip)) && (i < count ==> ipAddress[i].ip == ip)
      ensures forall k :: 0 <= k < i ==> ipAddress[k].ip != ip
    {
      i := 0;
      while i < count && ipAddress[i].ip != ip
        invariant i <= count && forall k :: 0 <= k < i ==> ipAddress[k].ip != ip
      {
        i := i + 1;
      }
      assert i < count ==> Addresses()[i].ip == ip;
    }

    /** One round of the outer loop; `blank` is in the slot of the copy. */
    method TakeOut(ip: Ipv6, blank: IaAddress) returns (e: IaAddress, found: bool)
      requires Valid()
      modifies ipAddress
      ensures found == Present(old(Addresses()), ip) && e == Entry(old(Addresses()), ip, blank)
      ensures Addresses() == Taken(old(Addresses()), ip)
    {
      hide Taken, Entry, Present, Without;
      ghost var s := Addresses();
      var i := Find(ip);
      assert forall k :: 0 <= k < i ==> s[k].ip == ipAddress[k].ip;
      if i == count {
        NoEntry(s, ip, blank);
        NotTaken(s, ip);
        return blank, false;
      }
      TakenAt(s, i, blank);
      e, found := ipAddress[i], true;
      ghost var before := ipAddress[..];
      assert before[..i] == s[..i] && before[i + 1..count] == s[i + 1..] && before[count - 1..][0] == s[|s| - 1];
      if i + 1 < count {
        ShiftDown(ipAddress, i, count);
        assert ipAddress[count - 1..][0] == s[|s| - 1];
      } else {
        assert s[i + 1..] == [] && ipAddress[..count - 1] == s[..i];
      }
      assert ipAddress[..count - 1] == s[..i] + s[i + 1..];
      assert ipAddress[..count] == ipAddress[..count - 1] + [ipAddress[count - 1]];
    }

    /** The loops of Dhcp6DepriveAddress, and the new count. */
    method TakeRequested(requests: seq<Ipv6>) returns (copy: seq<IaAddress>, found: bool)
      requires Valid() && |requests| < UINT32_LIMIT
      modifies this, ipAddress
      ensures copy == Copied(old(Addresses()), requests) && ipAddress[..old(count)] == After(old(Addresses()), requests)
      ensures count == (old(count) - |requests|) % UINT32_LIMIT
      ensures |requests| <= old(count) ==> Valid() && Addresses() == After(old(Addresses()), requests)[..old(count) - |requests|]
      ensures found == AllFound(old(Addresses()), requests)
    {
      hide Taken, Entry, Present;
      ghost var s := Addresses();
      copy, found := [], true;
      var first := if count > 0 then ipAddress[0] else NO_ADDRESS;
      var index := 0;
      while index < |requests|
        invariant 0 <= index <= |requests| && count == old(count)
        invariant copy == Copied(s, requests[..index]) && Addresses() == After(s, requests[..index])
        invariant found == AllFound(s, requests[..index])
      {
        OneRoundMore(s, requests, index);
        var e, one := TakeOut(requests[index], if index == 0 then first else NO_ADDRESS);
        copy := copy + [e];
        found := found && one;
        index := index + 1;
      }
      assert requests[..index] == requests;
      ghost var after := Addresses();
      count := (count - |requests|) % UINT32_LIMIT;
      if |requests| <= |s| { assert ipAddress[..count] == after[..count]; }
    }

    /**
     Dhcp6DepriveAddress: no request, or as many requests as addresses, releases everything; otherwise one
     round for each request. `found` stands for the driver's assertion. For addresses that differ and
     requests that are all there, as the callers check, the result is the one asked for exactly if the
     requests are the addresses in their order, or fewer and different.
     */
    method DepriveAddress(requests: seq<Ipv6>) returns (copy: seq<IaAddress>, found: bool)
      requires Valid() && count > 0 && |requests| < UINT32_LIMIT
      modifies this, ipAddress
      ensures |requests| <= old(count) ==> Valid()
      ensures |requests| == 0 || |requests| == old(count) ==> found && copy == old(Addresses()) && Addresses() == []
      ensures |requests| != 0 && |requests| != old(count) ==>
        && copy == Copied(old(Addresses()), requests) && ipAddress[..old(count)] == After(old(Addresses()), requests)
        && found == AllFound(old(Addresses()), requests) && count == (old(count) - |requests|) % UINT32_LIMIT
      ensures DistinctIps(old(Addresses())) && AllPresent(old(Addresses()), requests) && 0 < |requests| <= old(count) ==>
        (Requested(old(Addresses()), requests, copy) && Addresses() == Unrequested(old(Addresses()), requests)
         <==> if |requests| == old(count) then InOrder(old(Addresses()), requests) else DistinctRequests(requests))
      ensures DistinctIps(old(Addresses())) && AllPresent(old(Addresses()), requests) && DistinctRequests(requests) && |requests| != 0 ==>
        found && |requests| <= old(count) && multiset(copy) + multiset(Addresses()) == multiset(old(Addresses()))
    {
      hide After, Copied, Unrequested, AllFound, AllPresent, DistinctIps, DistinctRequests, Requested, Present, Taken, Entry, InOrder;
      ghost var s := Addresses();
      var addressCount := if |requests| == 0 then count else |requests|;
      if DistinctIps(s) && AllPresent(s, requests) && DistinctRequests(requests) { DistinctSplit(s, requests); }
      if addressCount == count {
        copy, found := ipAddress[..count], true;
        count := 0;
        if |requests| == |s| { FullRequestIff(s, requests); }
        return;
      }
      copy, found := TakeRequested(requests);
      if DistinctIps(s) && AllPresent(s, requests) && |requests| <= |s| { PartialRequestIff(s, requests); }
    }
  }

  lemma {:induction false} WithoutOneMore(s: seq<IaAddress>, r: seq<Ipv6>, k: nat)
    requires k < |r|
    ensures WithoutAll(s, r[..k + 1]) == Without(WithoutAll(s, r[..k]), r[k])
  {
    assert r[..k + 1][..k] == r[..k];
  }

  lemma {:induction false} RequestedOneMore(s: seq<IaAddress>, r: seq<Ipv6>, k: nat, copy: seq<IaAddress>, e: IaAddress)
    requires k < |r| && Requested(s, r[..k], copy) && e in s && e.ip == r[k]
    ensures Requested(s, r[..k + 1], copy + [e])
  {
  }

  lemma {:induction false} StillPresent(s: seq<IaAddress>, r: seq<Ipv6>, k: nat)
    requires DistinctIps(s) && DistinctRequests(r) && AllPresent(s, r) && k < |r|
    ensures Present(WithoutAll(s, r[..k]), r[k])
    ensures forall e :: e in WithoutAll(s, r[..k]) ==> e in s
  {
    WithoutAllIsUnrequested(s, r[..k]);
    assert Present(s, r[k]);
    var i :| 0 <= i < |s| && s[i].ip == r[k];
    UnrequestedHas(s, r[..k], s[i]);
    assert s[i] in Unrequested(s, r[..k]);
    forall e | e in WithoutAll(s, r[..k]) ensures e in s { UnrequestedHas(s, r[..k], e); }
  }
}
