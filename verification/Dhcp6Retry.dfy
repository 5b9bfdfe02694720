/**
 The retransmission timer of one DHCPv6 message: Dhcp6CalculateExpireTime in
 NetworkPkg/Dhcp6Dxe/Dhcp6Utility.c, Dhcp6EnqueueRetry and the transmit-list loop of Dhcp6OnTimerTick in
 NetworkPkg/Dhcp6Dxe/Dhcp6Io.c. All counters are UINT32 and wrap around.
 */
module Dhcp6Retry {
  import opened Bytes
  import opened Wrappers

  const DHCP6_10_BIT_MASK: nat := 0x3FF

  /** EFI_DHCP6_RETRANSMISSION, in seconds; 0 means no limit. */
  datatype Control = Control(irt: nat, mrc: nat, mrt: nat, mrd: nat)

  /** What the system time contributes: ten bits of magnitude and a sign. */
  type Seed = n: nat | n <= DHCP6_10_BIT_MASK
  datatype Noise = Noise(seed: Seed, sign: bool)

  /** The counters of DHCP6_TX_CB. */
  datatype Timer = Timer(retryCnt: nat, retryExp: nat, retryLos: nat, tickTime: nat)

  datatype Action = Wait | Resend | Close

  function U32(n: int): (r: nat)
    ensures r < UINT32_LIMIT
  {
    n % UINT32_LIMIT
  }

  /** `Base * Seed / DHCP6_10_BIT_MASK / 10`: a random part of a tenth of the base. */
  function Part(base: nat, seed: Seed): nat {
    U32(base * seed) / DHCP6_10_BIT_MASK / 10
  }

  /** Dhcp6CalculateExpireTime: the base or twice the base, up to a tenth of the base more or less. */
  function ExpireTime(base: nat, isFirstRt: bool, needSigned: bool, noise: Noise): nat {
    var part := Part(base, noise.seed);
    var center := if isFirstRt then base else 2 * base;
    var expire := if needSigned && noise.sign then U32(center - part) else U32(center + part);
    if expire != 0 then expire else 1
  }

  lemma {:induction false} PartIsTenth(base: nat, seed: Seed)
    requires base * DHCP6_10_BIT_MASK < UINT32_LIMIT
    ensures Part(base, seed) <= base / 10
  {
    assert base * (DHCP6_10_BIT_MASK - seed) >= 0;
    assert base * DHCP6_10_BIT_MASK - base * seed == base * (DHCP6_10_BIT_MASK - seed);
    TenthOf(base, base * seed);
  }

  lemma {:induction false} TenthOf(base: nat, product: nat)
    requires product <= base * DHCP6_10_BIT_MASK < UINT32_LIMIT
    ensures U32(product) / DHCP6_10_BIT_MASK / 10 <= base / 10
  {
    assert product / DHCP6_10_BIT_MASK <= base;
  }

  /** Without overflow the result is at least 1 and within a tenth of the base around its center. */
  lemma {:induction false} ExpireTimeBounds(base: nat, isFirstRt: bool, needSigned: bool, noise: Noise)
    requires base * DHCP6_10_BIT_MASK < UINT32_LIMIT
    ensures var e, center := ExpireTime(base, isFirstRt, needSigned, noise), if isFirstRt then base else 2 * base;
            1 <= e && e <= (if center == 0 then 1 else center + base / 10) && center - base / 10 <= e
  {
    hide Part, U32;
    PartIsTenth(base, noise.seed);
    var center := if isFirstRt then base else 2 * base;
    U32Small(center + Part(base, noise.seed));
    U32Small(center - Part(base, noise.seed));
  }

  /** The next timeout before the duration limit: twice the last one, or about MRT. */
  function NextTimeout(c: Control, exp: nat, a: Noise, b: Noise): nat {
    var doubled := ExpireTime(exp, false, true, a);
    if c.mrt != 0 && c.mrt < doubled then ExpireTime(c.mrt, true, true, b) else doubled
  }

  /** One message in the transmit list, one second later. */
  function Tick(c: Control, t: Timer, a: Noise, b: Noise): (Timer, Action) {
    var tick := U32(t.tickTime + 1);
    if tick <= t.retryExp then (t.(tickTime := tick), Wait)
    else
      var cnt, los := U32(t.retryCnt + 1), U32(t.retryLos + t.retryExp);
      var u := t.(tickTime := tick, retryCnt := cnt, retryLos := los);
      if (c.mrc != 0 && c.mrc < cnt) || (c.mrd != 0 && c.mrd <= los) then (u, Close)
      else
        var next := NextTimeout(c, t.retryExp, a, b);
        var exp := if c.mrd != 0 && c.mrd < U32(los + next) then U32(c.mrd - los) else next;
        (u.(retryExp := exp, tickTime := 0), Resend)
  }

  // ----- when nothing overflows

  function Max(a: nat, b: nat): nat {
    if a < b then b else a
  }

  /** No timeout after `cnt` retransmissions exceeds this; `first` is the first timeout. */
  function Cap(c: Control, first: nat, cnt: nat): (r: nat)
    ensures r >= first
  {
    if c.mrt != 0 then Max(first, c.mrt + c.mrt / 10)
    else if c.mrd != 0 then Max(first, c.mrd)
    else if cnt == 0 then first
    else 3 * Cap(c, first, cnt - 1)
  }

  /** The message has some limit, and no product or sum of its timer reaches 32 bits. */
  ghost predicate Safe(c: Control, first: nat) {
    && 1 <= first && (c.mrt != 0 || c.mrc != 0 || c.mrd != 0)
    && c.mrc < UINT32_LIMIT - 1 && c.mrt * DHCP6_10_BIT_MASK < UINT32_LIMIT
    && c.mrd + 3 * Cap(c, first, 0) < UINT32_LIMIT
    && forall n :: 0 <= n <= c.mrc ==> Cap(c, first, n) * DHCP6_10_BIT_MASK < UINT32_LIMIT
  }

  /** Bounds on every timeout after the first. */
  predicate Bounded(c: Control, t: Timer) {
    && (c.mrt != 0 ==> t.retryExp <= c.mrt + c.mrt / 10)
    && (c.mrd != 0 ==> t.retryLos + t.retryExp <= c.mrd)
  }

  /** What holds between ticks as long as the message is in the list. */
  predicate Inv(c: Control, first: nat, t: Timer) {
    && 1 <= t.retryExp && t.tickTime <= t.retryExp
    && (c.mrc != 0 ==> t.retryCnt <= c.mrc && t.retryExp <= Cap(c, first, t.retryCnt))
    && (c.mrt != 0 || c.mrd != 0 ==> t.retryExp <= Cap(c, first, 0))
    && ((t.retryLos == 0 && t.retryExp == first) || Bounded(c, t))
  }

  function Started(first: nat): Timer {
    Timer(0, first, 0, 0)
  }

  /** The current timeout may be doubled without overflow. */
  lemma {:induction false} ExpIsSmall(c: Control, first: nat, t: Timer)
    requires Safe(c, first) && Inv(c, first, t)
    ensures t.retryExp * DHCP6_10_BIT_MASK < UINT32_LIMIT
  {
    if c.mrt == 0 && c.mrd == 0 { assert Cap(c, first, t.retryCnt) * DHCP6_10_BIT_MASK < UINT32_LIMIT; }
    assert Cap(c, first, 0) * DHCP6_10_BIT_MASK < UINT32_LIMIT;
  }

  /** One tick: a wait changes only the tick, a retransmission leaves the next timeout within all limits. */
  lemma {:induction false} TickKeepsInv(c: Control, first: nat, t: Timer, a: Noise, b: Noise)
    requires Safe(c, first) && Inv(c, first, t)
    ensures var (t', act) := Tick(c, t, a, b);
            && (act == Wait ==> t' == t.(tickTime := t.tickTime + 1) && t.tickTime < t.retryExp && Inv(c, first, t'))
            && (act == Resend ==> Inv(c, first, t') && Bounded(c, t') && t'.tickTime == 0 && t.tickTime == t.retryExp)
            && (act == Resend && c.mrc != 0 ==> t'.retryCnt == t.retryCnt + 1)
            && (act == Resend && c.mrd != 0 ==> t'.retryLos == t.retryLos + t.retryExp < c.mrd)
  {
    hide Safe, Cap, NextTimeout, U32;
    ExpIsSmall(c, first, t);
    SafeBounds(c, first);
    NextTimeoutBounds(c, t.retryExp, a, b);
    CapStep(c, first, t.retryCnt);
    U32Small(t.tickTime + 1);
    if c.mrc != 0 { U32Small(t.retryCnt + 1); }
    if c.mrd != 0 {
      U32Small(t.retryLos + t.retryExp);
      if t.retryLos + t.retryExp < c.mrd {
        U32Small(t.retryLos + t.retryExp + NextTimeout(c, t.retryExp, a, b));
        U32Small(c.mrd - (t.retryLos + t.retryExp));
      }
    }
  }

  lemma {:induction false} U32Small(n: int)
    requires 0 <= n < UINT32_LIMIT
    ensures U32(n) == n
  {
  }

  lemma {:induction false} NextTimeoutBounds(c: Control, exp: nat, a: Noise, b: Noise)
    requires 1 <= exp && exp * DHCP6_10_BIT_MASK < UINT32_LIMIT && c.mrt * DHCP6_10_BIT_MASK < UINT32_LIMIT
    ensures 1 <= NextTimeout(c, exp, a, b) <= 3 * exp
    ensures c.mrt != 0 ==> NextTimeout(c, exp, a, b) <= c.mrt + c.mrt / 10
  {
    hide ExpireTime;
    ExpireTimeBounds(exp, false, true, a);
    ExpireTimeBounds(c.mrt, true, true, b);
  }

  lemma {:induction false} SafeBounds(c: Control, first: nat)
    requires Safe(c, first)
    ensures c.mrc < UINT32_LIMIT - 1 && c.mrt * DHCP6_10_BIT_MASK < UINT32_LIMIT && c.mrd + 3 * Cap(c, first, 0) < UINT32_LIMIT
    ensures first <= Cap(c, first, 0) && (c.mrt != 0 ==> c.mrt + c.mrt / 10 <= Cap(c, first, 0))
    ensures c.mrt == 0 && c.mrd != 0 ==> c.mrd <= Cap(c, first, 0)
  {
  }

  lemma {:induction false} CapStep(c: Control, first: nat, n: nat)
    ensures c.mrt == 0 && c.mrd == 0 ==> Cap(c, first, n + 1) == 3 * Cap(c, first, n)
    ensures c.mrt != 0 || c.mrd != 0 ==> Cap(c, first, n) == Cap(c, first, 0) == Cap(c, first, n + 1)
  {
  }

  // ----- runs

  /** The timer after the first `n` ticks of an unanswered message; ticks after a close do not happen. */
  ghost predicate IsRun(c: Control, states: seq<Timer>, noise: seq<(Noise, Noise)>) {
    && |states| == |noise| + 1
    && forall i :: 0 <= i < |noise| ==>
         Tick(c, states[i], noise[i].0, noise[i].1).1 != Close && states[i + 1] == Tick(c, states[i], noise[i].0, noise[i].1).0
  }

  ghost predicate Resent(c: Control, states: seq<Timer>, noise: seq<(Noise, Noise)>, i: nat)
    requires i < |noise| && i < |states|
  {
    Tick(c, states[i], noise[i].0, noise[i].1).1 == Resend
  }

  /** How many retransmissions the first `n` ticks contain. */
  ghost function Resends(c: Control, states: seq<Timer>, noise: seq<(Noise, Noise)>, n: nat): nat
    requires n <= |noise| && |noise| < |states|
  {
    if n == 0 then 0 else Resends(c, states, noise, n - 1) + if Resent(c, states, noise, n - 1) then 1 else 0
  }

  /**
   Section 14 of RFC 3315 over any run of ticks: every timeout is at least one second; after the first
   retransmission timeouts stay within MRT plus a tenth, and the time used up within MRD; there are at
   most MRC retransmissions.
   */
  lemma {:induction false} RunBounds(c: Control, first: nat, states: seq<Timer>, noise: seq<(Noise, Noise)>, n: nat)
    requires Safe(c, first) && IsRun(c, states, noise) && states[0] == Started(first) && n <= |noise|
    ensures Inv(c, first, states[n]) && states[n].retryExp >= 1
    ensures Resends(c, states, noise, n) > 0 ==> Bounded(c, states[n])
    ensures c.mrc != 0 ==> Resends(c, states, noise, n) == states[n].retryCnt <= c.mrc
  {
    if n > 0 {
      RunBounds(c, first, states, noise, n - 1);
      hide Tick, Safe;
      TickKeepsInv(c, first, states[n - 1], noise[n - 1].0, noise[n - 1].1);
    } else {
      assert Cap(c, first, 0) >= first;
    }
  }

  // ----- the back-off

  /** One second passes. */
  predicate Waited(t: Timer, t': Timer) {
    t.tickTime < t.retryExp && t' == t.(tickTime := t.tickTime + 1)
  }

  /** `exp` lies within a tenth of `base` around `center`. */
  predicate Near(exp: nat, center: nat, base: nat) {
    center - base / 10 <= exp <= center + base / 10
  }

  /** The duration still allowed. */
  function Remaining(c: Control, t: Timer): int {
    c.mrd - t.retryLos
  }

  /**
   A retransmission: the timeout has run out and is added to the time used. The next one is about twice as
   long; or about MRT, if twice the last one and a tenth exceeds that; or what is left of MRD, if that is less.
   */
  predicate Retried(c: Control, t: Timer, t': Timer) {
    var high := 2 * t.retryExp + t.retryExp / 10;
    && t.tickTime == t.retryExp && t'.tickTime == 0
    && t'.retryCnt == (t.retryCnt + 1) % UINT32_LIMIT && t'.retryLos == (t.retryLos + t.retryExp) % UINT32_LIMIT
    && (|| (Near(t'.retryExp, 2 * t.retryExp, t.retryExp) && (c.mrt != 0 ==> t'.retryExp <= c.mrt))
        || (c.mrt != 0 && c.mrt < high && Near(t'.retryExp, c.mrt, c.mrt))
        || (c.mrd != 0 && t'.retryExp == Remaining(c, t')
            && Remaining(c, t') < if c.mrt != 0 && c.mrt < high then c.mrt + c.mrt / 10 else high))
    && (c.mrd != 0 ==> t'.retryExp <= Remaining(c, t'))
  }

  /** The timeout before the duration limit, without the functions of the driver. */
  lemma {:induction false} NextTimeoutBacksOff(c: Control, exp: nat, a: Noise, b: Noise)
    requires 1 <= exp && exp * DHCP6_10_BIT_MASK < UINT32_LIMIT && c.mrt * DHCP6_10_BIT_MASK < UINT32_LIMIT
    ensures var next := NextTimeout(c, exp, a, b);
            || (Near(next, 2 * exp, exp) && (c.mrt != 0 ==> next <= c.mrt))
            || (c.mrt != 0 && c.mrt < 2 * exp + exp / 10 && Near(next, c.mrt, c.mrt))
  {
    hide ExpireTime;
    ExpireTimeBounds(exp, false, true, a);
    ExpireTimeBounds(c.mrt, true, true, b);
  }

  lemma {:induction false} NearBelow(next: nat, exp: nat)
    ensures Near(next, 2 * exp, exp) ==> next <= 2 * exp + exp / 10
  {
  }

  lemma {:induction false} TickBacksOff(c: Control, first: nat, t: Timer, a: Noise, b: Noise)
    requires Safe(c, first) && Inv(c, first, t)
    ensures var (t', act) := Tick(c, t, a, b);
            (act == Wait ==> Waited(t, t')) && (act == Resend ==> Retried(c, t, t'))
  {
    hide Safe, Cap, NextTimeout, ExpireTime, Near;
    TickKeepsInv(c, first, t, a, b);
    ExpIsSmall(c, first, t);
    SafeBounds(c, first);
    NextTimeoutBacksOff(c, t.retryExp, a, b);
    NextTimeoutBounds(c, t.retryExp, a, b);
    NearBelow(NextTimeout(c, t.retryExp, a, b), t.retryExp);
    if c.mrd != 0 && t.retryLos + t.retryExp < c.mrd {
      U32Small(t.retryLos + t.retryExp + NextTimeout(c, t.retryExp, a, b));
      U32Small(c.mrd - (t.retryLos + t.retryExp));
    }
  }

  /** The back-off of section 14 of RFC 3315 over any run: every second either passes or brings a retransmission. */
  lemma {:induction false} RunBacksOff(c: Control, first: nat, states: seq<Timer>, noise: seq<(Noise, Noise)>, n: nat)
    requires Safe(c, first) && IsRun(c, states, noise) && states[0] == Started(first) && n < |noise|
    ensures Waited(states[n], states[n + 1]) || Retried(c, states[n], states[n + 1])
  {
    RunBounds(c, first, states, noise, n);
    TickBacksOff(c, first, states[n], noise[n].0, noise[n].1);
  }

  /** The sum of the timeouts that have run out in the first `n` ticks. */
  ghost function TimeUsed(states: seq<Timer>, n: nat): nat
    requires n < |states|
  {
    if n == 0 then 0 else TimeUsed(states, n - 1) + if states[n].tickTime == 0 then states[n - 1].retryExp else 0
  }

  /** The counters mean what they are for; `n` ticks are the timeouts that have run out, one more for each, and the rest. */
  lemma {:induction false} RunClock(c: Control, first: nat, states: seq<Timer>, noise: seq<(Noise, Noise)>, n: nat)
    requires Safe(c, first) && IsRun(c, states, noise) && states[0] == Started(first) && n <= |noise|
    ensures n == TimeUsed(states, n) + Resends(c, states, noise, n) + states[n].tickTime
    ensures c.mrd != 0 ==> states[n].retryLos == TimeUsed(states, n)
  {
    if n > 0 {
      RunClock(c, first, states, noise, n - 1);
      RunBounds(c, first, states, noise, n - 1);
      TickKeepsInv(c, first, states[n - 1], noise[n - 1].0, noise[n - 1].1);
      TickBacksOff(c, first, states[n - 1], noise[n - 1].0, noise[n - 1].1);
      hide Tick, Safe, Retried;
    }
  }

  /** The driver gives up exactly when a timeout has run out and MRC retransmissions are done or MRD is used up. */
  lemma {:induction false} RunGivesUpIff(c: Control, first: nat, states: seq<Timer>, noise: seq<(Noise, Noise)>, a: Noise, b: Noise)
    requires Safe(c, first) && IsRun(c, states, noise) && states[0] == Started(first)
    ensures var n := |noise|;
            Tick(c, states[n], a, b).1 == Close
            <==> states[n].tickTime == states[n].retryExp
                 && ((c.mrc != 0 && Resends(c, states, noise, n) == c.mrc) || (c.mrd != 0 && TimeUsed(states, n) + states[n].retryExp >= c.mrd))
  {
    var n := |noise|;
    RunBounds(c, first, states, noise, n);
    RunClock(c, first, states, noise, n);
    TickCloses(c, first, states[n], a, b);
    hide Tick, Safe, Inv;
  }

  lemma {:induction false} TickCloses(c: Control, first: nat, t: Timer, a: Noise, b: Noise)
    requires Safe(c, first) && Inv(c, first, t)
    ensures Tick(c, t, a, b).1 == Close
            <==> t.tickTime == t.retryExp && ((c.mrc != 0 && t.retryCnt == c.mrc) || (c.mrd != 0 && t.retryLos + t.retryExp >= c.mrd))
  {
    ExpIsSmall(c, first, t);
    SafeBounds(c, first);
    hide Safe, Cap, NextTimeout;
    U32Small(t.tickTime + 1);
    if c.mrc != 0 { U32Small(t.retryCnt + 1); }
    if c.mrd != 0 { U32Small(t.retryLos + t.retryExp); }
  }

  /** The noise spans the whole tenth: none at 0, all of it at the largest seed, downwards only if a sign is wanted. */
  lemma {:induction false} NoiseSpansTenth(base: nat, isFirstRt: bool, needSigned: bool, sign: bool)
    requires 0 < base && base * DHCP6_10_BIT_MASK < UINT32_LIMIT
    ensures var center := if isFirstRt then base else 2 * base;
            && ExpireTime(base, isFirstRt, needSigned, Noise(0, sign)) == center
            && ExpireTime(base, isFirstRt, needSigned, Noise(DHCP6_10_BIT_MASK, sign)) == if needSigned && sign then center - base / 10 else center + base / 10
  {
    U32Small(base * DHCP6_10_BIT_MASK);
    assert base * DHCP6_10_BIT_MASK / DHCP6_10_BIT_MASK == base;
    assert base * 0 == 0;
  }

  // ----- closing

  /** An upper bound on the seconds for the retransmissions number `n` to MRC. */
  ghost function CapSum(c: Control, first: nat, n: nat): nat
    decreases c.mrc + 1 - n
  {
    if n > c.mrc then 0 else Cap(c, first, n) + 1 + CapSum(c, first, n + 1)
  }

  /** The most ticks an unanswered message has left. */
  ghost function TicksLeft(c: Control, first: nat, t: Timer): nat
    requires t.tickTime <= t.retryExp
  {
    t.retryExp - t.tickTime + 1
    + if c.mrc != 0 then CapSum(c, first, t.retryCnt + 1)
      else if c.mrd > t.retryLos + t.retryExp then 2 * (c.mrd - t.retryLos - t.retryExp) else 0
  }

  lemma {:induction false} TickBringsCloseNearer(c: Control, first: nat, t: Timer, a: Noise, b: Noise)
    requires Safe(c, first) && Inv(c, first, t) && (c.mrc != 0 || c.mrd != 0)
    ensures var (t', act) := Tick(c, t, a, b);
            act != Close ==> t'.tickTime <= t'.retryExp && TicksLeft(c, first, t') < TicksLeft(c, first, t)
  {
    hide Safe, Cap, NextTimeout, U32, ExpireTime;
    TickKeepsInv(c, first, t, a, b);
    if c.mrc == 0 {
      hide CapSum;
    } else {
      hide Inv;
      CapSumStep(c, first, t.retryCnt + 1);
    }
  }

  lemma {:induction false} CapSumStep(c: Control, first: nat, n: nat)
    ensures n <= c.mrc ==> CapSum(c, first, n) == Cap(c, first, n) + 1 + CapSum(c, first, n + 1)
  {
  }

  /** With MRC or MRD set, no run is longer than the bound computed at the start: the message closes. */
  lemma {:induction false} RunCloses(c: Control, first: nat, states: seq<Timer>, noise: seq<(Noise, Noise)>, n: nat)
    requires Safe(c, first) && IsRun(c, states, noise) && states[0] == Started(first) && n <= |noise|
    requires c.mrc != 0 || c.mrd != 0
    ensures states[n].tickTime <= states[n].retryExp
    ensures n + TicksLeft(c, first, states[n]) <= TicksLeft(c, first, Started(first))
  {
    RunBounds(c, first, states, noise, n);
    if n > 0 {
      RunBounds(c, first, states, noise, n - 1);
      RunCloses(c, first, states, noise, n - 1);
      hide Tick, Safe;
      TickBringsCloseNearer(c, first, states[n - 1], noise[n - 1].0, noise[n - 1].1);
    }
  }

  /** With MRD set and no MRC, that bound is about twice the duration limit. */
  lemma {:induction false} DurationBound(c: Control, first: nat)
    requires c.mrc == 0 && c.mrd != 0
    ensures TicksLeft(c, first, Started(first)) <= 2 * Max(first, c.mrd) + 1
  {
  }

  // ----- the code

  datatype MessageType = Solicit | Request | Confirm | Renew | Rebind | Decline | Release | InfoRequest | Other

  function OrDefault(value: nat, default_: nat): nat {
    if value != 0 then value else default_
  }

  /** The transmission parameters Dhcp6EnqueueRetry picks; t1, t2 and allExpire are those of the IA. */
  function ControlFor(m: MessageType, user: Option<Control>, t1: nat, t2: nat, allExpire: nat): (r: Option<Control>)
    ensures r.Some? <==> m != Other
  {
    match m
    case Solicit =>
      if user.None? then Some(Control(1, 0, 120, 0))
      else Some(Control(OrDefault(user.value.irt, 1), OrDefault(user.value.mrc, 0), OrDefault(user.value.mrt, 120), OrDefault(user.value.mrd, 0)))
    case Request => Some(Control(1, 10, 30, 0))
    case Confirm => Some(Control(1, 0, 4, 10))
    case Renew => Some(Control(10, 0, 600, U32(t2 - t1)))
    case Rebind => Some(Control(10, 0, 600, U32(allExpire - t2)))
    case Decline => Some(Control(1, 5, 0, 0))
    case Release => Some(Control(1, 5, 0, 0))
    case InfoRequest =>
      if user.None? then Some(Control(1, 0, 120, 0))
      else Some(Control(OrDefault(user.value.irt, 1), OrDefault(user.value.mrc, 0), OrDefault(user.value.mrt, 120), OrDefault(user.value.mrd, 0)))
    case Other => None
  }

  /** The outcome of Dhcp6SelectAdvertiseMsg. */
  datatype Selection = Selected | Aborted | Failed

  /** DHCP6_TX_CB. */
  class TxCb {
    const messageType: MessageType
    const retryCtl: Control
    var retryCnt: nat
    var retryExp: nat
    var retryLos: nat
    var tickTime: nat
    var solicitRetry: bool
    var sent: nat                   // transmissions so far

    ghost function View(): Timer
      reads this
    {
      Timer(retryCnt, retryExp, retryLos, tickTime)
    }

    /** Dhcp6EnqueueRetry for a known message type: what Started and, with the driver's own parameters, Safe are about. */
    constructor (m: MessageType, user: Option<Control>, t1: nat, t2: nat, allExpire: nat, noise: Noise)
      requires m != Other
      ensures messageType == m && ControlFor(m, user, t1, t2, allExpire) == Some(retryCtl) && !solicitRetry && sent == 1
      ensures View() == Started(ExpireTime(retryCtl.irt, true, m != Solicit, noise))
      ensures user == None && t1 <= t2 <= allExpire < 0x8000_0000 ==> Safe(retryCtl, retryExp)
    {
      hide Safe, ExpireTime;
      var ctl := ControlFor(m, user, t1, t2, allExpire).value;
      if user == None && t1 <= t2 <= allExpire < 0x8000_0000 { DriverControlsAreSafe(m, t1, t2, allExpire, noise); }
      messageType, retryCtl, solicitRetry, sent := m, ctl, false, 1;
      retryCnt, retryLos, tickTime := 0, 0, 0;
      retryExp := ExpireTime(ctl.irt, true, m != Solicit, noise);
    }

    /**
     One round of the loop in Dhcp6OnTimerTick. `advertised` says that an advertisement has been stored;
     then a Solicit is not sent again here but the advertisement is processed, `selection` being the outcome;
     one that is aborted closes the instance.
     */
    method OnTick(a: Noise, b: Noise, advertised: bool, selection: Selection) returns (act: Action, selecting: bool)
      modifies this
      ensures selecting <==> messageType == Solicit && advertised && U32(old(tickTime) + 1) > old(retryExp) && (old(retryCnt) == 0 || old(solicitRetry))
      ensures selecting ==>
        View() == old(View()).(tickTime := U32(old(tickTime) + 1), retryCnt := if selection == Failed then U32(old(retryCnt) + 1) else old(retryCnt))
      ensures selecting ==> act == (if selection == Aborted then Close else Wait) && sent == old(sent)
      ensures solicitRetry == if act == Resend then messageType == Solicit else old(solicitRetry)
      ensures !selecting ==> (View(), act) == Tick(retryCtl, old(View()), a, b)
      ensures !selecting ==> sent == old(sent) + if act == Resend then 1 else 0
    {
      hide U32, ExpireTime;
      tickTime := U32(tickTime + 1);
      if tickTime <= retryExp {
        return Wait, false;
      }
      if (retryCnt == 0 || solicitRetry) && messageType == Solicit {
        if advertised {
          if selection == Aborted {
            return Close, true;
          }
          if selection == Failed {
            retryCnt := U32(retryCnt + 1);
          }
          return Wait, true;
        }
      }
      retryCnt := U32(retryCnt + 1);
      retryLos := U32(retryLos + retryExp);
      if retryCtl.mrc != 0 && retryCtl.mrc < retryCnt {
        return Close, false;
      }
      if retryCtl.mrd != 0 && retryCtl.mrd <= retryLos {
        return Close, false;
      }
      retryExp := ExpireTime(retryExp, false, true, a);
      if retryCtl.mrt != 0 && retryCtl.mrt < retryExp {
        retryExp := ExpireTime(retryCtl.mrt, true, true, b);
      }
      var lossTime := U32(retryLos + retryExp);
      if retryCtl.mrd != 0 && retryCtl.mrd < lossTime {
        retryExp := U32(retryCtl.mrd - retryLos);
      }
      tickTime := 0;
      sent := sent + 1;
      solicitRetry := messageType == Solicit;
      return Resend, false;
    }
  }

  /** The parameters the driver chooses by itself never overflow, if the lease times are below 2^31 seconds. */
  lemma {:induction false} DriverControlsAreSafe(m: MessageType, t1: nat, t2: nat, allExpire: nat, noise: Noise)
    requires m != Other && t1 <= t2 <= allExpire < 0x8000_0000
    ensures var c := ControlFor(m, None, t1, t2, allExpire).value; Safe(c, ExpireTime(c.irt, true, m != Solicit, noise))
  {
    var c := ControlFor(m, None, t1, t2, allExpire).value;
    ExpireTimeBounds(c.irt, true, m != Solicit, noise);
    var first := ExpireTime(c.irt, true, m != Solicit, noise);
    hide ExpireTime;
    assert first <= 11;
    forall n | 0 <= n <= c.mrc ensures Cap(c, first, n) * DHCP6_10_BIT_MASK < UINT32_LIMIT {
      if c.mrt == 0 {
        assert Cap(c, first, 0) == 1 && Cap(c, first, 1) == 3 && Cap(c, first, 2) == 9;
        assert Cap(c, first, 3) == 27 && Cap(c, first, 4) == 81 && Cap(c, first, 5) == 243;
      }
    }
  }

  /** Section 5.5 of RFC 3315: first and largest timeout of each message; a caller's values win for the two it may set. */
  lemma {:induction false} TimeoutsOfMessages(m: MessageType, user: Option<Control>, t1: nat, t2: nat, allExpire: nat)
    requires m != Other
    ensures var c := ControlFor(m, user, t1, t2, allExpire).value;
            if user.Some? && m in {Solicit, InfoRequest} then
              && (user.value.irt != 0 ==> c.irt == user.value.irt) && (user.value.mrt != 0 ==> c.mrt == user.value.mrt)
              && c.mrc == user.value.mrc && c.mrd == user.value.mrd && (user.value.irt == 0 ==> c.irt == 1) && (user.value.mrt == 0 ==> c.mrt == 120)
            else
              && c.irt == (if m in {Renew, Rebind} then 10 else 1)
              && c.mrt == (if m in {Solicit, InfoRequest} then 120 else if m == Request then 30 else if m == Confirm then 4
                           else if m in {Renew, Rebind} then 600 else 0)
  {
  }

  /**
   When the driver gives up a message with its own parameters, by the retransmissions done and the seconds used: a
   Request after 10 retransmissions, a Decline or Release after 5, a Confirm after 10 seconds, a Renew at T2, a
   Rebind when the last lease expires, the others never. A limit of zero seconds is none.
   */
  predicate TimeIsUp(m: MessageType, t1: nat, t2: nat, allExpire: nat, resends: nat, used: nat) {
    match m
    case Request => resends == 10
    case Decline => resends == 5
    case Release => resends == 5
    case Confirm => used >= 10
    case Renew => t1 < t2 && t1 + used >= t2
    case Rebind => t2 < allExpire && t2 + used >= allExpire
    case _ => false
  }

  lemma {:induction false} LimitsOfMessages(m: MessageType, t1: nat, t2: nat, allExpire: nat, resends: nat, used: nat)
    requires m != Other && t1 <= t2 <= allExpire < 0x8000_0000
    ensures var c := ControlFor(m, None, t1, t2, allExpire).value;
            && ((c.mrc != 0 && resends == c.mrc) || (c.mrd != 0 && used >= c.mrd) <==> TimeIsUp(m, t1, t2, allExpire, resends, used))
            && c.mrd == (if m == Confirm then 10 else if m == Renew then t2 - t1 else if m == Rebind then allExpire - t2 else 0)
  {
  }

  lemma {:induction false} DriverGivesUpIff(m: MessageType, t1: nat, t2: nat, allExpire: nat, states: seq<Timer>, noise: seq<(Noise, Noise)>, first: nat, a: Noise, b: Noise)
    requires m != Other && t1 <= t2 <= allExpire < 0x8000_0000
    requires var c := ControlFor(m, None, t1, t2, allExpire).value;
             IsRun(c, states, noise) && Safe(c, first) && states[0] == Started(first)
    ensures var c, n := ControlFor(m, None, t1, t2, allExpire).value, |noise|;
            Tick(c, states[n], a, b).1 == Close
            <==> states[n].tickTime == states[n].retryExp
                 && TimeIsUp(m, t1, t2, allExpire, Resends(c, states, noise, n), TimeUsed(states, n) + states[n].retryExp)
  {
    hide Tick, Safe, ControlFor, TimeIsUp, Resends, TimeUsed;
    var c, n := ControlFor(m, None, t1, t2, allExpire).value, |noise|;
    RunGivesUpIff(c, first, states, noise, a, b);
    LimitsOfMessages(m, t1, t2, allExpire, Resends(c, states, noise, n), TimeUsed(states, n) + states[n].retryExp);
  }

  /** And a Renew or Rebind never plans a timeout beyond its limit, once it has been sent again. */
  lemma {:induction false} RenewEndsInTime(m: MessageType, t1: nat, t2: nat, allExpire: nat, states: seq<Timer>, noise: seq<(Noise, Noise)>, first: nat, n: nat)
    requires t1 < t2 < allExpire < 0x8000_0000 && m in {Renew, Rebind} && n <= |noise|
    requires var c := ControlFor(m, None, t1, t2, allExpire).value;
             IsRun(c, states, noise) && Safe(c, first) && states[0] == Started(first)
    ensures var c := ControlFor(m, None, t1, t2, allExpire).value;
            Resends(c, states, noise, n) > 0 ==>
              (if m == Renew then t1 else t2) + TimeUsed(states, n) + states[n].retryExp <= if m == Renew then t2 else allExpire
  {
    hide Tick, Safe, ControlFor, TimeIsUp, Resends, TimeUsed, Inv;
    var c := ControlFor(m, None, t1, t2, allExpire).value;
    LimitsOfMessages(m, t1, t2, allExpire, 0, 0);
    RunBounds(c, first, states, noise, n);
    RunClock(c, first, states, noise, n);
  }
}
