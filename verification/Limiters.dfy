/**
  The stream filters' limiters: pkg/filter/stream/common/limit/rate.go and qps.go.

  Both read the time since their start in whole nanoseconds (the source calls the values
  "micros"); here that reading is a parameter of TryAcquire.
 */
module Limiters {

  const MILLISECOND: int := 1000000

  // ---------------------------------------------------------------- smooth limiter

  /** Settings fixed at construction: interval between stable permits, and the most permits stored. */
  datatype Pace = Pace(interval: real, maxPermits: real)

  datatype Tickets = Tickets(stored: real, nextFree: int)

  ghost predicate ValidTickets(p: Pace, t: Tickets) {
    p.interval > 0.0 && 0.0 <= t.stored <= p.maxPermits
  }

  function MinReal(x: real, y: real): real {
    if x <= y then x else y
  }

  /** reserveEarliestAvailable: store the permits earned since the last ticket, spend up to one, owe the rest. */
  function TakeTicket(p: Pace, t: Tickets, now: int): Tickets
    requires p.interval > 0.0
  {
    var stored := MinReal(p.maxPermits, t.stored + (now - t.nextFree) as real / p.interval);
    var spend := MinReal(1.0, stored);
    Tickets(stored - spend, now + ((1.0 - spend) * p.interval).Floor)
  }

  /** A whole run of TryAcquire: the instants at which it granted. */
  ghost function Grants(p: Pace, t: Tickets, times: seq<int>): seq<int>
    requires p.interval > 0.0
    decreases |times|
  {
    if times == [] then [] else
    if times[0] <= t.nextFree then Grants(p, t, times[1..]) else
    [times[0]] + Grants(p, TakeTicket(p, t, times[0]), times[1..])
  }

  class RateLimiter {
    const maxAllows: int
    const pace: Pace
    var storedPermits: real
    var nextFreeTicket: int

    function State(): Tickets
      reads this
    {
      Tickets(storedPermits, nextFreeTicket)
    }

    ghost predicate Valid()
      reads this
    {
      ValidTickets(pace, State()) && (maxAllows > 0 ==> pace.maxPermits > 0.0)
    }

    constructor (maxAllows: int, periodMs: int, maxBurstRatio: real, now: int)
      requires maxAllows >= 0 && periodMs > 0 && maxBurstRatio > 0.0
      ensures Valid() && this.maxAllows == maxAllows && State() == Tickets(0.0, now)
      ensures pace.maxPermits == maxBurstRatio * maxAllows as real
      ensures maxAllows > 0 ==> pace.interval * maxAllows as real == (periodMs * MILLISECOND) as real
    {
      var interval := MILLISECOND as real;
      if maxAllows != 0 {
        interval := periodMs as real * MILLISECOND as real / maxAllows as real;
      }
      this.maxAllows := maxAllows;
      pace := Pace(interval, maxBurstRatio * maxAllows as real);
      storedPermits, nextFreeTicket := 0.0, now;
    }

    method TryAcquire(now: int) returns (ok: bool)
      requires Valid()
      modifies this
      ensures Valid()
      ensures maxAllows <= 0 ==> !ok && State() == old(State())
      ensures maxAllows > 0 ==>
                && (ok <==> now > old(nextFreeTicket))
                && State() == (if ok then TakeTicket(pace, old(State()), now) else old(State()))
    {
      if maxAllows <= 0 {
        return false;
      }
      if now <= nextFreeTicket {
        return false;
      }
      ReserveEarliestAvailable(now);
      return true;
    }

    method ReserveEarliestAvailable(now: int)
      requires Valid() && now > nextFreeTicket
      modifies this
      ensures Valid()
      ensures State() == TakeTicket(pace, old(State()), now)
    {
      var newPermits := (now - nextFreeTicket) as real / pace.interval;
      storedPermits := MinReal(pace.maxPermits, storedPermits + newPermits);
      nextFreeTicket := now;
      var storedPermitsToSpend := MinReal(1.0, storedPermits);
      var freshPermits := 1.0 - storedPermitsToSpend;
      var wait := (freshPermits * pace.interval).Floor;
      nextFreeTicket := nextFreeTicket + wait;
      storedPermits := storedPermits - storedPermitsToSpend;
    }
  }

  /** The construction's refusals: nothing is built from settings out of range. */
  method NewRateLimiter(maxAllows: int, periodMs: int, maxBurstRatio: real, now: int) returns (l: RateLimiter?)
    ensures l != null <==> maxAllows >= 0 && periodMs > 0 && maxBurstRatio > 0.0
    ensures l != null ==> fresh(l) && l.Valid() && l.maxAllows == maxAllows && l.State() == Tickets(0.0, now)
  {
    if maxAllows < 0 || periodMs <= 0 || maxBurstRatio <= 0.0 {
      return null;
    }
    l := new RateLimiter(maxAllows, periodMs, maxBurstRatio, now);
  }

  /** The virtual time up to which permits have been handed out. */
  ghost function Horizon(p: Pace, t: Tickets): real {
    t.nextFree as real - p.interval * t.stored
  }

  /** Each grant pushes the horizon more than one interval less a nanosecond beyond where it was, and beyond now less the burst. */
  lemma TicketAdvancesHorizon(p: Pace, t: Tickets, now: int)
    requires ValidTickets(p, t) && now > t.nextFree
    ensures var t' := TakeTicket(p, t, now);
            && ValidTickets(p, t') && now <= t'.nextFree
            && Horizon(p, t') > Horizon(p, t) + p.interval - 1.0
            && Horizon(p, t') > now as real - p.interval * p.maxPermits + p.interval - 1.0
            && Horizon(p, t') <= t'.nextFree as real
  {
    var earned := (now - t.nextFree) as real / p.interval;
    assert earned * p.interval == (now - t.nextFree) as real;
    assert earned >= 0.0;
    var stored := MinReal(p.maxPermits, t.stored + earned);
    var spend := MinReal(1.0, stored);
    var owed := (1.0 - spend) * p.interval;
    assert owed >= 0.0;
    Scale(p.interval, stored, t.stored + earned);
    Scale(p.interval, stored, p.maxPermits);
    Scale(p.interval, 0.0, stored - spend);
    assert p.interval * (t.stored + earned) == p.interval * t.stored + earned * p.interval;
    assert p.interval * (stored - spend) == p.interval * stored - p.interval + owed;
  }

  lemma ScaleStrictly(k: real, x: real, y: real)
    requires k > 0.0
    ensures x < y ==> k * x < k * y
  {
    if x < y {
      assert k * (y - x) > 0.0;
    }
  }

  lemma Scale(k: real, x: real, y: real)
    requires k > 0.0 && x <= y
    ensures k * x <= k * y
  {
    assert k * (y - x) >= 0.0;
  }

  /** From a given state on, the k-th later grant (counting from 0) is k intervals, less a nanosecond each, past the horizon. */
  lemma {:induction false} GrantsPace(p: Pace, t: Tickets, times: seq<int>, k: nat)
    requires ValidTickets(p, t) && k < |Grants(p, t, times)|
    ensures Grants(p, t, times)[k] as real > Horizon(p, t) + k as real * (p.interval - 1.0)
    decreases |times|
  {
    hide TakeTicket;
    if times[0] <= t.nextFree {
      GrantsPace(p, t, times[1..], k);
    } else {
      TicketAdvancesHorizon(p, t, times[0]);
      Scale(p.interval, 0.0, t.stored);
      if k > 0 {
        GrantsPace(p, TakeTicket(p, t, times[0]), times[1..], k - 1);
        assert k as real * (p.interval - 1.0) == (k - 1) as real * (p.interval - 1.0) + (p.interval - 1.0);
      }
    }
  }

  /**
    Rate over every stretch of every run: grants i..j, m = j-i+1 of them, satisfy
    (m-1) * (interval - 1ns) < elapsed + interval * maxPermits.
   */
  lemma {:induction false} RateWindow(p: Pace, t: Tickets, times: seq<int>, i: nat, j: nat)
    requires ValidTickets(p, t) && p.maxPermits > 0.0 && i <= j < |Grants(p, t, times)|
    ensures var g := Grants(p, t, times);
            (j - i) as real * (p.interval - 1.0) < (g[j] - g[i]) as real + p.interval * p.maxPermits
    decreases |times|
  {
    hide TakeTicket;
    if times[0] <= t.nextFree {
      RateWindow(p, t, times[1..], i, j);
    } else {
      var t' := TakeTicket(p, t, times[0]);
      TicketAdvancesHorizon(p, t, times[0]);
      if i > 0 {
        RateWindow(p, t', times[1..], i - 1, j - 1);
      } else if j > 0 {
        GrantsPace(p, t', times[1..], j - 1);
        assert j as real * (p.interval - 1.0) == (j - 1) as real * (p.interval - 1.0) + (p.interval - 1.0);
      } else {
        assert p.interval * p.maxPermits > 0.0;
      }
    }
  }

  // ---------------------------------------------------------------- nothing is refused without need

  function MaxReal(x: real, y: real): real {
    if x >= y then x else y
  }

  /** A grant costs no more than one interval: permits earned are stored, and stored ones are spent first. */
  lemma TicketCost(p: Pace, t: Tickets, now: int)
    requires ValidTickets(p, t) && now > t.nextFree
    ensures var t' := TakeTicket(p, t, now);
            Horizon(p, t') <= MaxReal(Horizon(p, t), now as real - p.interval * p.maxPermits) + p.interval
  {
    var earned := (now - t.nextFree) as real / p.interval;
    assert earned * p.interval == (now - t.nextFree) as real;
    var stored := MinReal(p.maxPermits, t.stored + earned);
    var spend := MinReal(1.0, stored);
    var owed := (1.0 - spend) * p.interval;
    assert p.interval * (t.stored + earned) == p.interval * t.stored + earned * p.interval;
    assert p.interval * (stored - spend) == p.interval * stored - p.interval + owed;
  }

  /** With a permit in store the next instant is free again, and all but the one permit stay in store. */
  lemma SpendStored(p: Pace, t: Tickets, now: int, k: real)
    requires ValidTickets(p, t) && now > t.nextFree && 1.0 <= k <= p.maxPermits
    requires k <= t.stored || p.interval * k <= (now - t.nextFree) as real
    ensures var t' := TakeTicket(p, t, now);
            ValidTickets(p, t') && t'.nextFree == now && k - 1.0 <= t'.stored
  {
    var earned := (now - t.nextFree) as real / p.interval;
    assert earned * p.interval == (now - t.nextFree) as real;
    assert earned >= 0.0;
    ScaleStrictly(p.interval, earned, k);
    assert (1.0 - 1.0) * p.interval == 0.0;
  }

  ghost predicate Rising(start: int, times: seq<int>) {
    && (forall i :: 0 <= i < |times| ==> start < times[i])
    && (forall i, j :: 0 <= i < j < |times| ==> times[i] < times[j])
  }

  /** A burst: with k permits in store, or enough idle time to earn them, k calls in a row are granted. */
  lemma {:induction false} BurstGranted(p: Pace, t: Tickets, times: seq<int>)
    requires ValidTickets(p, t) && Rising(t.nextFree, times) && |times| as real <= p.maxPermits
    requires times != [] ==> || |times| as real <= t.stored
                             || p.interval * |times| as real <= (times[0] - t.nextFree) as real
    ensures Grants(p, t, times) == times
    decreases |times|
  {
    hide TakeTicket;
    if times != [] {
      SpendStored(p, t, times[0], |times| as real);
      BurstGranted(p, TakeTicket(p, t, times[0]), times[1..]);
      assert times == [times[0]] + times[1..];
    }
  }

  ghost predicate Spaced(p: Pace, start: int, times: seq<int>) {
    && (times != [] ==> start < times[0])
    && (forall i :: 0 < i < |times| ==> p.interval < (times[i] - times[i - 1]) as real)
  }

  /** A steady caller: calls more than an interval apart are all granted. */
  lemma {:induction false} SpacedGranted(p: Pace, t: Tickets, times: seq<int>)
    requires ValidTickets(p, t) && Spaced(p, t.nextFree, times)
    ensures Grants(p, t, times) == times
    decreases |times|
  {
    if times != [] {
      var t' := TakeTicket(p, t, times[0]);
      TicketAdvancesHorizon(p, t, times[0]);
      TicketWithinInterval(p, t, times[0]);
      hide TakeTicket;
      if |times| > 1 {
        assert p.interval < (times[1] - times[0]) as real;
      }
      assert forall i :: 0 < i < |times[1..]| ==> times[1..][i] == times[i + 1] && times[1..][i - 1] == times[i];
      SpacedGranted(p, t', times[1..]);
      assert times == [times[0]] + times[1..];
    }
  }

  lemma TicketWithinInterval(p: Pace, t: Tickets, now: int)
    requires ValidTickets(p, t) && now > t.nextFree
    ensures (TakeTicket(p, t, now).nextFree - now) as real <= p.interval
  {
    var earned := (now - t.nextFree) as real / p.interval;
    assert earned * p.interval == (now - t.nextFree) as real;
    assert earned >= 0.0;
    var spend := MinReal(1.0, MinReal(p.maxPermits, t.stored + earned));
    assert 0.0 <= spend;
    assert (1.0 - spend) * p.interval == p.interval - spend * p.interval && spend * p.interval >= 0.0;
  }

  // ---------------------------------------------------------------- fixed windows

  datatype Window = Window(next: int, used: int)

  class QPSLimiter {
    const maxAllows: int
    const period: int
    var nextPeriod: int
    var currentPermits: int

    function State(): Window
      reads this
    {
      Window(nextPeriod, currentPermits)
    }

    constructor (maxAllows: int, periodMs: int, now: int)
      requires maxAllows >= 0 && periodMs > 0
      ensures this.maxAllows == maxAllows && period == periodMs * MILLISECOND
      ensures State() == Window(now + period, 0)
    {
      this.maxAllows := maxAllows;
      period := periodMs * MILLISECOND;
      nextPeriod := now + periodMs * MILLISECOND;
      currentPermits := 0;
    }

    method TryAcquire(now: int) returns (ok: bool)
      modifies this
      ensures maxAllows <= 0 ==> !ok && State() == old(State())
      ensures maxAllows > 0 ==> (State(), ok) == Count(maxAllows, period, old(State()), now)
    {
      if maxAllows <= 0 {
        return false;
      }
      if now >= nextPeriod {
        nextPeriod := now + period;
        currentPermits := 0;
      }
      currentPermits := currentPermits + 1;
      return currentPermits <= maxAllows;
    }
  }

  function Count(maxAllows: int, period: int, w: Window, now: int): (Window, bool) {
    var w' := if now >= w.next then Window(now + period, 0) else w;
    (w'.(used := w'.used + 1), w'.used + 1 <= maxAllows)
  }

  /** How many of a run's calls are granted at instants in [from, until). */
  ghost function GrantedIn(maxAllows: int, period: int, w: Window, times: seq<int>, from: int, until: int): nat
    decreases |times|
  {
    if times == [] then 0 else
    var (w', ok) := Count(maxAllows, period, w, times[0]);
    (if ok && from <= times[0] < until then 1 else 0) + GrantedIn(maxAllows, period, w', times[1..], from, until)
  }

  /** The answers to a run of calls, and the window it leaves. */
  ghost function Answers(maxAllows: int, period: int, w: Window, times: seq<int>): (seq<bool>, Window)
    decreases |times|
  {
    if times == [] then ([], w) else
    var (w', ok) := Count(maxAllows, period, w, times[0]);
    var rest := Answers(maxAllows, period, w', times[1..]);
    ([ok] + rest.0, rest.1)
  }

  lemma {:induction false} AnswersOfParts(maxAllows: int, period: int, w: Window, first: seq<int>, more: seq<int>)
    ensures var a := Answers(maxAllows, period, w, first);
            var b := Answers(maxAllows, period, a.1, more);
            Answers(maxAllows, period, w, first + more) == (a.0 + b.0, b.1)
    decreases |first|
  {
    if first == [] {
      var b := Answers(maxAllows, period, w, more);
      assert first + more == more && [] + b.0 == b.0;
    } else {
      assert (first + more)[1..] == first[1..] + more;
      var (w', ok) := Count(maxAllows, period, w, first[0]);
      AnswersOfParts(maxAllows, period, w', first[1..], more);
      var a := Answers(maxAllows, period, w', first[1..]);
      assert [ok] + (a.0 + Answers(maxAllows, period, a.1, more).0) == [ok] + a.0 + Answers(maxAllows, period, a.1, more).0;
    }
  }

  /** While a window lasts, exactly the first calls are granted, as many as it has permits left. */
  lemma {:induction false} WindowExactly(maxAllows: nat, period: nat, w: Window, times: seq<int>)
    requires 0 <= w.used && forall i :: 0 <= i < |times| ==> times[i] < w.next
    ensures var a := Answers(maxAllows, period, w, times);
            && |a.0| == |times| && a.1 == Window(w.next, w.used + |times|)
            && forall i :: 0 <= i < |times| ==> (a.0[i] <==> i < Left(maxAllows, w))
    decreases |times|
  {
    if times != [] {
      WindowExactly(maxAllows, period, w.(used := w.used + 1), times[1..]);
    }
  }

  /** The first call at or after its end opens a window of one period, in which exactly maxAllows calls are granted. */
  lemma NextWindowExactly(maxAllows: nat, period: nat, w: Window, times: seq<int>)
    requires times != [] && w.next <= times[0] && forall i :: 0 <= i < |times| ==> times[i] < times[0] + period
    ensures var a := Answers(maxAllows, period, w, times);
            && |a.0| == |times| && a.1 == Window(times[0] + period, |times|)
            && forall i :: 0 <= i < |times| ==> (a.0[i] <==> i < maxAllows)
  {
    WindowExactly(maxAllows, period, Window(times[0] + period, 1), times[1..]);
  }

  ghost predicate Ascending(times: seq<int>) {
    forall i, j :: 0 <= i < j < |times| ==> times[i] <= times[j]
  }

  ghost function Left(maxAllows: int, w: Window): nat {
    if w.used < maxAllows then maxAllows - w.used else 0
  }

  /** Until the present window closes only its remaining permits are granted; for one period more, one full window besides. */
  lemma {:induction false} WindowsBound(maxAllows: nat, period: nat, w: Window, times: seq<int>, from: int, until: int)
    requires Ascending(times) && 0 <= w.used
    ensures until <= w.next ==>
              GrantedIn(maxAllows, period, w, times, from, until) <= Left(maxAllows, w)
    ensures until <= w.next + period ==>
              GrantedIn(maxAllows, period, w, times, from, until) <= Left(maxAllows, w) + maxAllows
    decreases |times|
  {
    if times != [] {
      var (w', ok) := Count(maxAllows, period, w, times[0]);
      WindowsBound(maxAllows, period, w', times[1..], from, until);
      if until <= times[0] {
        NothingAfter(maxAllows, period, w', times[1..], from, until);
      }
    }
  }

  lemma {:induction false} NothingAfter(maxAllows: nat, period: nat, w: Window, times: seq<int>, from: int, until: int)
    requires forall i :: 0 <= i < |times| ==> until <= times[i]
    ensures GrantedIn(maxAllows, period, w, times, from, until) == 0
    decreases |times|
  {
    if times != [] {
      NothingAfter(maxAllows, period, Count(maxAllows, period, w, times[0]).0, times[1..], from, until);
    }
  }

  /** In every run, any half-open interval one period long sees at most twice maxAllows grants. */
  lemma {:induction false} PeriodBound(maxAllows: nat, period: nat, w: Window, times: seq<int>, from: int)
    requires Ascending(times) && 0 <= w.used
    ensures GrantedIn(maxAllows, period, w, times, from, from + period) <= 2 * maxAllows
    decreases |times|
  {
    if times != [] {
      var (w', ok) := Count(maxAllows, period, w, times[0]);
      if times[0] < from {
        PeriodBound(maxAllows, period, w', times[1..], from);
      } else {
        WindowsBound(maxAllows, period, w', times[1..], from, from + period);
      }
    }
  }
}
