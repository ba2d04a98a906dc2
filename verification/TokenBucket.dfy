/**
  The token bucket of utils/time/rate/rate.go.

  Times and durations are whole nanoseconds (`int`), token counts are `real`, and the
  truncation to whole nanoseconds in the source's unit conversion is kept.  Every method
  that holds the limiter's mutex is one atomic step.
 */
module TokenBucket {

  const NANOS_PER_SECOND: real := 1000000000.0

  /** The settings of a limiter: tokens per second, and the size of the bucket. */
  datatype Config = Config(limit: real, burst: int) {
    predicate Valid() {
      limit > 0.0 && burst >= 0
    }
  }

  /** The mutable part of a limiter. */
  datatype Bucket = Bucket(tokens: real, last: int, lastEvent: int)

  datatype Reservation = Reservation(ok: bool, tokens: int, timeToAct: int)

  ghost predicate ValidBucket(c: Config, b: Bucket) {
    c.Valid() && b.tokens <= c.burst as real
  }

  // ---------------------------------------------------------------- unit conversion

  /** Conversion of a float to an integer drops the fraction: truncation toward zero. */
  function Truncate(x: real): int {
    if x >= 0.0 then x.Floor else -((-x).Floor)
  }

  function TokensFromDuration(limit: real, d: int): real {
    d as real / NANOS_PER_SECOND * limit
  }

  function DurationFromTokens(limit: real, tokens: real): int
    requires limit > 0.0
  {
    Truncate(NANOS_PER_SECOND * (tokens / limit))
  }

  lemma TokensAdd(limit: real, d: int, e: int)
    ensures TokensFromDuration(limit, d + e) == TokensFromDuration(limit, d) + TokensFromDuration(limit, e)
  {
    var x, y := d as real / NANOS_PER_SECOND, e as real / NANOS_PER_SECOND;
    assert (d + e) as real / NANOS_PER_SECOND == x + y;
    assert (x + y) * limit == x * limit + y * limit;
  }

  lemma TokensMonotone(limit: real, d: int, e: int)
    requires limit > 0.0 && d <= e
    ensures TokensFromDuration(limit, d) <= TokensFromDuration(limit, e)
    ensures d < e ==> TokensFromDuration(limit, d) < TokensFromDuration(limit, e)
    ensures TokensFromDuration(limit, 0) == 0.0
  {
    TokensAdd(limit, d, e - d);
    var x := (e - d) as real / NANOS_PER_SECOND;
    assert x >= 0.0 && (d < e ==> x > 0.0);
    assert x * limit >= 0.0 && (x > 0.0 ==> x * limit > 0.0);
    assert 0 as real / NANOS_PER_SECOND == 0.0;
  }

  /** The two conversions form a Galois connection on non-negative token counts. */
  lemma DurationGalois(limit: real, tokens: real, d: int)
    requires limit > 0.0 && tokens >= 0.0
    ensures DurationFromTokens(limit, tokens) >= 0
    ensures d <= DurationFromTokens(limit, tokens) <==> TokensFromDuration(limit, d) <= tokens
  {
    var q := tokens / limit;
    assert q * limit == tokens;
    assert q >= 0.0;
    var x := d as real / NANOS_PER_SECOND;
    assert x <= q <==> x * limit <= q * limit by {
      if x <= q { ScaleLe(x, q, limit); } else { ScaleLt(q, x, limit); }
    }
    assert x <= q <==> d as real <= NANOS_PER_SECOND * q;
    assert d as real <= NANOS_PER_SECOND * q <==> d <= (NANOS_PER_SECOND * q).Floor;
  }

  lemma ScaleLe(x: real, y: real, k: real)
    requires x <= y && k > 0.0
    ensures x * k <= y * k
  {
    assert (y - x) * k >= 0.0;
  }

  lemma ScaleLt(x: real, y: real, k: real)
    requires x < y && k > 0.0
    ensures x * k < y * k
  {
    assert (y - x) * k > 0.0;
  }

  // ---------------------------------------------------------------- specification

  function Min(a: int, b: int): int {
    if a <= b then a else b
  }

  /** The token count at `now`: what `advance` returns besides the times. */
  function Available(c: Config, b: Bucket, now: int): real
    requires c.limit > 0.0
  {
    var last := Min(b.last, now);
    var maxElapsed := DurationFromTokens(c.limit, c.burst as real - b.tokens);
    var tokens := b.tokens + TokensFromDuration(c.limit, Min(now - last, maxElapsed));
    if tokens > c.burst as real then c.burst as real else tokens
  }

  function WaitFor(c: Config, tokens: real): int
    requires c.limit > 0.0
  {
    if tokens < 0.0 then DurationFromTokens(c.limit, -tokens) else 0
  }

  /** One call of reserveN: the new bucket and the reservation handed out. */
  function Reserve(c: Config, b: Bucket, now: int, n: int, maxWait: int): (Bucket, Reservation)
    requires c.limit > 0.0
  {
    var tokens := Available(c, b, now) - n as real;
    var wait := WaitFor(c, tokens);
    if n <= c.burst && wait <= maxWait then
      (Bucket(tokens, now, now + wait), Reservation(true, n, now + wait))
    else
      (b.(last := Min(b.last, now)), Reservation(false, 0, 0))
  }

  /** One call of CancelAt on a reservation made under the present limit. */
  function Cancel(c: Config, b: Bucket, r: Reservation, now: int): Bucket
    requires c.limit > 0.0
  {
    if !r.ok || r.tokens == 0 || r.timeToAct < now then b else
    var restore := r.tokens as real - TokensFromDuration(c.limit, b.lastEvent - r.timeToAct);
    if restore <= 0.0 then b else
    var tokens := Available(c, b, now) + restore;
    var prevEvent := r.timeToAct + DurationFromTokens(c.limit, -(r.tokens as real));
    Bucket(if tokens > c.burst as real then c.burst as real else tokens,
           now,
           if r.timeToAct == b.lastEvent && now <= prevEvent then prevEvent else b.lastEvent)
  }

  // ---------------------------------------------------------------- the limiter object

  class Limiter {
    const limit: real
    const burst: int
    var tokens: real
    var last: int
    var lastEvent: int

    function Settings(): Config {
      Config(limit, burst)
    }

    function State(): Bucket
      reads this
    {
      Bucket(tokens, last, lastEvent)
    }

    ghost predicate Valid()
      reads this
    {
      ValidBucket(Settings(), State())
    }

    constructor (r: real, b: int)
      requires r > 0.0 && b >= 0
      ensures Valid() && Settings() == Config(r, b) && State() == Bucket(0.0, 0, 0)
    {
      limit, burst := r, b;
      tokens, last, lastEvent := 0.0, 0, 0;
    }

    method Advance(now: int) returns (newNow: int, newLast: int, newTokens: real)
      requires Valid()
      ensures newNow == now && newLast == Min(last, now)
      ensures newTokens == Available(Settings(), State(), now) <= burst as real
      ensures State().last <= now ==>
                State().tokens <= newTokens <= State().tokens + TokensFromDuration(limit, now - last)
    {
      newNow, newLast := now, last;
      if now < newLast {
        newLast := now;
      }
      var maxElapsed := DurationFromTokens(limit, burst as real - tokens);
      var elapsed := now - newLast;
      if elapsed > maxElapsed {
        elapsed := maxElapsed;
      }
      newTokens := tokens + TokensFromDuration(limit, elapsed);
      if newTokens > burst as real {
        newTokens := burst as real;
      }
      if last <= now {
        AvailableBounds(Settings(), State(), now);
      }
    }

    method ReserveN(now: int, n: int, maxFutureReserve: int) returns (r: Reservation)
      requires Valid() && n >= 0
      modifies this
      ensures Valid()
      ensures (State(), r) == Reserve(Settings(), old(State()), now, n, maxFutureReserve)
    {
      var nw, lst, tk := Advance(now);
      tk := tk - n as real;
      var waitDuration := 0;
      if tk < 0.0 {
        waitDuration := DurationFromTokens(limit, -tk);
      }
      var ok := n <= burst && waitDuration <= maxFutureReserve;
      r := Reservation(ok, 0, 0);
      if ok {
        r := Reservation(ok, n, nw + waitDuration);
        last := nw;
        tokens := tk;
        lastEvent := r.timeToAct;
      } else {
        last := lst;
      }
    }

    method AllowN(now: int, n: int) returns (ok: bool)
      requires Valid() && n >= 0
      modifies this
      ensures Valid()
      ensures State() == Reserve(Settings(), old(State()), now, n, 0).0
      ensures ok <==> n <= burst
                      && n as real < old(Available(Settings(), State(), now)) + TokensFromDuration(limit, 1)
    {
      AllowExactly(Settings(), State(), now, n);
      var r := ReserveN(now, n, 0);
      ok := r.ok;
    }

    method CancelAt(r: Reservation, now: int)
      requires Valid()
      modifies this
      ensures Valid()
      ensures State() == Cancel(Settings(), old(State()), r, now)
      ensures !r.ok || r.tokens == 0 || r.timeToAct < now ==> State() == old(State())
    {
      if !r.ok {
        return;
      }
      if r.tokens == 0 || r.timeToAct < now {
        return;
      }
      var restoreTokens := r.tokens as real - TokensFromDuration(limit, lastEvent - r.timeToAct);
      if restoreTokens <= 0.0 {
        return;
      }
      var nw, lst, tk := Advance(now);
      tk := tk + restoreTokens;
      if tk > burst as real {
        tk := burst as real;
      }
      last := nw;
      tokens := tk;
      if r.timeToAct == lastEvent {
        var prevEvent := r.timeToAct + DurationFromTokens(limit, -(r.tokens as real));
        if nw <= prevEvent {
          lastEvent := prevEvent;
        }
      }
    }
  }

  // ---------------------------------------------------------------- single-step facts

  lemma AvailableBounds(c: Config, b: Bucket, now: int)
    requires ValidBucket(c, b) && b.last <= now
    ensures b.tokens <= Available(c, b, now) <= c.burst as real
    ensures Available(c, b, now) <= b.tokens + TokensFromDuration(c.limit, now - b.last)
    ensures Available(c, b, now)
            == b.tokens + TokensFromDuration(c.limit, Min(now - b.last, DurationFromTokens(c.limit, c.burst as real - b.tokens)))
  {
    var room := c.burst as real - b.tokens;
    var most := DurationFromTokens(c.limit, room);
    var e := Min(now - b.last, most);
    DurationGalois(c.limit, room, most);
    TokensMonotone(c.limit, 0, e);
    TokensMonotone(c.limit, e, most);
    TokensMonotone(c.limit, e, now - b.last);
  }

  /**
    The refill, exactly: everything that comes in since the last update while that fits the burst, and from
    then on the burst to within a nanosecond's tokens.  Nothing comes in while the clock is behind.
   */
  lemma RefillExactly(c: Config, b: Bucket, now: int)
    requires ValidBucket(c, b)
    ensures var all := b.tokens + TokensFromDuration(c.limit, now - Min(b.last, now));
            if all <= c.burst as real then Available(c, b, now) == all
            else c.burst as real - TokensFromDuration(c.limit, 1) < Available(c, b, now) <= c.burst as real
  {
    hide TokensFromDuration, DurationFromTokens;
    var room, e := c.burst as real - b.tokens, now - Min(b.last, now);
    var most := DurationFromTokens(c.limit, room);
    AvailableBounds(c, b.(last := Min(b.last, now)), now);
    TokensMonotone(c.limit, 0, 0);
    DurationGalois(c.limit, room, e);
    DurationGalois(c.limit, room, most + 1);
    TokensAdd(c.limit, most, 1);
  }

  /** The wait is the least whole number of nanoseconds that leaves the debt below one nanosecond's tokens. */
  lemma WaitBounds(c: Config, tokens: real)
    requires c.Valid()
    ensures WaitFor(c, tokens) >= 0
    ensures -tokens < TokensFromDuration(c.limit, WaitFor(c, tokens) + 1)
    ensures tokens < 0.0 ==> TokensFromDuration(c.limit, WaitFor(c, tokens)) <= -tokens
  {
    TokensMonotone(c.limit, 0, 1);
    if tokens < 0.0 {
      DurationGalois(c.limit, -tokens, WaitFor(c, tokens));
      DurationGalois(c.limit, -tokens, WaitFor(c, tokens) + 1);
    }
  }

  lemma AllowExactly(c: Config, b: Bucket, now: int, n: int)
    requires ValidBucket(c, b)
    ensures Reserve(c, b, now, n, 0).1.ok
            <==> n <= c.burst && n as real < Available(c, b, now) + TokensFromDuration(c.limit, 1)
  {
    var tokens := Available(c, b, now) - n as real;
    WaitBounds(c, tokens);
    TokensMonotone(c.limit, 0, 1);
    if tokens < 0.0 {
      DurationGalois(c.limit, -tokens, 1);
    }
  }

  /**
    Every reservation, into the future too: granted if and only if the burst allows it and the tokens will be
    there, to within a nanosecond, after the longest wait allowed; and the wait is then the shortest such.
   */
  lemma ReserveExactly(c: Config, b: Bucket, now: int, n: nat, maxWait: int)
    requires ValidBucket(c, b)
    ensures var (b', r) := Reserve(c, b, now, n, maxWait);
            var available := Available(c, b, now);
            && (r.ok <==> n <= c.burst && maxWait >= 0
                          && n as real < available + TokensFromDuration(c.limit, maxWait + 1))
            && (r.ok ==> && r.tokens == n && now <= r.timeToAct <= now + maxWait
                         && b' == Bucket(available - n as real, now, r.timeToAct)
                         && (n as real <= available ==> r.timeToAct == now)
                         && (n as real > available ==>
                               TokensFromDuration(c.limit, r.timeToAct - now) <= n as real - available
                               < TokensFromDuration(c.limit, r.timeToAct - now + 1)))
            && (!r.ok ==> r == Reservation(false, 0, 0) && b' == b.(last := Min(b.last, now)))
  {
    hide Available, TokensFromDuration;
    var tokens := Available(c, b, now) - n as real;
    WaitBounds(c, tokens);
    if maxWait >= 0 {
      TokensMonotone(c.limit, 0, maxWait + 1);
    }
    if tokens < 0.0 {
      DurationGalois(c.limit, -tokens, maxWait + 1);
    }
  }

  /** Waiting in two legs refills exactly as much as waiting in one. */
  lemma AvailableCompose(c: Config, b: Bucket, mid: int, now: int)
    requires ValidBucket(c, b) && b.last <= mid <= now
    ensures Available(c, Bucket(Available(c, b, mid), mid, b.lastEvent), now) == Available(c, b, now)
  {
    var room := c.burst as real - b.tokens;
    var most := DurationFromTokens(c.limit, room);
    var e := Min(mid - b.last, most);
    var b' := Bucket(Available(c, b, mid), mid, b.lastEvent);
    AvailableBounds(c, b, mid);
    AvailableBounds(c, b', now);
    AvailableBounds(c, b, now);
    DurationShift(c, room, e);
    var e' := Min(now - mid, DurationFromTokens(c.limit, c.burst as real - b'.tokens));
    assert e + e' == Min(now - b.last, most);
    TokensAdd(c.limit, e, e');
  }

  lemma DurationShift(c: Config, room: real, e: int)
    requires c.Valid() && room >= 0.0 && e <= DurationFromTokens(c.limit, room)
    ensures room - TokensFromDuration(c.limit, e) >= 0.0
    ensures DurationFromTokens(c.limit, room - TokensFromDuration(c.limit, e))
            == DurationFromTokens(c.limit, room) - e
  {
    var d := DurationFromTokens(c.limit, room);
    DurationGalois(c.limit, room, e);
    var left := room - TokensFromDuration(c.limit, e);
    TokensAdd(c.limit, e, d - e);
    TokensAdd(c.limit, e, d - e + 1);
    DurationGalois(c.limit, room, d);
    DurationGalois(c.limit, room, d + 1);
    DurationGalois(c.limit, left, d - e);
    DurationGalois(c.limit, left, d - e + 1);
  }

  // ---------------------------------------------------------------- whole runs

  datatype Request = Request(now: int, n: nat, maxWait: int)

  /** A granted request: when it was made, when it may act, its size, and the tokens it left behind. */
  datatype Grant = Grant(at: int, act: int, n: nat, left: real)

  ghost predicate Monotone(start: int, reqs: seq<Request>) {
    && (forall i :: 0 <= i < |reqs| ==> start <= reqs[i].now)
    && (forall i, j :: 0 <= i < j < |reqs| ==> reqs[i].now <= reqs[j].now)
  }

  /** The grants handed out by a run of requests; refused requests leave no grant. */
  ghost function Run(c: Config, b: Bucket, reqs: seq<Request>): seq<Grant>
    requires c.limit > 0.0
    decreases |reqs|
  {
    if reqs == [] then [] else
    var (b', r) := Reserve(c, b, reqs[0].now, reqs[0].n, reqs[0].maxWait);
    var rest := Run(c, b', reqs[1..]);
    if r.ok then [Grant(reqs[0].now, r.timeToAct, reqs[0].n, b'.tokens)] + rest else rest
  }

  /** The tokens granted by grants i, ..., j-1. */
  ghost function Granted(g: seq<Grant>, i: nat, j: nat): nat
    requires j <= |g|
  {
    if j <= i then 0 else Granted(g, i, j - 1) + g[j - 1].n
  }

  /** One grant by itself: it fits the burst, and its wait covers its debt to within a nanosecond. */
  ghost predicate Sound(c: Config, x: Grant) {
    && x.at <= x.act && x.n <= c.burst
    && x.n as real + x.left + TokensFromDuration(c.limit, x.act - x.at) <= c.burst as real
    && -x.left < TokensFromDuration(c.limit, x.act - x.at + 1)
  }

  /** Two successive grants: the later one spends only what was left plus the refill, and acts no earlier. */
  ghost predicate Follows(c: Config, x: Grant, y: Grant) {
    && y.left + y.n as real <= x.left + TokensFromDuration(c.limit, y.at - x.at)
    && x.act <= y.act
  }

  lemma GrantStep(c: Config, b: Bucket, q: Request)
    requires ValidBucket(c, b) && b.last <= q.now
    requires Reserve(c, b, q.now, q.n, q.maxWait).1.ok
    ensures var (b', r) := Reserve(c, b, q.now, q.n, q.maxWait);
            && ValidBucket(c, b') && b'.last == q.now && r.timeToAct == q.now + WaitFor(c, b'.tokens)
            && b'.tokens + q.n as real <= b.tokens + TokensFromDuration(c.limit, q.now - b.last)
            && b.last + WaitFor(c, b.tokens) <= r.timeToAct
            && Sound(c, Grant(q.now, r.timeToAct, q.n, b'.tokens))
  {
    AvailableBounds(c, b, q.now);
    WaitBounds(c, Available(c, b, q.now) - q.n as real);
    TokensMonotone(c.limit, 0, 1);
    NoEarlierAct(c, b, q);
  }

  lemma NoEarlierAct(c: Config, b: Bucket, q: Request)
    requires ValidBucket(c, b) && b.last <= q.now
    requires Reserve(c, b, q.now, q.n, q.maxWait).1.ok
    ensures b.last + WaitFor(c, b.tokens) <= Reserve(c, b, q.now, q.n, q.maxWait).1.timeToAct
  {
    var w, e := WaitFor(c, b.tokens), q.now - b.last;
    var tokens := Available(c, b, q.now) - q.n as real;
    WaitBounds(c, tokens);
    if e < w {
      // the old debt is still open at q.now
      AvailableBounds(c, b, q.now);
      WaitBounds(c, b.tokens);
      TokensAdd(c.limit, e, w - e);
      TokensMonotone(c.limit, 1, w - e);
      TokensMonotone(c.limit, 0, 1);
      DurationGalois(c.limit, -tokens, w - e);
    }
  }

  lemma RefusalStep(c: Config, b: Bucket, q: Request)
    requires c.Valid() && b.last <= q.now && !Reserve(c, b, q.now, q.n, q.maxWait).1.ok
    ensures Reserve(c, b, q.now, q.n, q.maxWait).0 == b
  {
  }

  /** Every run keeps the ledger: each grant is sound and each follows its predecessor. */
  lemma {:induction false} RunKeepsLedger(c: Config, b: Bucket, reqs: seq<Request>)
    requires ValidBucket(c, b) && Monotone(b.last, reqs)
    ensures var g := Run(c, b, reqs);
            && (forall k :: 0 <= k < |g| ==> Sound(c, g[k]))
            && (forall k :: 0 < k < |g| ==> Follows(c, g[k - 1], g[k]))
            && (g != [] ==> && g[0].left + g[0].n as real <= b.tokens + TokensFromDuration(c.limit, g[0].at - b.last)
                            && b.last + WaitFor(c, b.tokens) <= g[0].act)
    decreases |reqs|
  {
    hide TokensFromDuration, Reserve;
    if reqs != [] {
      var q := reqs[0];
      var (b', r) := Reserve(c, b, q.now, q.n, q.maxWait);
      if r.ok {
        GrantStep(c, b, q);
      } else {
        RefusalStep(c, b, q);
      }
      RunKeepsLedger(c, b', reqs[1..]);
    }
  }

  /** What grants i+1..j spend is paid for by what grant i left and the refill since then. */
  lemma {:induction false} SpendBound(c: Config, g: seq<Grant>, i: nat, j: nat)
    requires forall k :: 0 < k < |g| ==> Follows(c, g[k - 1], g[k])
    requires i <= j < |g|
    ensures g[j].left + Granted(g, i + 1, j + 1) as real
            <= g[i].left + TokensFromDuration(c.limit, g[j].at - g[i].at)
    ensures g[i].act <= g[j].act
  {
    hide TokensFromDuration;
    if i == j {
      TokensAdd(c.limit, 0, 0);
    } else {
      SpendBound(c, g, i, j - 1);
      assert Follows(c, g[j - 1], g[j]);
      TokensAdd(c.limit, g[j - 1].at - g[i].at, g[j].at - g[j - 1].at);
    }
  }

  /**
    Safety over every window of every run: the tokens granted by reservations i..j total less than
    burst + limit * (act_j - act_i + 1ns), and promised act times never decrease.
   */
  lemma WindowBound(c: Config, b: Bucket, reqs: seq<Request>, i: nat, j: nat)
    requires ValidBucket(c, b) && Monotone(b.last, reqs) && i <= j < |Run(c, b, reqs)|
    ensures var g := Run(c, b, reqs);
            && Granted(g, i, j + 1) as real
               < c.burst as real + TokensFromDuration(c.limit, g[j].act - g[i].act + 1)
            && g[i].act <= g[j].act
  {
    hide TokensFromDuration, Run, Granted, Monotone, Follows;
    var g := Run(c, b, reqs);
    RunKeepsLedger(c, b, reqs);
    SpendBound(c, g, i, j);
    GrantedFirst(g, i, j + 1);
    assert Sound(c, g[i]) && Sound(c, g[j]);
    TokensAdd(c.limit, g[i].act - g[i].at, g[j].at - g[i].act);
    TokensAdd(c.limit, g[j].at - g[i].act, g[j].act - g[j].at + 1);
  }

  lemma {:induction false} GrantedFirst(g: seq<Grant>, i: nat, j: nat)
    requires i < j <= |g|
    ensures Granted(g, i, j) == g[i].n + Granted(g, i + 1, j)
  {
    if i + 1 < j {
      GrantedFirst(g, i, j - 1);
    }
  }

  // ---------------------------------------------------------------- act times of waiting reservations

  /** A request made while the last reservation is still waiting spends exactly what it takes. */
  lemma DebtStep(c: Config, b: Bucket, q: Request)
    requires ValidBucket(c, b) && b.last <= q.now <= b.last + WaitFor(c, b.tokens)
    requires Reserve(c, b, q.now, q.n, q.maxWait).1.ok
    ensures Reserve(c, b, q.now, q.n, q.maxWait).0.tokens + q.n as real
            == b.tokens + TokensFromDuration(c.limit, q.now - b.last)
  {
    hide TokensFromDuration, DurationFromTokens;
    var e, room := q.now - b.last, c.burst as real - b.tokens;
    AvailableBounds(c, b, q.now);
    WaitBounds(c, b.tokens);
    TokensMonotone(c.limit, 0, 0);
    if b.tokens < 0.0 {
      TokensMonotone(c.limit, e, WaitFor(c, b.tokens));
    }
    DurationGalois(c.limit, room, e);
  }

  /** Each grant that was made while its predecessor was waiting adds its tokens to the debt. */
  ghost predicate Queues(c: Config, x: Grant, y: Grant) {
    y.at <= x.act ==> y.left + y.n as real == x.left + TokensFromDuration(c.limit, y.at - x.at)
  }

  ghost predicate AllQueue(c: Config, g: seq<Grant>) {
    forall k :: 0 < k < |g| ==> Queues(c, g[k - 1], g[k])
  }

  lemma {:induction false} RunKeepsDebt(c: Config, b: Bucket, reqs: seq<Request>)
    requires ValidBucket(c, b) && Monotone(b.last, reqs)
    ensures var g := Run(c, b, reqs);
            && AllQueue(c, g)
            && (g != [] && g[0].at <= b.last + WaitFor(c, b.tokens) ==>
                  g[0].left + g[0].n as real == b.tokens + TokensFromDuration(c.limit, g[0].at - b.last))
            && (forall k :: 0 <= k < |g| ==> b.last <= g[k].at && g[k].act == g[k].at + WaitFor(c, g[k].left))
    decreases |reqs|
  {
    hide TokensFromDuration, Reserve, WaitFor;
    if reqs != [] {
      var q := reqs[0];
      var (b', r) := Reserve(c, b, q.now, q.n, q.maxWait);
      if r.ok {
        GrantStep(c, b, q);
        if q.now <= b.last + WaitFor(c, b.tokens) {
          DebtStep(c, b, q);
        }
      } else {
        RefusalStep(c, b, q);
      }
      RunKeepsDebt(c, b', reqs[1..]);
    }
  }

  /** Grants i+1..j were each made while the one before was waiting. */
  ghost predicate AllWaiting(g: seq<Grant>, i: nat, j: nat)
    requires j < |g|
  {
    forall k :: i < k <= j ==> g[k].at <= g[k - 1].act
  }

  lemma {:induction false} DebtAdds(c: Config, g: seq<Grant>, i: nat, j: nat)
    requires i <= j < |g| && AllWaiting(g, i, j) && AllQueue(c, g)
    ensures g[j].left + Granted(g, i + 1, j + 1) as real
            == g[i].left + TokensFromDuration(c.limit, g[j].at - g[i].at)
  {
    hide TokensFromDuration;
    if i == j {
      TokensAdd(c.limit, 0, 0);
    } else {
      DebtAdds(c, g, i, j - 1);
      assert Queues(c, g[j - 1], g[j]);
      TokensAdd(c.limit, g[j - 1].at - g[i].at, g[j].at - g[j - 1].at);
    }
  }

  /** Two amounts of tokens that differ by less than a nanosecond's worth. */
  ghost predicate Close(c: Config, x: real, y: real) {
    x - y < TokensFromDuration(c.limit, 1) && y - x < TokensFromDuration(c.limit, 1)
  }

  /**
    In every run, for reservations that queue up behind one another: the time between two act times tells, to
    within a nanosecond, how many tokens were reserved after the first of them.
   */
  lemma ActsTellTokens(c: Config, b: Bucket, reqs: seq<Request>, i: nat, j: nat)
    requires ValidBucket(c, b) && Monotone(b.last, reqs)
    requires i <= j < |Run(c, b, reqs)| && AllWaiting(Run(c, b, reqs), i, j)
    requires Run(c, b, reqs)[i].left < 0.0 && Run(c, b, reqs)[j].left < 0.0
    ensures var g := Run(c, b, reqs);
            Close(c, TokensFromDuration(c.limit, g[j].act - g[i].act), Granted(g, i + 1, j + 1) as real)
  {
    hide TokensFromDuration, Run, Granted, Monotone, WaitFor, Close, AllQueue, AllWaiting;
    var g := Run(c, b, reqs);
    RunKeepsDebt(c, b, reqs);
    DebtAdds(c, g, i, j);
    GapOfWaits(c, g[i], g[j], Granted(g, i + 1, j + 1) as real);
  }

  lemma GapOfWaits(c: Config, x: Grant, y: Grant, sum: real)
    requires c.Valid() && x.left < 0.0 && y.left < 0.0
    requires x.act == x.at + WaitFor(c, x.left) && y.act == y.at + WaitFor(c, y.left)
    requires y.left + sum == x.left + TokensFromDuration(c.limit, y.at - x.at)
    ensures Close(c, TokensFromDuration(c.limit, y.act - x.act), sum)
  {
    hide TokensFromDuration, WaitFor;
    var wx, wy := WaitFor(c, x.left), WaitFor(c, y.left);
    WaitBounds(c, x.left);
    WaitBounds(c, y.left);
    TokensAdd(c.limit, wx, 1);
    TokensAdd(c.limit, wy, 1);
    TokensAdd(c.limit, y.at - x.at, wy);
    TokensAdd(c.limit, y.act - x.act, wx);
  }

  // ---------------------------------------------------------------- progress

  /** Idle for long enough to refill and any request up to the burst is allowed, although truncation may leave the bucket short of full. */
  lemma RefillAllows(c: Config, b: Bucket, now: int, n: nat)
    requires ValidBucket(c, b) && n <= c.burst
    requires now - b.last >= DurationFromTokens(c.limit, c.burst as real - b.tokens)
    requires b.last <= now
    ensures Reserve(c, b, now, n, 0) == (Bucket(Available(c, b, now) - n as real, now, now), Reservation(true, n, now))
    ensures c.burst as real - TokensFromDuration(c.limit, 1) < Available(c, b, now) <= c.burst as real
  {
    var room := c.burst as real - b.tokens;
    var d := DurationFromTokens(c.limit, room);
    AvailableBounds(c, b, now);
    DurationGalois(c.limit, room, d + 1);
    TokensAdd(c.limit, d, 1);
    AllowExactly(c, b, now, n);
    WaitBounds(c, Available(c, b, now) - n as real);
  }

  // ---------------------------------------------------------------- cancellation

  /**
    Cancelling the most recent reservation at or before its act time: at every later instant u the bucket
    holds at least what it would hold had the reservation never been made, and less than one nanosecond's
    tokens more.
   */
  lemma CancelUndoes(c: Config, b: Bucket, q: Request, at: int, u: int)
    requires ValidBucket(c, b) && b.last <= q.now <= at <= u
    requires Reserve(c, b, q.now, q.n, q.maxWait).1.ok
    requires at <= Reserve(c, b, q.now, q.n, q.maxWait).1.timeToAct
    ensures var (b', r) := Reserve(c, b, q.now, q.n, q.maxWait);
            var b'' := Cancel(c, b', r, at);
            && ValidBucket(c, b'')
            && Available(c, b, u) <= Available(c, b'', u) <= c.burst as real
            && Available(c, b'', u) < Available(c, b, u) + TokensFromDuration(c.limit, 1)
  {
    var (b', r) := Reserve(c, b, q.now, q.n, q.maxWait);
    var b'' := Cancel(c, b', r, at);
    var never := Bucket(Available(c, b, q.now), q.now, b.lastEvent);
    AvailableBounds(c, b, q.now);
    AvailableCompose(c, b, q.now, u);
    TokensMonotone(c.limit, 0, 1);
    if q.n == 0 {
      AvailableBounds(c, b'', u);
    } else {
      CancelRestores(c, never, b', r, at);
      AvailableBounds(c, never, at);
      AvailableCompose(c, never, at, u);
      CloseCounts(c, Bucket(Available(c, never, at), at, b.lastEvent), b'', u);
    }
  }

  /** Two counts at one instant that differ only where the refill has stopped just short of full stay close. */
  lemma CloseCounts(c: Config, kept: Bucket, b: Bucket, u: int)
    requires ValidBucket(c, kept) && b.last == kept.last <= u && b.tokens <= c.burst as real
    requires || b.tokens == kept.tokens
             || (&& kept.tokens < b.tokens < kept.tokens + TokensFromDuration(c.limit, 1)
                 && c.burst as real - kept.tokens < TokensFromDuration(c.limit, 1))
    ensures Available(c, kept, u) <= Available(c, b, u) <= c.burst as real
    ensures Available(c, b, u) < Available(c, kept, u) + TokensFromDuration(c.limit, 1)
  {
    hide TokensFromDuration;
    TokensMonotone(c.limit, 0, 1);
    AvailableBounds(c, b, u);
    AvailableBounds(c, kept, u);
    if b.tokens != kept.tokens {
      DurationGalois(c.limit, c.burst as real - kept.tokens, 1);
      DurationGalois(c.limit, c.burst as real - b.tokens, 1);
    }
  }

  /** The count right after the cancel: exact, unless the refill had stopped just short of full. */
  lemma CancelRestores(c: Config, never: Bucket, b: Bucket, r: Reservation, at: int)
    requires ValidBucket(c, never) && ValidBucket(c, b)
    requires r.ok && r.tokens > 0 && b.lastEvent == r.timeToAct && at <= r.timeToAct
    requires never.last == b.last <= at && b.tokens + r.tokens as real == never.tokens
    ensures var b' := Cancel(c, b, r, at);
            && b'.last == at && b'.tokens <= c.burst as real
            && (|| b'.tokens == Available(c, never, at)
                || Available(c, never, at) < b'.tokens < Available(c, never, at) + TokensFromDuration(c.limit, 1))
            && (b'.tokens != Available(c, never, at)
                ==> c.burst as real - Available(c, never, at) < TokensFromDuration(c.limit, 1))
  {
    TokensMonotone(c.limit, 0, 1);
    var e := at - b.last;
    var room := c.burst as real - never.tokens;
    var d := DurationFromTokens(c.limit, room);
    var d' := DurationFromTokens(c.limit, c.burst as real - b.tokens);
    AvailableBounds(c, never, at);
    AvailableBounds(c, b, at);
    DurationGalois(c.limit, room, d);
    DurationGalois(c.limit, room, d + 1);
    DurationGalois(c.limit, c.burst as real - b.tokens, d);
    TokensAdd(c.limit, d, 1);
    TokensMonotone(c.limit, Min(e, d), Min(e, d'));
  }

  /**
    Cancelling a reservation x that is not the latest: of its tokens only those not taken by later ones come
    back.  The bucket is as y, the latest, left it; `late` tokens were reserved after x (ActsTellTokens).
   */
  lemma CancelEarlier(c: Config, b: Bucket, x: Grant, y: Grant, late: nat, at: int)
    requires ValidBucket(c, b) && b == Bucket(y.left, y.at, y.act) && x.act < y.act && b.last <= at <= x.act
    requires Close(c, TokensFromDuration(c.limit, y.act - x.act), late as real)
    ensures var b' := Cancel(c, b, Reservation(true, x.n, x.act), at);
            var one, back := TokensFromDuration(c.limit, 1), x.n as real - late as real;
            && (back <= -one ==> b' == b)
            && (back >= one ==>
                  && x.n > 0 && b'.last == at && b'.lastEvent == b.lastEvent
                  && b'.tokens <= c.burst as real
                  && Close(c, b'.tokens, MinReal(c.burst as real, Available(c, b, at) + back)))
  {
    hide TokensFromDuration, DurationFromTokens, Available;
    TokensMonotone(c.limit, 0, 1);
    AvailableBounds(c, b, at);
  }

  /** The bucket a run leaves. */
  ghost function After(c: Config, b: Bucket, reqs: seq<Request>): Bucket
    requires c.limit > 0.0
    decreases |reqs|
  {
    if reqs == [] then b
    else After(c, Reserve(c, b, reqs[0].now, reqs[0].n, reqs[0].maxWait).0, reqs[1..])
  }

  lemma {:induction false} AfterRun(c: Config, b: Bucket, reqs: seq<Request>)
    requires ValidBucket(c, b) && Monotone(b.last, reqs)
    ensures var g := Run(c, b, reqs);
            && ValidBucket(c, After(c, b, reqs))
            && After(c, b, reqs) == if g == [] then b else Bucket(g[|g| - 1].left, g[|g| - 1].at, g[|g| - 1].act)
    decreases |reqs|
  {
    hide TokensFromDuration, WaitFor, Available;
    if reqs != [] {
      var q := reqs[0];
      var (b', r) := Reserve(c, b, q.now, q.n, q.maxWait);
      if r.ok {
        GrantStep(c, b, q);
      } else {
        RefusalStep(c, b, q);
      }
      AfterRun(c, b', reqs[1..]);
    }
  }

  /** In a run of reservations that queue up, cancelling any but the latest restores what later ones have not taken. */
  lemma CancelInRun(c: Config, b: Bucket, reqs: seq<Request>, i: nat, at: int)
    requires ValidBucket(c, b) && Monotone(b.last, reqs) && i + 1 < |Run(c, b, reqs)|
    requires AllWaiting(Run(c, b, reqs), i, |Run(c, b, reqs)| - 1)
    requires var g := Run(c, b, reqs); g[i].left < 0.0 && g[|g| - 1].left < 0.0
    requires var g := Run(c, b, reqs); g[|g| - 1].at <= at <= g[i].act < g[|g| - 1].act
    ensures var g, end := Run(c, b, reqs), After(c, b, reqs);
            var b' := Cancel(c, end, Reservation(true, g[i].n, g[i].act), at);
            var one, back := TokensFromDuration(c.limit, 1), g[i].n as real - Granted(g, i + 1, |g|) as real;
            && (back <= -one ==> b' == end)
            && (back >= one ==>
                  && b'.last == at && b'.lastEvent == end.lastEvent
                  && Close(c, b'.tokens, MinReal(c.burst as real, Available(c, end, at) + back)))
  {
    hide TokensFromDuration, Run, Granted, Monotone, After, Cancel, Available, Close, AllWaiting;
    var g := Run(c, b, reqs);
    var j := |g| - 1;
    ActsTellTokens(c, b, reqs, i, j);
    AfterRun(c, b, reqs);
    CancelEarlier(c, After(c, b, reqs), g[i], g[j], Granted(g, i + 1, j + 1), at);
  }

  function MinReal(x: real, y: real): real {
    if x <= y then x else y
  }

  lemma NegativeDuration(limit: real, tokens: real)
    requires limit > 0.0 && tokens >= 0.0
    ensures DurationFromTokens(limit, -tokens) == -DurationFromTokens(limit, tokens)
  {
    var q := tokens / limit;
    assert q * limit == tokens;
    assert q >= 0.0;
    assert -tokens / limit == -q;
    assert NANOS_PER_SECOND * -q == -(NANOS_PER_SECOND * q);
  }

  /**
    Cancelling the latest reservation y, made while x was waiting: the last event goes back to where x put it,
    to within a nanosecond, unless that is past.
   */
  lemma RollbackFinds(c: Config, b: Bucket, x: Grant, y: Grant, at: int)
    requires ValidBucket(c, b) && b == Bucket(y.left, y.at, y.act) && b.last <= at <= y.act && y.n > 0
    requires Close(c, TokensFromDuration(c.limit, y.act - x.act), y.n as real)
    ensures var b' := Cancel(c, b, Reservation(true, y.n, y.act), at);
            && (at <= x.act ==> x.act <= b'.lastEvent <= x.act + 1)
            && (at > x.act + 1 ==> b'.lastEvent == y.act)
  {
    hide Available;
    var n, d, gap := y.n as real, DurationFromTokens(c.limit, y.n as real), y.act - x.act;
    NegativeDuration(c.limit, n);
    TokensMonotone(c.limit, 0, 0);
    DurationGalois(c.limit, n, d);
    DurationGalois(c.limit, n, d + 1);
    GapIsDuration(c, n, d, gap);
    hide TokensFromDuration, DurationFromTokens;
  }

  lemma GapIsDuration(c: Config, n: real, d: int, gap: int)
    requires c.Valid() && TokensFromDuration(c.limit, d) <= n < TokensFromDuration(c.limit, d + 1)
    requires Close(c, TokensFromDuration(c.limit, gap), n)
    ensures d <= gap <= d + 1
  {
    hide TokensFromDuration;
    TokensAdd(c.limit, d + 1, 1);
    TokensAdd(c.limit, d - 1, 1);
    if gap < d {
      TokensMonotone(c.limit, gap, d - 1);
    }
    if gap > d + 1 {
      TokensMonotone(c.limit, d + 2, gap);
    }
  }
}
