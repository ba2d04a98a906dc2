/**
  Dispatch of connection jobs to sharded queues: pkg/filter/network/proxy/event.go (initEvent, Source) and
  pkg/sync/shardworkerpool.go (Shard, Offer), over one WorkQueue per shard.
 */
module ShardPool {
  import opened Bytes
  import opened WorkQueue

  // ---------------------------------------------------------------- shard choice

  /** math.Round of a non-negative number */
  function Round(x: real): int {
    (x + 0.5).Floor
  }

  /** The shards and how many of them, the last ones, serve upstream jobs. */
  datatype Layout = Layout(shards: nat, gap: nat)

  predicate Sound(l: Layout) {
    l.gap < l.shards
  }

  /**
    Whether a byte may come out of converting three tenths of the shard count, rounded, to uint8.  From 852
    shards on the number does not fit, and Go then leaves the result to the implementation.
   */
  predicate Converts(shards: nat, converted: byte) {
    var rounded := Round(shards as real * 3.0 / 10.0);
    rounded < 256 ==> converted == rounded
  }

  /** initEvent; the comparisons are on uint8. */
  function InitEvent(shards: nat, converted: byte): Layout
    requires shards > 0
  {
    var gap := if converted == 0 then 1 else converted;
    Layout(shards, if gap >= shards % 256 then (shards - 1) % 256 else gap)
  }

  datatype Source = Source(source: nat, targetShards: nat, offset: nat)

  /** event.Source */
  function SourceOf(connection: nat, upstream: bool, l: Layout): Source
    requires Sound(l)
  {
    if upstream then Source(connection, l.gap, l.shards - l.gap)
    else Source(connection, l.shards - l.gap, 0)
  }

  /** shardWorkerPool.Shard */
  function Shard(s: Source): nat {
    if s.targetShards == 0 then 0 else s.source % s.targetShards + s.offset
  }

  function ShardOf(connection: nat, upstream: bool, l: Layout): nat
    requires Sound(l)
  {
    Shard(SourceOf(connection, upstream, l))
  }

  /** Whatever the conversion yields, the upstream part is smaller than the whole, and empty for 1 modulo 256. */
  lemma InitEventSound(shards: nat, converted: byte)
    requires shards > 0 && Converts(shards, converted)
    ensures var l := InitEvent(shards, converted);
            Sound(l) && l.shards == shards && (l.gap == 0 <==> shards % 256 == 1)
  {
    hide Round;
    RoundedShare(shards);
  }

  lemma RoundedShare(shards: nat)
    requires shards > 0
    ensures 0 <= Round(shards as real * 3.0 / 10.0) < shards
  {
  }

  /** Upstream jobs get three tenths of the shards, rounded to the nearest whole number, halves up. */
  lemma UpstreamShare(shards: nat, converted: byte)
    requires 2 <= shards <= 255 && Converts(shards, converted)
    ensures var gap := InitEvent(shards, converted).gap;
            3 * shards - 5 < 10 * gap <= 3 * shards + 5 && 0 < gap < shards
  {
    InitEventSound(shards, converted);
    var rounded := Round(shards as real * 3.0 / 10.0);
    assert rounded as real <= shards as real * 3.0 / 10.0 + 0.5 < (rounded + 1) as real;
  }

  /** Every shard serves: each is the shard of some connection, in the direction whose part it belongs to. */
  lemma EveryShardServes(l: Layout, k: nat) returns (connection: nat, upstream: bool)
    requires Sound(l) && k < l.shards
    ensures ShardOf(connection, upstream, l) == k
    ensures upstream <==> k >= l.shards - l.gap
  {
    upstream := k >= l.shards - l.gap;
    connection := if upstream then k - (l.shards - l.gap) else k;
    SmallRemainder(connection, if upstream then l.gap else l.shards - l.gap);
  }

  lemma SmallRemainder(x: nat, m: nat)
    requires x < m
    ensures x % m == x
  {
  }

  lemma ShardInRange(connection: nat, upstream: bool, l: Layout)
    requires Sound(l)
    ensures ShardOf(connection, upstream, l) < l.shards
    ensures l.gap > 0 ==> (upstream <==> ShardOf(connection, upstream, l) >= l.shards - l.gap)
  {
    var s := SourceOf(connection, upstream, l);
    if s.targetShards > 0 {
      assert 0 <= s.source % s.targetShards < s.targetShards;
    }
  }

  /**
    For every shard count and every outcome of the conversion: both directions always get a shard that exists;
    they never share one if and only if the count is not 1 modulo 256, which covers every count from 2 to 255.
   */
  lemma DirectionsAreSeparate(shards: nat, converted: byte)
    requires shards > 0 && Converts(shards, converted)
    ensures var l := InitEvent(shards, converted);
            && Sound(l)
            && ((forall a: nat, b: nat :: ShardOf(a, false, l) != ShardOf(b, true, l)) <==> shards % 256 != 1)
            && forall a: nat, up: bool :: ShardOf(a, up, l) < shards
  {
    hide InitEvent;
    InitEventSound(shards, converted);
    var l := InitEvent(shards, converted);
    forall a: nat, up: bool
      ensures ShardOf(a, up, l) < shards
    {
      ShardInRange(a, up, l);
    }
    if shards % 256 == 1 {
      assert ShardOf(0, false, l) == 0 == ShardOf(0, true, l);
    } else {
      forall a: nat, b: nat
        ensures ShardOf(a, false, l) != ShardOf(b, true, l)
      {
        ShardInRange(a, false, l);
        ShardInRange(b, true, l);
      }
    }
  }

  // ---------------------------------------------------------------- the pool

  /** One queue per shard, and the log of all non-blocking offers in the order of their list pushes. */
  datatype Pool = Pool(layout: Layout, queues: seq<State>, log: seq<Job>)

  datatype PoolStep = PoolStep(shard: nat, step: Step)

  predicate WellFormed(pool: Pool) {
    Sound(pool.layout) && |pool.queues| == pool.layout.shards
  }

  function NewPool(l: Layout): Pool {
    Pool(l, seq(l.shards, _ => INITIAL), [])
  }

  /** A step of one shard's queue; Offer pushes a job only onto the shard computed for it. */
  predicate PoolEnabled(pool: Pool, s: PoolStep)
    requires WellFormed(pool)
  {
    && s.shard < |pool.queues| && Enabled(pool.queues[s.shard], s.step)
    && (s.step.Push? ==> s.shard == ShardOf(s.step.job.connection, s.step.job.upstream, pool.layout))
  }

  function PoolDo(pool: Pool, s: PoolStep): (pool': Pool)
    requires WellFormed(pool) && PoolEnabled(pool, s)
    ensures WellFormed(pool') && pool'.layout == pool.layout
  {
    pool.(queues := pool.queues[s.shard := Do(pool.queues[s.shard], s.step)],
          log := if s.step.Push? then pool.log + [s.step.job] else pool.log)
  }

  ghost predicate PoolRun(pool: Pool, steps: seq<PoolStep>, pool': Pool)
    requires WellFormed(pool)
    decreases |steps|
  {
    if steps == [] then pool == pool'
    else PoolEnabled(pool, steps[0]) && PoolRun(PoolDo(pool, steps[0]), steps[1..], pool')
  }

  /** The jobs of a sequence that satisfy a test, in order. */
  ghost function Filter(jobs: seq<Job>, test: Job -> bool): seq<Job> {
    if jobs == [] then []
    else if test(jobs[0]) then [jobs[0]] + Filter(jobs[1..], test)
    else Filter(jobs[1..], test)
  }

  lemma {:induction false} FilterSnoc(jobs: seq<Job>, job: Job, test: Job -> bool)
    ensures Filter(jobs + [job], test) == if test(job) then Filter(jobs, test) + [job] else Filter(jobs, test)
  {
    if jobs != [] {
      FilterSnoc(jobs[1..], job, test);
      assert (jobs + [job])[1..] == jobs[1..] + [job];
    }
  }

  lemma {:induction false} FilterFilter(jobs: seq<Job>, f: Job -> bool, g: Job -> bool)
    requires forall j :: g(j) ==> f(j)
    ensures Filter(Filter(jobs, f), g) == Filter(jobs, g)
  {
    if jobs != [] {
      FilterFilter(jobs[1..], f, g);
    }
  }

  lemma {:induction false} OrdinaryIsFilter(jobs: seq<Job>)
    ensures Ordinary(jobs) == Filter(jobs, (j: Job) => !j.prioritized)
  {
    if jobs != [] {
      OrdinaryIsFilter(jobs[1..]);
    }
  }

  /** The jobs that belong on a shard. */
  ghost function OnShard(k: nat, l: Layout): Job -> bool
    requires Sound(l)
  {
    (j: Job) => ShardOf(j.connection, j.upstream, l) == k
  }

  /** Each queue is in order, and was offered exactly the jobs of the log that belong on its shard. */
  ghost predicate PoolInv(pool: Pool) {
    && WellFormed(pool)
    && forall k :: 0 <= k < |pool.queues| ==>
         && Inv(pool.queues[k])
         && pool.queues[k].offered == Filter(pool.log, OnShard(k, pool.layout))
  }

  lemma NewPoolInv(l: Layout)
    requires Sound(l)
    ensures PoolInv(NewPool(l))
  {
  }

  lemma PoolStepKeepsInv(pool: Pool, s: PoolStep)
    requires PoolInv(pool) && PoolEnabled(pool, s)
    ensures PoolInv(PoolDo(pool, s))
  {
    hide Inv, Filter, ShardOf;
    var l, pool' := pool.layout, PoolDo(pool, s);
    StepKeepsInv(pool.queues[s.shard], s.step);
    forall k | 0 <= k < l.shards
      ensures Inv(pool'.queues[k]) && pool'.queues[k].offered == Filter(pool'.log, OnShard(k, l))
    {
      if s.step.Push? {
        FilterSnoc(pool.log, s.step.job, OnShard(k, l));
      }
    }
  }

  lemma {:induction false} PoolRunKeepsInv(pool: Pool, steps: seq<PoolStep>, pool': Pool)
    requires PoolInv(pool) && PoolRun(pool, steps, pool')
    ensures PoolInv(pool') && pool'.layout == pool.layout
    decreases |steps|
  {
    if steps != [] {
      PoolStepKeepsInv(pool, steps[0]);
      PoolRunKeepsInv(PoolDo(pool, steps[0]), steps[1..], pool');
    }
  }

  /** The ordinary jobs of one connection in one direction. */
  ghost function Of(connection: nat, upstream: bool): Job -> bool {
    (j: Job) => j.connection == connection && j.upstream == upstream && !j.prioritized
  }

  /**
    Per-connection order: in every run of the pool, whatever the interleaving of producers, movers, consumers
    and prioritized jobs, the ordinary jobs of a connection and direction stand on one shard, and what has
    been received from that shard followed by what is still on its way is exactly what was offered, in the
    order offered.
   */
  lemma PerConnectionOrder(l: Layout, steps: seq<PoolStep>, pool: Pool, connection: nat, upstream: bool)
    requires Sound(l) && PoolRun(NewPool(l), steps, pool)
    ensures |pool.queues| == l.shards && ShardOf(connection, upstream, l) < l.shards
    ensures var k := ShardOf(connection, upstream, l);
            Filter(Line(pool.queues[k]), Of(connection, upstream)) == Filter(pool.log, Of(connection, upstream))
    ensures forall k :: 0 <= k < l.shards && k != ShardOf(connection, upstream, l) ==>
              Filter(Line(pool.queues[k]), Of(connection, upstream)) == []
  {
    hide Line, ShardOf;
    var target, test := ShardOf(connection, upstream, l), Of(connection, upstream);
    NewPoolInv(l);
    PoolRunKeepsInv(NewPool(l), steps, pool);
    ShardInRange(connection, upstream, l);
    forall k | 0 <= k < l.shards
      ensures Filter(Line(pool.queues[k]), test) == Filter(Filter(pool.log, OnShard(k, l)), test)
    {
      var q := pool.queues[k];
      assert Inv(q);
      SameOrdinary(Line(q), q.offered, test);
    }
    FilterFilter(pool.log, OnShard(target, l), test);
    forall k | 0 <= k < l.shards && k != target
      ensures Filter(Filter(pool.log, OnShard(k, l)), test) == []
    {
      FilterDisjoint(pool.log, OnShard(k, l), test);
    }
  }

  lemma SameOrdinary(a: seq<Job>, b: seq<Job>, test: Job -> bool)
    requires Ordinary(a) == Ordinary(b) && forall j :: test(j) ==> !j.prioritized
    ensures Filter(a, test) == Filter(b, test)
  {
    OrdinaryIsFilter(a);
    OrdinaryIsFilter(b);
    FilterFilter(a, (j: Job) => !j.prioritized, test);
    FilterFilter(b, (j: Job) => !j.prioritized, test);
  }

  lemma {:induction false} FilterDisjoint(jobs: seq<Job>, f: Job -> bool, g: Job -> bool)
    requires forall j :: !(f(j) && g(j))
    ensures Filter(Filter(jobs, f), g) == []
  {
    if jobs != [] {
      FilterDisjoint(jobs[1..], f, g);
    }
  }

  /** Conservation over the pool: every shard's line holds, as a multiset, exactly the jobs offered to it. */
  lemma PoolConserves(l: Layout, steps: seq<PoolStep>, pool: Pool, k: nat)
    requires Sound(l) && PoolRun(NewPool(l), steps, pool) && k < l.shards
    ensures |pool.queues| == l.shards
    ensures multiset(Line(pool.queues[k])) == multiset(Filter(pool.log, OnShard(k, l)))
  {
    NewPoolInv(l);
    PoolRunKeepsInv(NewPool(l), steps, pool);
    assert Inv(pool.queues[k]);
  }
}
