/**
  The unbounded queue of utils/container/squeue/squeue.go on top of utils/container/slist/slist.go, before Close.

  Any number of producers push onto a locked list and then post an event; one mover goroutine waits for
  events and moves the list, in batches, to an output channel; a consumer receives from the channel.  The
  protocol is a labelled step relation: one step per access to shared state, so every interleaving is a
  sequence of steps.
 */
module WorkQueue {

  const QUEUE_SIZE: nat := 512
  const MAX_BATCH: nat := 10
  const EVENT_CAPACITY: nat := QUEUE_SIZE + MAX_BATCH

  /** A job of a connection; prioritized jobs are pushed to the front. */
  datatype Job = Job(connection: nat, upstream: bool, prioritized: bool, serial: nat)

  // ---------------------------------------------------------------- the locked list

  /** How many elements PopFronts(max) removes from a list of the given length. */
  function PopCount(length: nat, max: int): (n: nat)
    ensures n <= length
  {
    if max > 0 && max < length then max else length
  }

  /** slist.List: each method is one critical section. */
  class SList<T(0)> {
    var items: seq<T>

    constructor ()
      ensures items == []
    {
      items := [];
    }

    method PushFront(v: T)
      modifies this
      ensures items == [v] + old(items)
    {
      items := [v] + items;
    }

    method PushBack(v: T)
      modifies this
      ensures items == old(items) + [v]
    {
      items := items + [v];
    }

    method PopFronts(max: int) returns (values: seq<T>)
      modifies this
      ensures |values| == (if 0 < max < |old(items)| then max else |old(items)|) == PopCount(|old(items)|, max)
      ensures values + items == old(items)
    {
      var length := |items|;
      values := [];
      if length > 0 {
        if max > 0 && max < length {
          length := max;
        }
        for i := 0 to length
          invariant |values| == i && values + items == old(items)
        {
          values := values + [items[0]];
          items := items[1..];
        }
      }
    }
  }

  // ---------------------------------------------------------------- the protocol

  /** Where a producer stands inside push; producers not listed are outside. */
  datatype Producer =
    | Pushed    // the list push is done, the event channel not yet looked at
    | Sending   // the event channel was seen with room, the send is under way

  /** Where the mover's loop stands. */
  datatype Mover =
    | AwaitEvent
    | CheckLength
    | Pop(max: nat)
    | Deliver(batch: seq<Job>)
    | ClearCheck(i: nat)
    | ClearReceive(i: nat)

  datatype State = State(
    list: seq<Job>,
    events: nat,
    channel: seq<Job>,
    mover: Mover,
    producers: map<nat, Producer>,
    offered: seq<Job>,
    received: seq<Job>)

  const INITIAL := State([], 0, [], AwaitEvent, map[], [], [])

  datatype Step =
    | Push(p: nat, job: Job)
    | Look(p: nat)
    | Send(p: nat)
    | Move
    | Receive

  function Batch(m: Mover): seq<Job> {
    if m.Deliver? then m.batch else []
  }

  predicate Enabled(s: State, step: Step) {
    match step
    case Push(p, _) => p !in s.producers
    case Look(p) => p in s.producers && s.producers[p] == Pushed
    case Send(p) => p in s.producers && s.producers[p] == Sending && s.events < EVENT_CAPACITY
    case Receive => s.channel != []
    case Move =>
      match s.mover
      case AwaitEvent => s.events > 0
      case Deliver(batch) => batch == [] || |s.channel| < QUEUE_SIZE
      case ClearReceive(_) => s.events > 0
      case _ => true
  }

  function Do(s: State, step: Step): State
    requires Enabled(s, step)
  {
    match step
    case Push(p, job) =>
      s.(list := if job.prioritized then [job] + s.list else s.list + [job],
         producers := s.producers[p := Pushed],
         offered := s.offered + [job])
    case Look(p) =>
      s.(producers := if s.events < QUEUE_SIZE then s.producers[p := Sending] else s.producers - {p})
    case Send(p) => s.(events := s.events + 1, producers := s.producers - {p})
    case Receive => s.(received := s.received + [s.channel[0]], channel := s.channel[1..])
    case Move => DoMove(s)
  }

  function DoMove(s: State): State
    requires Enabled(s, Move)
  {
    match s.mover
    case AwaitEvent => s.(events := s.events - 1, mover := CheckLength)
    case CheckLength =>
      if s.list == [] then s.(mover := ClearCheck(0))
      else s.(mover := Pop(if |s.list| > MAX_BATCH then MAX_BATCH else |s.list|))
    case Pop(max) =>
      var n := PopCount(|s.list|, max);
      s.(list := s.list[n..], mover := Deliver(s.list[..n]))
    case Deliver(batch) =>
      if batch == [] then s.(mover := CheckLength)
      else s.(channel := s.channel + [batch[0]], mover := Deliver(batch[1..]))
    case ClearCheck(i) =>
      // i < len(events) - 1, the subtraction on signed integers
      if i + 1 < s.events then s.(mover := ClearReceive(i)) else s.(mover := AwaitEvent)
    case ClearReceive(i) => s.(events := s.events - 1, mover := ClearCheck(i + 1))
  }

  // ---------------------------------------------------------------- the steps that touch the list

  /** The first half of push, on the list itself: it is the Push step of the protocol. */
  method PushStep(list: SList<Job>, ghost s: State, p: nat, job: Job)
    requires list.items == s.list && Enabled(s, Push(p, job))
    modifies list
    ensures list.items == Do(s, Push(p, job)).list
  {
    if job.prioritized {
      list.PushFront(job);
    } else {
      list.PushBack(job);
    }
  }

  /** The mover's PopFronts on the list itself: it is the Pop step, and its result is the batch then delivered. */
  method PopStep(list: SList<Job>, ghost s: State, max: nat) returns (batch: seq<Job>)
    requires list.items == s.list && s.mover == Pop(max)
    modifies list
    ensures list.items == Do(s, Move).list && Do(s, Move).mover == Deliver(batch)
  {
    batch := list.PopFronts(max);
    assert s.list == batch + list.items;
  }

  // ---------------------------------------------------------------- the invariant

  /** All jobs in the order in which they will leave or have left the queue. */
  function Line(s: State): seq<Job> {
    Ahead(s) + s.list
  }

  /** The jobs that have left the list. */
  function Ahead(s: State): seq<Job> {
    s.received + (s.channel + Batch(s.mover))
  }

  /** The jobs that were not prioritized, in order. */
  function Ordinary(jobs: seq<Job>): seq<Job> {
    if jobs == [] then []
    else if jobs[0].prioritized then Ordinary(jobs[1..])
    else [jobs[0]] + Ordinary(jobs[1..])
  }

  /** The mover is past taking an event and will look at the list's length before it waits again. */
  predicate WillCheck(m: Mover) {
    m.CheckLength? || m.Pop? || m.Deliver?
  }

  /** No lost wakeup: jobs in the list are known to a pending event, the mover, or a producer still inside push. */
  ghost predicate Awake(s: State) {
    s.list != [] ==> s.events > 0 || WillCheck(s.mover) || s.producers != map[]
  }

  /** Nothing is lost or duplicated, and ordinary jobs keep their order. */
  ghost predicate Conserves(s: State) {
    multiset(Line(s)) == multiset(s.offered) && Ordinary(Line(s)) == Ordinary(s.offered)
  }

  /** The control state stays within its bounds and no wakeup is lost. */
  ghost predicate Controlled(s: State) {
    && s.events <= EVENT_CAPACITY && |s.channel| <= QUEUE_SIZE
    && (s.mover.Pop? ==> 0 < s.mover.max <= MAX_BATCH && s.mover.max <= |s.list|)
    && |Batch(s.mover)| <= MAX_BATCH
    && (s.mover.ClearReceive? ==> s.events >= 2)
    && Awake(s)
  }

  ghost predicate Inv(s: State) {
    Controlled(s) && Conserves(s)
  }

  /** A job at the end is the last of the ordinary ones, if it is one of them. */
  lemma {:induction false} OrdinarySnoc(jobs: seq<Job>, job: Job)
    ensures Ordinary(jobs + [job]) == if job.prioritized then Ordinary(jobs) else Ordinary(jobs) + [job]
  {
    if jobs != [] {
      OrdinarySnoc(jobs[1..], job);
      assert (jobs + [job])[1..] == jobs[1..] + [job];
    }
  }

  /** A prioritized job anywhere leaves the order of the others alone. */
  lemma {:induction false} OrdinaryInsert(front: seq<Job>, job: Job, rest: seq<Job>)
    requires job.prioritized
    ensures Ordinary(front + ([job] + rest)) == Ordinary(front + rest)
  {
    if front == [] {
      assert front + ([job] + rest) == [job] + rest && front + rest == rest;
    } else {
      OrdinaryInsert(front[1..], job, rest);
      assert (front + ([job] + rest))[1..] == front[1..] + ([job] + rest);
      assert (front + rest)[1..] == front[1..] + rest;
    }
  }

  /** Every step but a push leaves the line as it is. */
  lemma LineUnchanged(s: State, step: Step)
    requires Enabled(s, step) && !step.Push?
    ensures Line(Do(s, step)) == Line(s)
  {
    if step.Receive? {
      Shifted(s.received, s.channel, Batch(s.mover));
    } else if step.Move? {
      MoveKeepsLine(s);
    }
  }

  /** Moving the first element of one part to the end of the part before it. */
  lemma Shifted(a: seq<Job>, b: seq<Job>, c: seq<Job>)
    requires b != []
    ensures a + [b[0]] + (b[1..] + c) == a + (b + c)
  {
    assert b == [b[0]] + b[1..];
  }

  lemma MoveKeepsLine(s: State)
    requires Enabled(s, Move)
    ensures Line(DoMove(s)) == Line(s)
  {
    var s' := DoMove(s);
    if s.mover.Pop? {
      ConcatBatch(s.received, s.channel, Batch(s'.mover), s'.list);
      assert s.list == Batch(s'.mover) + s'.list;
    } else if s.mover.Deliver? && s.mover.batch != [] {
      Shifted(s.channel, s.mover.batch, []);
      assert s.mover.batch + [] == s.mover.batch && s.mover.batch[1..] + [] == s.mover.batch[1..];
    }
  }

  lemma ConcatBatch(a: seq<Job>, b: seq<Job>, c: seq<Job>, d: seq<Job>)
    ensures a + (b + c) + d == a + (b + []) + (c + d)
  {
  }

  lemma AheadUnchanged(s: State, p: nat, job: Job)
    requires Enabled(s, Push(p, job))
    ensures Ahead(Do(s, Push(p, job))) == Ahead(s)
  {
  }

  /** Where a push puts its job: a prioritized one in front of the whole list, any other one at the end. */
  lemma PushPlaces(s: State, p: nat, job: Job)
    requires Enabled(s, Push(p, job))
    ensures var s' := Do(s, Push(p, job));
            && Ahead(s') == Ahead(s)
            && Line(s') == if job.prioritized then Ahead(s) + ([job] + s.list) else Line(s) + [job]
  {
    hide Ahead;
    AheadUnchanged(s, p, job);
    ConcatJobs(Ahead(s), s.list, [job]);
  }

  lemma ConcatJobs(a: seq<Job>, b: seq<Job>, c: seq<Job>)
    ensures a + (b + c) == a + b + c
  {
  }

  /** A push adds its job to the line, and an ordinary job at the end of the ordinary ones. */
  lemma PushExtendsLine(s: State, p: nat, job: Job)
    requires Enabled(s, Push(p, job))
    ensures var s' := Do(s, Push(p, job));
            && multiset(Line(s')) == multiset(Line(s)) + multiset{job}
            && Ordinary(Line(s')) == if job.prioritized then Ordinary(Line(s)) else Ordinary(Line(s)) + [job]
  {
    hide Ordinary, Ahead;
    assert Ahead(Do(s, Push(p, job))) == Ahead(s) by { AheadUnchanged(s, p, job); }
    if job.prioritized {
      OrdinaryInsert(Ahead(s), job, s.list);
    } else {
      assert Ahead(s) + (s.list + [job]) == Line(s) + [job];
      OrdinarySnoc(Line(s), job);
    }
  }

  /** Every step keeps the invariant. */
  lemma StepKeepsInv(s: State, step: Step)
    requires Inv(s) && Enabled(s, step)
    ensures Inv(Do(s, step))
  {
    hide Controlled, Conserves, Do;
    StepKeepsControl(s, step);
    StepConserves(s, step);
  }

  lemma StepKeepsControl(s: State, step: Step)
    requires Controlled(s) && Enabled(s, step)
    ensures Controlled(Do(s, step))
  {
    if step.Push? {
      assert step.p in Do(s, step).producers;
    }
  }

  lemma StepConserves(s: State, step: Step)
    requires Conserves(s) && Enabled(s, step)
    ensures Conserves(Do(s, step))
  {
    hide Line, Ordinary, DoMove;
    OfferedBy(s, step);
    if step.Push? {
      PushExtendsLine(s, step.p, step.job);
      OrdinarySnoc(s.offered, step.job);
    } else {
      LineUnchanged(s, step);
    }
  }

  lemma OfferedBy(s: State, step: Step)
    requires Enabled(s, step)
    ensures Do(s, step).offered == if step.Push? then s.offered + [step.job] else s.offered
  {
  }

  // ---------------------------------------------------------------- whole runs

  ghost predicate Run(s: State, steps: seq<Step>, s': State)
    decreases |steps|
  {
    if steps == [] then s == s' else Enabled(s, steps[0]) && Run(Do(s, steps[0]), steps[1..], s')
  }

  /**
    In every run from the empty queue, under every interleaving: no job is lost or duplicated, ordinary
    jobs keep their offer order, and a non-empty list is never left without a wakeup.
   */
  lemma {:induction false} RunKeepsInv(s: State, steps: seq<Step>, s': State)
    requires Inv(s) && Run(s, steps, s')
    ensures Inv(s')
    decreases |steps|
  {
    if steps != [] {
      StepKeepsInv(s, steps[0]);
      RunKeepsInv(Do(s, steps[0]), steps[1..], s');
    }
  }

  lemma QueueSafety(steps: seq<Step>, s: State)
    requires Run(INITIAL, steps, s)
    ensures multiset(Line(s)) == multiset(s.offered)
    ensures Ordinary(Line(s)) == Ordinary(s.offered)
    ensures s.list != [] && s.producers == map[] ==> s.events > 0 || WillCheck(s.mover)
    ensures s.mover.ClearReceive? ==> s.events >= 2
  {
    RunKeepsInv(INITIAL, steps, s);
  }

  // ---------------------------------------------------------------- producers do not block

  /** The producers about to send an event. */
  ghost function Senders(s: State): set<nat> {
    set p | p in s.producers.Keys && s.producers[p] == Sending
  }

  /** The most producers inside push at once for which the spare capacity of the event channel suffices. */
  const FEW: nat := MAX_BATCH + 1

  ghost predicate Spare(s: State) {
    s.events + |Senders(s)| < QUEUE_SIZE + FEW
  }

  ghost predicate RunOfFew(s: State, steps: seq<Step>, s': State)
    decreases |steps|
  {
    && |s.producers.Keys| <= FEW
    && if steps == [] then s == s' else Enabled(s, steps[0]) && RunOfFew(Do(s, steps[0]), steps[1..], s')
  }

  lemma StepKeepsSpare(s: State, step: Step)
    requires Spare(s) && Enabled(s, step) && |Do(s, step).producers.Keys| <= FEW
    ensures Spare(Do(s, step))
  {
    hide Do, Senders;
    match step
    case Push(p, job) => PushSenders(s, p, job);
    case Look(p) => LookSenders(s, p);
    case Send(p) => SendSenders(s, p);
    case _ => OtherSenders(s, step);
  }

  lemma PushSenders(s: State, p: nat, job: Job)
    requires Enabled(s, Push(p, job))
    ensures var s' := Do(s, Push(p, job)); Senders(s') == Senders(s) && s'.events == s.events
  {
  }

  lemma LookSenders(s: State, p: nat)
    requires Enabled(s, Look(p))
    ensures var s' := Do(s, Look(p));
            && s'.events == s.events
            && if s.events < QUEUE_SIZE then |Senders(s')| <= |s'.producers.Keys| else Senders(s') == Senders(s)
  {
    var s' := Do(s, Look(p));
    Subset(Senders(s'), s'.producers.Keys);
  }

  lemma SendSenders(s: State, p: nat)
    requires Enabled(s, Send(p))
    ensures var s' := Do(s, Send(p)); |Senders(s')| + 1 == |Senders(s)| && s'.events == s.events + 1
  {
    assert p in Senders(s) && Senders(Do(s, Send(p))) == Senders(s) - {p};
  }

  lemma OtherSenders(s: State, step: Step)
    requires Enabled(s, step) && (step.Move? || step.Receive?)
    ensures var s' := Do(s, step); Senders(s') == Senders(s) && s'.events <= s.events
  {
    assert Do(s, step).producers == s.producers;
  }

  lemma {:induction false} Subset(a: set<nat>, b: set<nat>)
    requires a <= b
    ensures |a| <= |b|
  {
    if x :| x in a {
      Subset(a - {x}, b - {x});
    }
  }

  /** In every run with at most eleven producers inside push at once, sending an event never blocks. */
  lemma {:induction false} SendsDoNotBlock(s: State, steps: seq<Step>, s': State, p: nat)
    requires Spare(s) && RunOfFew(s, steps, s') && p in s'.producers && s'.producers[p] == Sending
    ensures Enabled(s', Send(p))
    decreases |steps|
  {
    hide Do;
    if steps == [] {
      assert p in Senders(s');
      Subset({p}, Senders(s'));
    } else {
      StepKeepsSpare(s, steps[0]);
      SendsDoNotBlock(Do(s, steps[0]), steps[1..], s', p);
    }
  }

  lemma InitiallySpare()
    ensures Spare(INITIAL)
  {
    assert Senders(INITIAL) == {};
  }

  // ---------------------------------------------------------------- clearing events

  ghost predicate AllMoves(steps: seq<Step>) {
    forall i :: 0 <= i < |steps| ==> steps[i] == Move
  }

  /**
    The mover left to itself clears half of the pending events, rounded down, before it waits again: its count
    goes up while the number it is compared with goes down.
   */
  lemma {:induction false} ClearHalves(s: State, i: nat, n: nat) returns (steps: seq<Step>, s': State)
    requires s.mover == ClearCheck(i) && n == s.events + i && 2 * i <= n
    ensures AllMoves(steps) && Run(s, steps, s') && s' == s.(mover := AwaitEvent, events := n - n / 2)
    decreases s.events
  {
    var next := Do(s, Move);
    if i + 1 < s.events {
      var after := Do(next, Move);
      var more;
      more, s' := ClearHalves(after, i + 1, n);
      steps := [Move] + ([Move] + more);
      assert steps[1..] == [Move] + more && steps[1..][1..] == more;
      assert Run(next, steps[1..], s');
    } else {
      steps, s' := [Move], next;
      assert steps[1..] == [];
    }
  }

  // ---------------------------------------------------------------- overtaking

  /** The jobs of `line` stand in `later` at the places `at`, in the same order. */
  ghost predicate Keeps(line: seq<Job>, later: seq<Job>, at: seq<nat>) {
    && |at| == |line|
    && (forall i :: 0 <= i < |at| ==> at[i] < |later| && later[at[i]] == line[i])
    && (forall i, j :: 0 <= i < j < |at| ==> at[i] < at[j])
  }

  /** One step: nobody in the line is overtaken except by a prioritized job, which stays behind all who left the list. */
  lemma StepKeepsOrder(s: State, step: Step) returns (at: seq<nat>)
    requires Enabled(s, step)
    ensures Keeps(Line(s), Line(Do(s, step)), at)
    ensures forall i :: 0 <= i < |Ahead(s)| ==> at[i] == i
    ensures Ahead(s) <= Ahead(Do(s, step))
  {
    hide Do;
    var n, k := |Line(s)|, |Ahead(s)|;
    AheadGrows(s, step);
    if step.Push? {
      PushPlaces(s, step.p, step.job);
      hide Line, Ahead;
      LineParts(s);
      if step.job.prioritized {
        at := seq(n, i requires 0 <= i < n => if i < k then i else i + 1);
      } else {
        at := seq(n, i requires 0 <= i < n => i);
      }
    } else {
      LineUnchanged(s, step);
      at := seq(n, i requires 0 <= i < n => i);
    }
  }

  lemma LineParts(s: State)
    ensures Line(s) == Ahead(s) + s.list
  {
  }

  lemma AheadGrows(s: State, step: Step)
    requires Enabled(s, step)
    ensures Ahead(s) <= Ahead(Do(s, step))
  {
    var s' := Do(s, step);
    if step.Receive? {
      Shifted(s.received, s.channel, Batch(s.mover));
    } else if step.Move? && s.mover.Deliver? && s.mover.batch != [] {
      Shifted(s.channel, s.mover.batch, []);
      assert s.mover.batch + [] == s.mover.batch && s.mover.batch[1..] + [] == s.mover.batch[1..];
    } else if step.Move? && s.mover.Pop? {
      assert Ahead(s) == s.received + s.channel;
      ConcatJobs(s.received, s.channel, Batch(s'.mover));
    }
  }

  /**
    Order for ever: in every run, whoever stands in the line keeps that order, and whoever has left the list
    keeps their place.
   */
  lemma {:induction false} RunKeepsOrder(s: State, steps: seq<Step>, s': State) returns (at: seq<nat>)
    requires Run(s, steps, s')
    ensures Keeps(Line(s), Line(s'), at)
    ensures Ahead(s) <= Ahead(s') && forall i :: 0 <= i < |Ahead(s)| ==> at[i] == i
    decreases |steps|
  {
    hide Line, Ahead, Do;
    LineParts(s);
    if steps == [] {
      var n := |Line(s)|;
      at := seq(n, i requires 0 <= i < n => i);
    } else {
      var mid := Do(s, steps[0]);
      LineParts(mid);
      var first := StepKeepsOrder(s, steps[0]);
      var more := RunKeepsOrder(mid, steps[1..], s');
      at := KeepsTwice(Line(s), Line(mid), Line(s'), first, more, |Ahead(s)|);
    }
  }

  lemma KeepsTwice(a: seq<Job>, b: seq<Job>, c: seq<Job>, first: seq<nat>, more: seq<nat>, k: nat) returns (at: seq<nat>)
    requires Keeps(a, b, first) && Keeps(b, c, more) && k <= |a| && k <= |b|
    requires (forall i :: 0 <= i < k ==> first[i] == i) && forall i :: 0 <= i < k ==> more[i] == i
    ensures Keeps(a, c, at) && forall i :: 0 <= i < k ==> at[i] == i
  {
    at := seq(|a|, i requires 0 <= i < |a| => more[first[i]]);
  }

  /**
    A prioritized job overtakes exactly those on the list when it is pushed: from then on, in every run, it
    stands at some place k of the line, behind everybody who had left the list, and before every job that was
    on it, which follow at the places `behind` in their old order.
   */
  lemma PrioritizedOvertakes(s: State, p: nat, job: Job, steps: seq<Step>, s': State)
    returns (k: nat, behind: seq<nat>)
    requires Enabled(s, Push(p, job)) && job.prioritized && Run(Do(s, Push(p, job)), steps, s')
    ensures |Ahead(s)| <= k < |Line(s')| && Line(s')[k] == job
    ensures Ahead(s) <= Line(s')
    ensures Keeps(s.list, Line(s'), behind) && forall i :: 0 <= i < |behind| ==> k < behind[i]
  {
    hide Do, Line, Ahead, Run, Keeps;
    var mid := Do(s, Push(p, job));
    PushPlaces(s, p, job);
    LineParts(s');
    var at := RunKeepsOrder(mid, steps, s');
    k, behind := PlacesOf(Ahead(s), job, s.list, Line(s'), at);
  }

  lemma PlacesOf(ahead: seq<Job>, job: Job, list: seq<Job>, later: seq<Job>, at: seq<nat>)
    returns (k: nat, behind: seq<nat>)
    requires Keeps(ahead + ([job] + list), later, at)
    ensures |ahead| <= k < |later| && later[k] == job
    ensures Keeps(list, later, behind) && forall i :: 0 <= i < |behind| ==> k < behind[i]
  {
    var line, a := ahead + ([job] + list), |ahead|;
    assert line[a] == job && line[a + 1..] == list;
    PlacesGrow(line, later, at, a);
    k, behind := at[a], at[a + 1..];
    assert forall i :: 0 <= i < |list| ==> behind[i] == at[a + 1 + i] && list[i] == line[a + 1 + i];
  }

  lemma {:induction false} PlacesGrow(line: seq<Job>, later: seq<Job>, at: seq<nat>, i: nat)
    requires Keeps(line, later, at) && i < |at|
    ensures at[i] >= i
  {
    if i > 0 {
      PlacesGrow(line, later, at, i - 1);
    }
  }

  // ---------------------------------------------------------------- progress

  /** Work left for the mover and the consumer. */
  ghost function Work(s: State): nat {
    10 * (3 * |s.list| + 2 * |Batch(s.mover)| + |s.channel|) + 5 * s.events
    + match s.mover
      case AwaitEvent => 0
      case ClearReceive(_) => 1
      case ClearCheck(_) => 2
      case Pop(_) => 2
      case CheckLength => 3
      case Deliver(_) => 4
  }

  lemma WorkDecreases(s: State, step: Step)
    requires Inv(s) && Enabled(s, step) && (step.Move? || step.Receive?)
    ensures Work(Do(s, step)) < Work(s)
  {
    hide Conserves;
  }

  lemma NotStuck(s: State)
    requires Inv(s) && s.producers == map[] && s.received != Line(s)
    ensures Enabled(s, Move) || Enabled(s, Receive)
  {
    if s.mover.AwaitEvent? && s.events == 0 {
      assert s.list == [];
      assert Line(s) == s.received + s.channel;
    }
  }

  /**
    Nothing stays behind: once no producer is inside push, any run of mover and consumer steps is at most
    Work(s) long, and one that cannot be extended has delivered every job ever offered.
   */
  lemma {:induction false} QuietRunDelivers(s: State, steps: seq<Step>, s': State)
    requires Inv(s) && s.producers == map[] && Run(s, steps, s')
    requires forall i :: 0 <= i < |steps| ==> steps[i].Move? || steps[i].Receive?
    ensures |steps| + Work(s') <= Work(s)
    ensures s'.offered == s.offered && Inv(s') && s'.producers == map[] && Line(s') == Line(s)
    ensures !Enabled(s', Move) && !Enabled(s', Receive) ==>
              && s'.received == Line(s)
              && multiset(s'.received) == multiset(s.offered) && Ordinary(s'.received) == Ordinary(s.offered)
    decreases |steps|
  {
    hide Line, Ordinary, Work;
    if steps == [] {
      if s.received != Line(s) {
        NotStuck(s);
      }
    } else {
      StepKeepsInv(s, steps[0]);
      LineUnchanged(s, steps[0]);
      WorkDecreases(s, steps[0]);
      QuietRunDelivers(Do(s, steps[0]), steps[1..], s');
    }
  }
}
