/** The announcement queue: a map of pending targets, a one-slot wake channel, and the goroutine that
    drains the map. Every atomic section of the source is one event; any interleaving is a run. */
module Announcer {
  import opened Common

  type Key = string
  type Thread = nat

  /** Where the draining goroutine is: blocked in the outer select, about to pop, waiting out a delay
      between two sends, or gone. */
  datatype Runner = Waiting | Draining | Resting | Stopped

  /** `owing` are the enqueuers that have left the locked section of an insert and not yet signalled. */
  datatype State = State(pending: map<Key, nat>, wake: bool, runner: Runner, owing: set<Thread>)

  datatype Event =
    | Enqueue(thread: Thread, key: Key, delay: nat)  // the locked half of enqueue
    | Signal(thread: Thread)                         // its select on the wake channel
    | Wake                                           // the runner receives the token
    | Pop(key: Key)                                  // the runner takes some pending target
    | Empty                                          // the runner finds nothing pending
    | Rested                                         // the delay is over
    | Stop                                           // a select sees the stop channel closed

  const INITIAL: State := State(map[], false, Waiting, {})

  predicate Enabled(s: State, e: Event) {
    match e
    case Enqueue(t, _, _) => t !in s.owing
    case Signal(t) => t in s.owing
    case Wake => s.runner.Waiting? && s.wake
    case Pop(k) => s.runner.Draining? && k in s.pending
    case Empty => s.runner.Draining? && s.pending == map[]
    case Rested => s.runner.Resting?
    case Stop => s.runner.Waiting? || s.runner.Resting?
  }

  /** A target already queued with a delay at most as long is left alone, and nobody is woken. */
  predicate Absorbed(s: State, k: Key, delay: nat) {
    k in s.pending && s.pending[k] <= delay
  }

  function Apply(s: State, e: Event): State {
    match e
    case Enqueue(t, k, d) =>
      if Absorbed(s, k, d) then s else s.(pending := s.pending[k := d], owing := s.owing + {t})
    case Signal(t) => s.(wake := true, owing := s.owing - {t})
    case Wake => s.(wake := false, runner := Draining)
    case Pop(k) => s.(pending := s.pending - {k}, runner := Resting)
    case Empty => s.(runner := Waiting)
    case Rested => s.(runner := Draining)
    case Stop => s.(runner := Stopped)
  }

  /** The state after a run, None if some event was not possible when it came. */
  function Run(events: seq<Event>): Option<State> {
    if events == [] then Some(INITIAL)
    else
      var before := Run(events[..|events| - 1]);
      var e := events[|events| - 1];
      if before.Some? && Enabled(before.value, e) then Some(Apply(before.value, e)) else None
  }

  // ---- no wake-up is lost

  ghost predicate NoLostWake(s: State) {
    s.pending != map[] ==> s.wake || !s.runner.Waiting? || s.owing != {}
  }

  lemma {:induction false} WakeKept(events: seq<Event>)
    requires Run(events).Some?
    ensures NoLostWake(Run(events).value)
  {
    if events != [] { WakeKept(events[..|events| - 1]); }
  }

  /** When every enqueuer has returned and the runner is blocked with no token, nothing is pending. */
  lemma QuiescentIsEmpty(events: seq<Event>)
    requires Run(events).Some?
    ensures var s := Run(events).value;
      s.runner.Waiting? && !s.wake && s.owing == {} ==> s.pending == map[]
  {
  }

  // ---- each target once, with the smallest delay asked for

  /** The delays asked for a target since it was last taken off the queue. */
  function Asked(events: seq<Event>, k: Key): seq<nat> {
    if events == [] then []
    else
      var rest := Asked(events[..|events| - 1], k);
      match events[|events| - 1]
      case Enqueue(_, k', d) => if k' == k then rest + [d] else rest
      case Pop(k') => if k' == k then [] else rest
      case _ => rest
  }

  ghost predicate IsMin(m: nat, s: seq<nat>) {
    m in s && forall i :: 0 <= i < |s| ==> m <= s[i]
  }

  lemma MinAppend(m: nat, s: seq<nat>, d: nat)
    requires IsMin(m, s)
    ensures IsMin(if m <= d then m else d, s + [d])
  {
  }

  /** In every run: a target is pending exactly when it was asked for since its last pop, and its delay
      is the smallest of those asked for. (Being a map, the queue holds it once.) */
  lemma {:induction false} PendingIsMinimum(events: seq<Event>, k: Key)
    requires Run(events).Some?
    ensures var s := Run(events).value;
      && (k in s.pending <==> Asked(events, k) != [])
      && (k in s.pending ==> IsMin(s.pending[k], Asked(events, k)))
  {
    if events != [] {
      var before := events[..|events| - 1];
      var e := events[|events| - 1];
      PendingIsMinimum(before, k);
      var s, asked := Run(before).value, Asked(before, k);
      if e.Enqueue? && e.key == k {
        if k in s.pending {
          MinAppend(s.pending[k], asked, e.delay);
        } else {
          assert asked + [e.delay] == [e.delay];
        }
      }
    }
  }

  // ---- progress

  function RunnerRank(r: Runner): nat {
    match r case Waiting => 0 case Draining => 1 case Resting => 2 case Stopped => 0
  }

  function Rank(s: State): nat {
    3 * |s.owing| + 2 * |s.pending| + (if s.wake then 2 else 0) + RunnerRank(s.runner)
  }

  /** Every step that is neither a new request nor the shutdown brings the queue nearer to empty. */
  lemma StepsDescend(s: State, e: Event)
    requires Enabled(s, e) && !e.Enqueue? && !e.Stop?
    ensures Rank(Apply(s, e)) < Rank(s)
  {
  }

  /** In every run, while the runner lives and something is pending, some such step is possible. So once
      requests cease, any continuation empties the queue within Rank steps. */
  lemma NeverStuck(events: seq<Event>) returns (e: Event)
    requires Run(events).Some?
    requires var s := Run(events).value; s.pending != map[] && !s.runner.Stopped?
    ensures Enabled(Run(events).value, e) && !e.Enqueue? && !e.Stop?
  {
    WakeKept(events);
    var s := Run(events).value;
    match s.runner
    case Draining =>
      var k :| k in s.pending;
      e := Pop(k);
    case Resting => e := Rested;
    case Waiting =>
      if s.wake {
        e := Wake;
      } else {
        var t :| t in s.owing;
        e := Signal(t);
      }
  }

  lemma Extend(events: seq<Event>, e: Event)
    requires Run(events).Some? && Enabled(Run(events).value, e)
    ensures Run(events + [e]) == Some(Apply(Run(events).value, e))
  {
  }

  lemma Emptied(s: State, e: Event)
    requires Enabled(s, e) && !s.runner.Stopped? && !e.Stop?
    ensures !Apply(s, e).runner.Stopped?
  {
  }

  /** Neither new requests nor the shutdown. */
  predicate OnlyProgress(more: seq<Event>) { forall i :: 0 <= i < |more| ==> !more[i].Enqueue? && !more[i].Stop? }

  /** One step nearer to empty. */
  lemma Ahead(events: seq<Event>) returns (e: Event)
    requires Run(events).Some?
    requires var s := Run(events).value; s.pending != map[] && !s.runner.Stopped?
    ensures !e.Enqueue? && !e.Stop? && Run(events + [e]).Some? && !Run(events + [e]).value.runner.Stopped?
    ensures Rank(Run(events + [e]).value) < Rank(Run(events).value)
  {
    var s := Run(events).value;
    e := NeverStuck(events);
    StepsDescend(s, e);
    Emptied(s, e);
    Extend(events, e);
  }

  lemma OneMore(events: seq<Event>, e: Event, rest: seq<Event>)
    requires OnlyProgress(rest) && !e.Enqueue? && !e.Stop?
    ensures OnlyProgress([e] + rest) && events + ([e] + rest) == (events + [e]) + rest && |[e] + rest| == |rest| + 1
  {
  }

  /** Put together: the queue can be driven empty from any reachable state, in at most Rank steps. */
  lemma {:induction false} Drains(events: seq<Event>) returns (more: seq<Event>)
    requires Run(events).Some? && !Run(events).value.runner.Stopped?
    ensures Run(events + more).Some? && Run(events + more).value.pending == map[]
    ensures |more| <= Rank(Run(events).value) && OnlyProgress(more)
    decreases Rank(Run(events).value)
  {
    if Run(events).value.pending == map[] {
      more := [];
      assert events + more == events;
    } else {
      var e := Ahead(events);
      var rest := Drains(events + [e]);
      more := [e] + rest;
      OneMore(events, e, rest);
    }
  }

  // ---- the object

  class Queue {
    var pending: map<Key, nat>
    var wake: bool
    var runner: Runner
    var owing: set<Thread>
    ghost var events: seq<Event>

    ghost predicate Valid()
      reads this
    {
      Run(events) == Some(State(pending, wake, runner, owing))
    }

    constructor ()
      ensures Valid() && events == []
    {
      pending, wake, runner, owing, events := map[], false, Waiting, {}, [];
    }

    /** Records an event that was possible and whose effect is the new state. */
    ghost method Record(e: Event, before: State)
      requires Run(events) == Some(before) && Enabled(before, e)
      requires State(pending, wake, runner, owing) == Apply(before, e)
      modifies this`events
      ensures Valid() && events == old(events) + [e]
    {
      assert (events + [e])[..|events|] == events;
      events := events + [e];
    }

    /** The locked section of enqueue; `insisted` tells whether the wake channel is to be signalled. */
    method Insert(thread: Thread, key: Key, delay: nat) returns (insisted: bool)
      requires Valid() && thread !in owing
      modifies this
      ensures Valid() && events == old(events) + [Enqueue(thread, key, delay)]
      ensures insisted <==> thread in owing
    {
      ghost var before := State(pending, wake, runner, owing);
      insisted := true;
      if key in pending && pending[key] <= delay {
        insisted := false;
      } else {
        pending := pending[key := delay];
        owing := owing + {thread};
      }
      Record(Enqueue(thread, key, delay), before);
    }

    /** The non-blocking send on the one-slot channel. */
    method SignalWake(thread: Thread)
      requires Valid() && thread in owing
      modifies this
      ensures Valid() && events == old(events) + [Signal(thread)]
    {
      ghost var before := State(pending, wake, runner, owing);
      if !wake { wake := true; }
      owing := owing - {thread};
      Record(Signal(thread), before);
    }

    /** Takes some queued target, or reports that there is none. */
    method PopAny() returns (q: Option<(Key, nat)>)
      requires Valid() && runner.Draining?
      modifies this
      ensures Valid() && pending.Keys <= old(pending.Keys)
      ensures q.Some? ==> q.value.0 in old(pending) && q.value.1 == old(pending)[q.value.0]
      ensures q.Some? ==> events == old(events) + [Pop(q.value.0)] && runner.Resting?
      ensures q.None? ==> events == old(events) + [Empty] && runner.Waiting? && old(pending) == map[]
    {
      ghost var before := State(pending, wake, runner, owing);
      if pending == map[] {
        runner := Waiting;
        Record(Empty, before);
        return None;
      }
      var key :| key in pending;
      q := Some((key, pending[key]));
      pending, runner := pending - {key}, Resting;
      Record(Pop(key), before);
    }

    /** Receiving the token, and the end of the delay after a send. */
    method ReceiveWake()
      requires Valid() && runner.Waiting? && wake
      modifies this
      ensures Valid() && events == old(events) + [Wake] && runner.Draining? && !wake
    {
      ghost var before := State(pending, wake, runner, owing);
      wake, runner := false, Draining;
      Record(Wake, before);
    }

    method DelayOver()
      requires Valid() && runner.Resting?
      modifies this
      ensures Valid() && events == old(events) + [Rested] && runner.Draining?
    {
      ghost var before := State(pending, wake, runner, owing);
      runner := Draining;
      Record(Rested, before);
    }
  }
}

/** Deciding which blocks a pass announces, and how far apart. */
module Announce {
  import opened Common

  /** A rule by its text, with the address announceTarget gives for it. */
  datatype Rule = Rule(key: string, target: string)

  function Keys(rules: seq<Rule>): set<string> { set i | 0 <= i < |rules| :: rules[i].key }

  /** The rules a pass queues: every one on a refresh, otherwise each that was not seen before. */
  function Queued(rules: seq<Rule>, seen: set<string>, refresh: bool): seq<Rule> {
    if rules == [] then []
    else
      var front := Queued(rules[..|rules| - 1], seen, refresh);
      var r := rules[|rules| - 1];
      if !refresh && (r.key in seen || r.key in Keys(rules[..|rules| - 1])) then front else front + [r]
  }

  const STAGGER_MAX: nat := 200_000_000 // nanoseconds
  const STAGGER_MIN: nat := 1_000_000

  function StaggerFor(interval: int, n: nat): nat {
    var d := if interval > 0 && n > 1 then Min(interval / 2 / n, STAGGER_MAX) else STAGGER_MAX;
    Max(d, STAGGER_MIN)
  }

  lemma DivBound(a: nat, n: nat)
    requires n > 0
    ensures a / n * n <= a < (a / n + 1) * n
  {
  }

  lemma ProductMonotone(a: nat, b: nat, n: nat)
    requires a <= b
    ensures a * n <= b * n
  {
  }

  /** With an interval set, a pass of n blocks takes at most half of it exactly when it has room for one
      millisecond a block; a single block is not scaled and takes the full 200 ms. */
  lemma PassFitsExactly(interval: nat, n: nat)
    requires interval > 0 && n > 0
    ensures n * StaggerFor(interval, n) <= interval / 2 <==>
      if n == 1 then STAGGER_MAX <= interval / 2 else n * STAGGER_MIN <= interval / 2
  {
    if n > 1 {
      var half := interval / 2;
      var d := half / n;
      DivBound(half, n);
      if n * STAGGER_MIN <= half {
        if d < STAGGER_MIN {
          ProductMonotone(d + 1, STAGGER_MIN, n);
          assert false;
        }
        ProductMonotone(Min(d, STAGGER_MAX), d, n);
      } else {
        if StaggerFor(interval, n) * n <= half {
          ProductMonotone(STAGGER_MIN, StaggerFor(interval, n), n);
          assert false;
        }
      }
    }
  }

  /** The delay is the longest up to 200 ms with which n blocks still fit into half the interval, but at least 1 ms;
      without an interval, and for a single block, it is 200 ms. */
  lemma StaggerExactly(interval: int, n: nat, d: nat)
    ensures var delay := StaggerFor(interval, n);
      && 1_000_000 <= delay <= 200_000_000
      && (interval <= 0 || n <= 1 ==> delay == 200_000_000)
      && (interval > 0 && n > 1 ==>
        && (delay > 1_000_000 ==> n * delay <= interval / 2)
        && (n * d <= interval / 2 && d <= 200_000_000 ==> d <= delay))
  {
    if interval > 0 && n > 1 {
      var half, delay := interval / 2, StaggerFor(interval, n);
      DivBound(half, n);
      if delay > STAGGER_MIN { ProductMonotone(delay, half / n, n); }
      if d > half / n { ProductMonotone(half / n + 1, d, n); }
    }
  }

  const MINUTE: nat := 60_000_000_000

  /** The interval of a setting in whole minutes, as a signed 64-bit number of nanoseconds. */
  function Interval(minutes: nat): int {
    (minutes * MINUTE + 0x8000_0000_0000_0000) % 0x1_0000_0000_0000_0000 - 0x8000_0000_0000_0000
  }

  /** It is what the setting says exactly up to 292 years. */
  lemma IntervalExact(minutes: nat)
    ensures Interval(minutes) == minutes * 60_000_000_000 <==> minutes <= 153_722_867
    ensures -0x8000_0000_0000_0000 <= Interval(minutes) < 0x8000_0000_0000_0000
    ensures exists k :: minutes * 60_000_000_000 == Interval(minutes) + k * 0x1_0000_0000_0000_0000
  {
    if minutes <= 153_722_867 { assert minutes * MINUTE < 0x8000_0000_0000_0000; }
    var k := (minutes * MINUTE + 0x8000_0000_0000_0000) / 0x1_0000_0000_0000_0000;
    assert minutes * 60_000_000_000 == Interval(minutes) + k * 0x1_0000_0000_0000_0000;
  }

  /** What the program's intervals leave room for: with a refresh every so many minutes, a pass of n blocks takes
      at most half the interval if and only if there are at most 30000 blocks a minute. */
  lemma PassFitsInMinutes(minutes: nat, n: nat)
    requires minutes >= 1 && n > 0
    ensures n * StaggerFor(minutes * MINUTE, n) <= minutes * MINUTE / 2 <==> n <= 30_000 * minutes
  {
    PassFitsExactly(minutes * MINUTE, n);
  }

  /** The zero time is longer ago than any interval, so the first pass is a refresh whenever one is set. */
  predicate Refresh(interval: int, at: Option<int>, now: int) {
    interval > 0 && (at.None? || now - at.value >= interval)
  }

  class AnnounceState {
    var last: map<string, int>
    var at: Option<int>  // the last refresh; None, the zero time, before the first
    const interval: int

    constructor (interval: int)
      ensures last == map[] && at.None? && this.interval == interval
    {
      this.interval := interval;
      last, at := map[], None;
    }

    method Sync(rules: seq<Rule>, now: int) returns (queued: seq<Rule>, delay: nat)
      modifies this
      ensures delay == StaggerFor(interval, |rules|)
      ensures var refresh := Refresh(interval, old(at), now);
        && queued == Queued(rules, old(last).Keys, refresh)
        && at == (if refresh then Some(now) else old(at))
        && last.Keys == Keys(rules)
        && forall k :: k in last ==>
             last[k] == if refresh || k !in old(last) then now else old(last)[k]
    {
      var present := {};
      var refresh := Refresh(interval, at, now);
      delay := StaggerFor(interval, |rules|);
      queued := [];
      for i := 0 to |rules|
        invariant present == Keys(rules[..i]) && at == old(at)
        invariant queued == Queued(rules[..i], old(last).Keys, refresh)
        invariant last.Keys == old(last).Keys + present
        invariant forall k :: k in last ==>
          last[k] == if (refresh && k in present) || k !in old(last) then now else old(last)[k]
      {
        ghost var front := rules[..i];
        assert rules[..i + 1] == front + [rules[i]];
        KeysAppend(front, rules[i]);
        assert (front + [rules[i]])[..i] == front;
        var key := rules[i].key;
        present := present + {key};
        if key in last && !refresh { continue; }
        queued := queued + [rules[i]];
        last := last[key := now];
      }
      assert rules[..|rules|] == rules;
      if refresh { at := Some(now); }
      last := map k | k in last && k in present :: last[k];
    }
  }

  lemma KeysAppend(rules: seq<Rule>, r: Rule)
    ensures Keys(rules + [r]) == Keys(rules) + {r.key}
  {
    var to := rules + [r];
    assert to[|rules|] == r;
    forall k | k in Keys(rules) ensures k in Keys(to) {
      var i :| 0 <= i < |rules| && rules[i].key == k;
      assert to[i].key == k;
    }
  }

  // ---- runs of passes

  datatype Pass = Pass(rules: seq<Rule>, now: int)

  /** The blocks the last pass saw. */
  function Seen(passes: seq<Pass>): set<string> { if passes == [] then {} else Keys(passes[|passes| - 1].rules) }

  function LastRefresh(interval: int, passes: seq<Pass>): Option<int> {
    if passes == [] then None
    else
      var k := |passes| - 1;
      var before := LastRefresh(interval, passes[..k]);
      if Refresh(interval, before, passes[k].now) then Some(passes[k].now) else before
  }

  /** What pass i of a run queues. */
  function QueuedIn(interval: int, passes: seq<Pass>, i: nat): seq<Rule>
    requires i < |passes|
  {
    Queued(passes[i].rules, Seen(passes[..i]), Refresh(interval, LastRefresh(interval, passes[..i]), passes[i].now))
  }

  predicate Queues(interval: int, passes: seq<Pass>, i: nat, k: string)
    requires i < |passes|
  {
    k in Keys(QueuedIn(interval, passes, i))
  }

  /** The clock of a run never goes back. */
  ghost predicate Timed(passes: seq<Pass>) { forall i, j :: 0 <= i < j < |passes| ==> passes[i].now <= passes[j].now }

  function Times(queued: seq<Rule>, k: string): nat {
    if queued == [] then 0 else Times(queued[..|queued| - 1], k) + if queued[|queued| - 1].key == k then 1 else 0
  }

  /** How often a block is queued over a run without an interval. */
  function Announced(passes: seq<Pass>, k: string): nat {
    if passes == [] then 0 else Announced(passes[..|passes| - 1], k) + Times(QueuedIn(0, passes, |passes| - 1), k)
  }

  /** How often the block goes from absent to present: the number of its maximal stretches of presence. */
  function Appearances(passes: seq<Pass>, k: string): nat {
    if passes == [] then 0
    else
      var before, last := passes[..|passes| - 1], passes[|passes| - 1];
      Appearances(before, k) + if k in Keys(last.rules) && k !in Seen(before) then 1 else 0
  }

  lemma {:induction false} QueuedOnce(rules: seq<Rule>, seen: set<string>, k: string)
    ensures Times(Queued(rules, seen, false), k) == if k in Keys(rules) && k !in seen then 1 else 0
  {
    if rules != [] {
      var front, r := rules[..|rules| - 1], rules[|rules| - 1];
      QueuedOnce(front, seen, k);
      assert rules == front + [r];
      KeysAppend(front, r);
      var q := Queued(front, seen, false);
      assert (q + [r])[..|q|] == q;
    }
  }

  /** Without an interval a block is queued exactly once for each stretch in which it is continuously present. */
  lemma {:induction false} OncePerStretch(passes: seq<Pass>, k: string)
    ensures Announced(passes, k) == Appearances(passes, k)
  {
    if passes != [] {
      OncePerStretch(passes[..|passes| - 1], k);
      QueuedOnce(passes[|passes| - 1].rules, Seen(passes[..|passes| - 1]), k);
    }
  }

  /** A refresh queues every rule, in order. */
  lemma {:induction false} RefreshQueuesAll(rules: seq<Rule>, seen: set<string>)
    ensures Queued(rules, seen, true) == rules
  {
    if rules != [] {
      RefreshQueuesAll(rules[..|rules| - 1], seen);
      assert rules == rules[..|rules| - 1] + [rules[|rules| - 1]];
    }
  }

  /** Without a refresh only what was not seen before is queued. */
  lemma {:induction false} QueuedIsNew(rules: seq<Rule>, seen: set<string>, k: string)
    ensures k in Keys(Queued(rules, seen, false)) ==> k !in seen
  {
    if rules != [] {
      var front, r := rules[..|rules| - 1], rules[|rules| - 1];
      QueuedIsNew(front, seen, k);
      KeysAppend(Queued(front, seen, false), r);
    }
  }

  /** The last refresh of a run is a time of one of its passes, and no later refresh moves it back. */
  lemma {:induction false} RefreshTimes(interval: int, passes: seq<Pass>, i: nat)
    requires Timed(passes) && i < |passes|
    ensures var at := LastRefresh(interval, passes); at.Some? ==> at.value <= passes[|passes| - 1].now
    ensures var due := Refresh(interval, LastRefresh(interval, passes[..i]), passes[i].now);
      due ==> LastRefresh(interval, passes).Some? && passes[i].now <= LastRefresh(interval, passes).value
    decreases |passes|
  {
    var k := |passes| - 1;
    var front := passes[..k];
    if k > 0 {
      assert passes[k - 1].now <= passes[k].now;
      if i < k { assert front[..i] == passes[..i] && passes[i].now <= passes[k].now; }
      RefreshTimes(interval, front, if i < k then i else 0);
    }
  }

  /** With an interval set, between two passes that far apart every block is queued at least once more. */
  lemma AnnouncedAgain(interval: int, passes: seq<Pass>, i: nat, j: nat) returns (m: nat)
    requires Timed(passes) && interval > 0 && i < j < |passes| && passes[j].now - passes[i].now >= interval
    ensures i < m <= j && QueuedIn(interval, passes, m) == passes[m].rules
  {
    RefreshQueuesAll(passes[j].rules, Seen(passes[..j]));
    m := j;
    if !Refresh(interval, LastRefresh(interval, passes[..j]), passes[j].now) {
      m := LaterRefresh(interval, passes, i, j);
      RefreshQueuesAll(passes[m].rules, Seen(passes[..m]));
    }
  }

  /** The last refresh before j, if it came after i. */
  lemma {:induction false} LaterRefresh(interval: int, passes: seq<Pass>, i: nat, j: nat) returns (m: nat)
    requires Timed(passes) && i < j < |passes|
    requires LastRefresh(interval, passes[..j]).Some? && LastRefresh(interval, passes[..j]).value > passes[i].now
    ensures i < m < j && Refresh(interval, LastRefresh(interval, passes[..m]), passes[m].now)
    decreases j
  {
    var k := j - 1;
    assert passes[..j][..k] == passes[..k];
    if Refresh(interval, LastRefresh(interval, passes[..k]), passes[k].now) {
      m := k;
    } else {
      if k <= i { RefreshTimes(interval, passes[..k], 0); }
      m := LaterRefresh(interval, passes, i, k);
    }
  }

  /** And no sooner: a block that was already seen is queued again only with an interval set, and two such times are at
      least that far apart. */
  lemma AgainNoSooner(interval: int, passes: seq<Pass>, i: nat, j: nat, k: string)
    requires Timed(passes) && i < j < |passes|
    requires k in Seen(passes[..i]) && Queues(interval, passes, i, k)
    requires k in Seen(passes[..j]) && Queues(interval, passes, j, k)
    ensures interval > 0 && passes[j].now - passes[i].now >= interval
  {
    QueuedIsNew(passes[i].rules, Seen(passes[..i]), k);
    QueuedIsNew(passes[j].rules, Seen(passes[..j]), k);
    assert passes[..j][..i] == passes[..i];
    RefreshTimes(interval, passes[..j], i);
  }

  /** The passes of the object itself, one after the other: what it queues over any run is the run of the
      specification; with interval 0 each block goes out once per stretch. */
  method RunPasses(interval: int, passes: seq<Pass>, k: string) returns (log: seq<seq<Rule>>, count: nat)
    ensures |log| == |passes| && forall i :: 0 <= i < |log| ==> log[i] == QueuedIn(interval, passes, i)
    ensures interval == 0 ==> count == Appearances(passes, k)
  {
    var a := new AnnounceState(interval);
    log, count := [], 0;
    for i := 0 to |passes|
      invariant fresh(a) && a.interval == interval
      invariant a.last.Keys == Seen(passes[..i]) && a.at == LastRefresh(interval, passes[..i])
      invariant |log| == i && forall j :: 0 <= j < i ==> log[j] == QueuedIn(interval, passes, j)
      invariant interval == 0 ==> count == Announced(passes[..i], k)
    {
      assert passes[..i + 1][..i] == passes[..i] && passes[..i + 1][i] == passes[i];
      var queued, delay := a.Sync(passes[i].rules, passes[i].now);
      log, count := log + [queued], count + Times(queued, k);
    }
    assert passes[..|passes|] == passes;
    OncePerStretch(passes, k);
  }
}
