/** The dynamic CPU limit: one enforcement pass over all containers, with any of its calls failing. */
module CpuLimit {
  import opened Common

  datatype Rule = Rule(enabled: bool, windowMinutes: int, percent: int, coresX10: int, durationSeconds: int)

  datatype User = User(id: int, name: string, cpu: int)

  /** The persisted state of one limit. */
  datatype Limit = Limit(until: int, coresX10: int)

  datatype Sample = Sample(minute: int, running: bool, percentX10: int)

  predicate ValidRule(r: Rule) {
    && r.windowMinutes >= 1 && 1 <= r.percent <= 100 && 1 <= r.coresX10 <= 10
    && (r.enabled ==> r.durationSeconds > 0) && r.durationSeconds >= 0
  }

  /** A malformed rule counts as switched off. */
  predicate On(r: Rule) { r.enabled && ValidRule(r) }

  // ---- cpuOverStreak

  const STEP: int := 60

  /** The j-th newest sample is j minutes older than the newest, running and above the threshold. */
  predicate BusyMinute(samples: seq<Sample>, j: int, threshold: int)
    requires 0 <= j < |samples|
  {
    var s := samples[|samples| - 1 - j];
    s.minute == samples[|samples| - 1].minute - STEP * j && s.running && s.percentX10 > threshold
  }

  /** The newest `need` samples are one a minute without a gap, all running and above the threshold, and
      the newest is at most two minutes old. */
  predicate OverStreak(samples: seq<Sample>, now: int, need: int, threshold: int) {
    && need >= 1 && |samples| >= need
    && now - samples[|samples| - 1].minute <= 120
    && forall j :: 0 <= j < need ==> BusyMinute(samples, j, threshold)
  }

  method CpuOverStreak(samples: seq<Sample>, now: int, need: int, threshold: int) returns (over: bool)
    ensures over == OverStreak(samples, now, need, threshold)
  {
    if need < 1 || |samples| < need { return false; }
    var last := samples[|samples| - 1];
    if now - last.minute > 120 { return false; }
    var expected := last.minute;
    var count := 0;
    var i := |samples| - 1;
    while i >= 0
      invariant -1 <= i < |samples| && count == |samples| - 1 - i && count < need
      invariant expected == last.minute - STEP * count
      invariant forall j :: 0 <= j < count ==> BusyMinute(samples, j, threshold)
    {
      var s := samples[i];
      assert BusyMinute(samples, count, threshold) <==>
        s.minute == expected && s.running && s.percentX10 > threshold;
      if s.minute != expected { return false; }
      if !s.running || s.percentX10 <= threshold { return false; }
      count := count + 1;
      if count >= need { return true; }
      expected := expected - STEP;
      i := i - 1;
    }
    return false;
  }

  // ---- the state and the faults of a pass

  /** The stored limits and the CPU each container really has. */
  datatype State = State(stored: map<string, Limit>, quota: map<string, int>)

  datatype Faults = Faults(
    load: bool, users: bool, samples: bool, save: bool,
    restore: set<string>, apply: set<string>, rollback: set<string>)  // the containers whose SetCPU fails

  datatype Problem =
    | LoadState | ListUsers | Samples | SaveState
    | RestoreQuota(name: string) | ApplyLimit(name: string) | RollbackQuota(name: string)

  function At(quota: map<string, int>, n: string): Option<int> {
    if n in quota then Some(quota[n]) else None
  }

  ghost predicate DistinctNames(users: seq<User>) {
    forall i, j :: 0 <= i < j < |users| ==> users[i].name != users[j].name
  }

  function ByName(users: seq<User>): map<string, User> {
    if users == [] then map[]
    else ByName(users[..|users| - 1])[users[|users| - 1].name := users[|users| - 1]]
  }

  lemma {:induction false} ByNameFinds(users: seq<User>)
    requires DistinctNames(users)
    ensures forall i :: 0 <= i < |users| ==> users[i].name in ByName(users) && ByName(users)[users[i].name] == users[i]
    ensures forall n :: n in ByName(users) ==> ByName(users)[n].name == n && ByName(users)[n] in users
  {
    if users != [] {
      var front := users[..|users| - 1];
      ByNameFinds(front);
      forall i | 0 <= i < |users|
        ensures users[i].name in ByName(users) && ByName(users)[users[i].name] == users[i]
      {
        assert i < |users| - 1 ==> front[i] == users[i];
      }
    }
  }

  /** What one pass is given besides the state: the rule, the clock, the accounts by name, which of them
      have been over the threshold, and the faults. */
  datatype Input = Input(rule: Rule, now: int, users: map<string, User>, over: set<string>, f: Faults)

  predicate WellFormed(x: Input) { forall n :: n in x.users ==> x.users[n].name == n }

  /** The limit of n is due to be lifted: it expired, or the rule is off. */
  predicate Due(s: State, x: Input, n: string)
    requires n in s.stored
  {
    !On(x.rule) || x.now >= s.stored[n].until
  }

  predicate Restored(s: State, x: Input, n: string) {
    n in s.stored && n in x.users && Due(s, x, n) && n !in x.f.restore
  }

  /** The limit of n stays on the list through the first phase. */
  predicate Stays(s: State, x: Input, n: string) {
    n in s.stored && n in x.users && (Due(s, x, n) ==> n in x.f.restore)
  }

  /** The pass caps n. */
  predicate Capped(s: State, x: Input, n: string) {
    && On(x.rule) && !x.f.samples && n in x.users && !Stays(s, x, n)
    && x.users[n].cpu > x.rule.coresX10 && n in x.over && n !in x.f.apply
  }

  function NewLimit(s: State, x: Input, n: string): Limit
    requires Capped(s, x, n) || n in s.stored
  {
    if Capped(s, x, n) then Limit(x.now + x.rule.durationSeconds, x.rule.coresX10) else s.stored[n]
  }

  /** The first phase takes a limit off the list. */
  predicate Dropped(s: State, x: Input) { exists n :: n in s.stored && !Stays(s, x, n) }

  /** Something is to be saved. */
  predicate Changed(s: State, x: Input) {
    || Dropped(s, x)
    || (exists n :: n in x.users && Capped(s, x, n))
  }

  predicate Aborted(x: Input) { x.f.load || x.f.users }

  function QuotaAfter(s: State, x: Input, n: string): Option<int> {
    if Capped(s, x, n) then Some(if x.f.save && n !in x.f.rollback then x.users[n].cpu else x.rule.coresX10)
    else if Restored(s, x, n) then Some(x.users[n].cpu)
    else At(s.quota, n)
  }

  /** The state after a pass, name by name. */
  ghost predicate Pass(s: State, s': State, x: Input) {
    if Aborted(x) then s' == s
    else
      && (forall n :: At(s'.quota, n) == QuotaAfter(s, x, n))
      && (if Changed(s, x) && !x.f.save then
            && (forall n :: n in s'.stored <==> Stays(s, x, n) || Capped(s, x, n))
            && (forall n :: n in s'.stored ==> s'.stored[n] == NewLimit(s, x, n))
          else s'.stored == s.stored)
  }

  /** The rollbacks the pass could not carry out: containers it leaves capped without a record. */
  ghost predicate Unlifted(s: State, x: Input, n: string) {
    !Aborted(x) && Capped(s, x, n) && x.f.save && n in x.f.rollback
  }

  // ---- what a pass keeps

  /** The container of n has the CPU its account says. */
  predicate AtQuota(s: State, users: map<string, User>, n: string) {
    n in users && At(s.quota, n) == Some(users[n].cpu)
  }

  /** The container of n is away from its quota, and no pass will find it on the stored list. */
  predicate Unrecorded(s: State, users: map<string, User>, n: string) {
    n in users && n in s.quota && s.quota[n] != users[n].cpu && n !in s.stored
  }

  /** Every container away from its quota is on the stored list, or among the given ones. */
  ghost predicate OnRecord(s: State, users: map<string, User>, reported: set<string>) {
    forall n :: Unrecorded(s, users, n) ==> n in reported
  }

  /** The pass loses track of n: it could neither record its cap nor lift it again, and says so. */
  ghost predicate Lost(s: State, x: Input, n: string) { Unlifted(s, x, n) && n !in s.stored }

  /** Exactly how a container becomes or stays unrecorded, whatever fails: the pass loses track of it, or it was
      unrecorded and the pass does not cap it anew. */
  lemma UnrecordedExactly(s: State, s': State, x: Input, n: string)
    requires Pass(s, s', x)
    ensures Unrecorded(s', x.users, n) <==> Lost(s, x, n) || (Unrecorded(s, x.users, n) && (Aborted(x) || !Capped(s, x, n)))
  {
    if !Aborted(x) {
      assert At(s'.quota, n) == QuotaAfter(s, x, n);
      assert Capped(s, x, n) ==> Changed(s, x);
    }
  }

  /** The containers the last report about which is of a cap that could not be lifted: a pass adds those it loses
      and takes out those it caps anew. */
  ghost function ReportedAfterPass(s: State, x: Input, reported: set<string>): set<string> {
    (set n | n in reported && (Aborted(x) || !Capped(s, x, n))) + set n | n in x.users && Lost(s, x, n)
  }

  /** No fault pattern whatever makes a pass lose track of a cap in silence. */
  lemma PassKeepsRecord(s: State, s': State, x: Input, reported: set<string>)
    requires Pass(s, s', x) && OnRecord(s, x.users, reported)
    ensures OnRecord(s', x.users, ReportedAfterPass(s, x, reported))
  {
    forall n | Unrecorded(s', x.users, n) ensures n in ReportedAfterPass(s, x, reported) { UnrecordedExactly(s, s', x, n); }
  }

  /** A pass only ever lowers a container's CPU to a cap strictly below its owner's quota; every other
      change sets the quota itself. */
  lemma CapsAreRestrictions(s: State, s': State, x: Input, n: string)
    requires Pass(s, s', x) && At(s'.quota, n) != At(s.quota, n)
    ensures n in x.users && n in s'.quota
    ensures s'.quota[n] == x.users[n].cpu || (s'.quota[n] == x.rule.coresX10 < x.users[n].cpu && On(x.rule) && n in x.over)
  {
  }

  predicate NoFaults(f: Faults) {
    !f.load && !f.users && !f.samples && !f.save && f.restore == {} && f.apply == {} && f.rollback == {}
  }

  /** One undisturbed pass with the rule off (or malformed) empties the list, and a container has its quota
      afterwards exactly if it was on the list or had it before. */
  lemma OffLiftsAll(s: State, s': State, x: Input)
    requires Pass(s, s', x) && NoFaults(x.f)
    requires !x.rule.enabled || x.rule.windowMinutes < 1 || !(1 <= x.rule.percent <= 100) || !(1 <= x.rule.coresX10 <= 10)
      || x.rule.durationSeconds <= 0
    ensures s'.stored == map[]
    ensures forall n :: n in x.users ==> (AtQuota(s', x.users, n) <==> n in s.stored || AtQuota(s, x.users, n))
  {
    forall n ensures !Stays(s, x, n) && !Capped(s, x, n) {}
    if s.stored != map[] {
      var n :| n in s.stored;
      assert !Stays(s, x, n) && Changed(s, x);
    }
    assert forall n :: n in s'.stored ==> false by {
      if Changed(s, x) { assert forall n :: n in s'.stored <==> Stays(s, x, n) || Capped(s, x, n); }
    }
    forall n | n in x.users ensures AtQuota(s', x.users, n) <==> n in s.stored || AtQuota(s, x.users, n) {
      assert At(s'.quota, n) == QuotaAfter(s, x, n);
    }
  }

  /** A run of passes none of which caps n, because the rule is off or n is not busy, say. */
  ghost predicate NeverCapped(states: seq<State>, xs: seq<Input>, users: map<string, User>, n: string) {
    && |states| == |xs| + 1
    && forall i :: 0 <= i < |xs| ==> xs[i].users == users && Pass(states[i], states[i + 1], xs[i]) && !Capped(states[i], xs[i], n)
  }

  /** A cap that was lost stays for as long as no pass caps the container anew: switching the rule off does not
      lift it, because only the stored list is looked at. */
  lemma {:induction false} LostCapStays(states: seq<State>, xs: seq<Input>, users: map<string, User>, n: string)
    requires NeverCapped(states, xs, users, n) && Unrecorded(states[0], users, n)
    ensures Unrecorded(states[|xs|], users, n)
    decreases |xs|
  {
    if |xs| > 0 {
      var k := |xs| - 1;
      var before, front := states[..k + 1], xs[..k];
      assert NeverCapped(before, front, users, n) by {
        forall i | 0 <= i < k ensures Pass(before[i], before[i + 1], front[i]) && !Capped(before[i], front[i], n) {
          assert Pass(states[i], states[i + 1], xs[i]) && !Capped(states[i], xs[i], n);
        }
      }
      LostCapStays(before, front, users, n);
      UnrecordedExactly(states[k], states[k + 1], xs[k], n);
    }
  }

  /** So no number of passes with the rule off, disturbed or not, lifts it. */
  lemma OffNeverLiftsLost(states: seq<State>, xs: seq<Input>, users: map<string, User>, n: string)
    requires |states| == |xs| + 1 && Unrecorded(states[0], users, n)
    requires forall i :: 0 <= i < |xs| ==> xs[i].users == users && Pass(states[i], states[i + 1], xs[i]) && !On(xs[i].rule)
    ensures Unrecorded(states[|xs|], users, n)
  {
    assert forall i :: 0 <= i < |xs| ==> !Capped(states[i], xs[i], n);
    LostCapStays(states, xs, users, n);
  }

  /** An expired limit, or one of a rule that is off, is gone after any pass in which its restore and the save work. */
  lemma ExpiryLifts(s: State, s': State, x: Input, n: string)
    requires Pass(s, s', x) && !Aborted(x) && n in s.stored && n in x.users && (x.now >= s.stored[n].until || !x.rule.enabled)
    requires n !in x.f.restore && !x.f.save && n !in x.over
    ensures n !in s'.stored && At(s'.quota, n) == Some(x.users[n].cpu)
  {
  }

  /** What may happen between passes: the accounts in `touched` come, go or get other quotas, and their containers
      have the CPU their account then says. The edits in `partial` failed half way and could not be undone, and
      said so: the container has the CPU asked for, the account the old quota. All else is left alone. */
  ghost predicate Edited(s: State, users: map<string, User>, s': State, users': map<string, User>, touched: set<string>,
      partial: map<string, int>)
  {
    && s'.stored == s.stored
    && (forall n :: n in touched && n in users' && n in s'.quota ==> s'.quota[n] == users'[n].cpu)
    && (forall n :: n in partial ==> n !in touched && n in users && CpuKept(users, users', n) && At(s'.quota, n) == Some(partial[n]))
    && (forall n :: n !in touched && n !in partial ==> CpuKept(users, users', n) && At(s'.quota, n) == At(s.quota, n))
  }

  ghost predicate CpuKept(users: map<string, User>, users': map<string, User>, n: string) {
    (n in users' <==> n in users) && (n in users ==> users'[n].cpu == users[n].cpu)
  }

  datatype Step = Enforce(x: Input) | Edit(touched: set<string>, partial: map<string, int>)

  /** A run: states[i] and accounts[i] before step i, each pass with its own clock, rule, load and faults. */
  ghost predicate Run(states: seq<State>, accounts: seq<map<string, User>>, steps: seq<Step>) {
    && |states| == |accounts| == |steps| + 1
    && forall i :: 0 <= i < |steps| ==> StepOf(states, accounts, steps, i)
  }

  ghost predicate StepOf(states: seq<State>, accounts: seq<map<string, User>>, steps: seq<Step>, i: nat)
    requires i < |steps| && |states| == |accounts| == |steps| + 1
  {
    match steps[i]
    case Enforce(x) => x.users == accounts[i] == accounts[i + 1] && Pass(states[i], states[i + 1], x)
    case Edit(touched, partial) => Edited(states[i], accounts[i], states[i + 1], accounts[i + 1], touched, partial)
  }

  /** The edit takes out what it touches, and adds the containers it leaves half-done at another CPU than their
      quota and without a record. */
  ghost function ReportedAfterEdit(s: State, users: map<string, User>, touched: set<string>, partial: map<string, int>,
      reported: set<string>): set<string>
  {
    (set n | n in reported && n !in touched && n !in partial)
    + set n | n in partial && n in users && partial[n] != users[n].cpu && n !in s.stored
  }

  /** The containers whose last change was one that could not be undone, and was reported. */
  ghost function Reported(states: seq<State>, accounts: seq<map<string, User>>, steps: seq<Step>): set<string>
    requires |states| == |accounts| == |steps| + 1
  {
    if steps == [] then {}
    else
      var k := |steps| - 1;
      var before := Reported(states[..k + 1], accounts[..k + 1], steps[..k]);
      match steps[k]
      case Enforce(x) => ReportedAfterPass(states[k], x, before)
      case Edit(touched, partial) => ReportedAfterEdit(states[k], accounts[k], touched, partial, before)
  }

  /** Over every run from a state without caps, with any failures: a container is away from its quota and not on
      the stored list if and only if its last change was one that could not be undone, which was reported. */
  lemma {:induction false} CapsAlwaysOnRecord(states: seq<State>, accounts: seq<map<string, User>>, steps: seq<Step>)
    requires Run(states, accounts, steps) && OnRecord(states[0], accounts[0], {})
    ensures OnRecord(states[|steps|], accounts[|steps|], Reported(states, accounts, steps))
    ensures forall n :: n in Reported(states, accounts, steps) ==> Unrecorded(states[|steps|], accounts[|steps|], n)
    decreases |steps|
  {
    if |steps| > 0 {
      var k := |steps| - 1;
      var before, front, fronts := states[..k + 1], steps[..k], accounts[..k + 1];
      assert Run(before, fronts, front) by {
        forall i | 0 <= i < k ensures StepOf(before, fronts, front, i) { assert StepOf(states, accounts, steps, i); }
      }
      CapsAlwaysOnRecord(before, fronts, front);
      var reported := Reported(before, fronts, front);
      assert StepOf(states, accounts, steps, k);
      match steps[k]
      case Enforce(x) =>
        PassKeepsRecord(states[k], states[k + 1], x, reported);
        ReportedIsUnrecorded(states[k], states[k + 1], x, reported);
      case Edit(touched, partial) =>
        EditKeepsRecord(states[k], accounts[k], states[k + 1], accounts[k + 1], touched, partial, reported);
        EditedIsUnrecorded(states[k], accounts[k], states[k + 1], accounts[k + 1], touched, partial, reported);
    }
  }

  lemma ReportedIsUnrecorded(s: State, s': State, x: Input, reported: set<string>)
    requires Pass(s, s', x) && forall n :: n in reported ==> Unrecorded(s, x.users, n)
    ensures forall n :: n in ReportedAfterPass(s, x, reported) ==> Unrecorded(s', x.users, n)
  {
    forall n | n in ReportedAfterPass(s, x, reported) ensures Unrecorded(s', x.users, n) { UnrecordedExactly(s, s', x, n); }
  }

  /** Exactly how a container is unrecorded after an edit: left half-done without a record, or unrecorded before
      and left alone. */
  lemma EditedExactly(s: State, users: map<string, User>, s': State, users': map<string, User>, touched: set<string>,
      partial: map<string, int>, n: string)
    requires Edited(s, users, s', users', touched, partial)
    ensures Unrecorded(s', users', n) <==>
      if n in partial then n in users && partial[n] != users[n].cpu && n !in s.stored
      else Unrecorded(s, users, n) && n !in touched
  {
    assert At(s.quota, n) == At(s'.quota, n) || n in touched || n in partial;
  }

  lemma EditKeepsRecord(s: State, users: map<string, User>, s': State, users': map<string, User>, touched: set<string>,
      partial: map<string, int>, reported: set<string>)
    requires Edited(s, users, s', users', touched, partial) && OnRecord(s, users, reported)
    ensures OnRecord(s', users', ReportedAfterEdit(s, users, touched, partial, reported))
  {
    forall n | Unrecorded(s', users', n) ensures n in ReportedAfterEdit(s, users, touched, partial, reported) {
      EditedExactly(s, users, s', users', touched, partial, n);
    }
  }

  lemma EditedIsUnrecorded(s: State, users: map<string, User>, s': State, users': map<string, User>, touched: set<string>,
      partial: map<string, int>, reported: set<string>)
    requires Edited(s, users, s', users', touched, partial) && forall n :: n in reported ==> Unrecorded(s, users, n)
    ensures forall n :: n in ReportedAfterEdit(s, users, touched, partial, reported) ==> Unrecorded(s', users', n)
  {
    forall n | n in ReportedAfterEdit(s, users, touched, partial, reported) ensures Unrecorded(s', users', n) {
      EditedExactly(s, users, s', users', touched, partial, n);
    }
  }

  // ---- the pass itself

  function SamplesOf(samples: map<int, seq<Sample>>, id: int): seq<Sample> {
    if id in samples then samples[id] else []
  }

  predicate Busy(u: User, samples: map<int, seq<Sample>>, rule: Rule, now: int) {
    OverStreak(SamplesOf(samples, u.id), now, rule.windowMinutes, rule.percent * 10)
  }

  function BusyNames(users: map<string, User>, samples: map<int, seq<Sample>>, rule: Rule, now: int): set<string> {
    set n | n in users && Busy(users[n], samples, rule, now)
  }

  function InputOf(rule: Rule, now: int, users: seq<User>, samples: map<int, seq<Sample>>, f: Faults): Input {
    Input(rule, now, ByName(users), BusyNames(ByName(users), samples, rule, now), f)
  }

  /** A restore that is due and fails, and a cap that is due and fails. */
  predicate RestoreFails(s: State, x: Input, n: string) {
    n in s.stored && n in x.users && Due(s, x, n) && n in x.f.restore
  }

  predicate ApplyFails(s: State, x: Input, n: string) {
    && On(x.rule) && !x.f.samples && n in x.users && !Stays(s, x, n)
    && x.users[n].cpu > x.rule.coresX10 && n in x.over && n in x.f.apply
  }

  predicate SomeRestoreFails(s: State, x: Input) { exists n :: n in s.stored && RestoreFails(s, x, n) }

  predicate SomeApplyFails(s: State, x: Input) { exists n :: n in x.users && ApplyFails(s, x, n) }

  /** The pass has something to report. */
  predicate Fails(s: State, x: Input) {
    || Aborted(x)
    || SomeRestoreFails(s, x)
    || (On(x.rule) && x.f.samples)
    || SomeApplyFails(s, x)
    || (Changed(s, x) && x.f.save)
  }

  // ---- whom a pass caps

  /** The rule is on and well-formed, and the samples, one a minute up to the last two minutes, show the container
      running above the percentage for as long as the rule says, with more CPU than the rule leaves. */
  predicate Overloads(rule: Rule, now: int, cpu: int, ss: seq<Sample>) {
    && rule.enabled && rule.windowMinutes >= 1 && 1 <= rule.percent <= 100 && 1 <= rule.coresX10 <= 10 && rule.durationSeconds > 0
    && cpu > rule.coresX10 && |ss| >= rule.windowMinutes && now <= ss[|ss| - 1].minute + 120
    && forall k :: |ss| - rule.windowMinutes <= k < |ss| ==>
      ss[k].minute == ss[|ss| - 1].minute - 60 * (|ss| - 1 - k) && ss[k].running && ss[k].percentX10 > 10 * rule.percent
  }

  lemma StreakExactly(ss: seq<Sample>, now: int, need: int, threshold: int)
    ensures OverStreak(ss, now, need, threshold) <==>
      && need >= 1 && |ss| >= need && now <= ss[|ss| - 1].minute + 120
      && forall k :: |ss| - need <= k < |ss| ==>
        ss[k].minute == ss[|ss| - 1].minute - 60 * (|ss| - 1 - k) && ss[k].running && ss[k].percentX10 > threshold
  {
    if OverStreak(ss, now, need, threshold) {
      forall k | |ss| - need <= k < |ss|
        ensures ss[k].minute == ss[|ss| - 1].minute - 60 * (|ss| - 1 - k) && ss[k].running && ss[k].percentX10 > threshold
      {
        assert BusyMinute(ss, |ss| - 1 - k, threshold);
      }
    }
  }

  /** An undisturbed pass caps a container that was not on the list if and only if its samples say so; then it has the
      rule's CPU for the rule's time, and otherwise the pass leaves it alone. */
  lemma CappedExactly(s: State, s': State, rule: Rule, now: int, users: seq<User>, samples: map<int, seq<Sample>>, f: Faults, u: User)
    requires DistinctNames(users) && u in users && NoFaults(f) && Pass(s, s', InputOf(rule, now, users, samples, f))
    requires u.name !in s.stored
    ensures u.name in s'.stored <==> u.id in samples && Overloads(rule, now, u.cpu, samples[u.id])
    ensures u.name in s'.stored ==> s'.stored[u.name] == Limit(now + rule.durationSeconds, rule.coresX10)
    ensures At(s'.quota, u.name) == if u.name in s'.stored then Some(rule.coresX10) else At(s.quota, u.name)
  {
    var x := InputOf(rule, now, users, samples, f);
    ByNameFinds(users);
    StreakExactly(SamplesOf(samples, u.id), now, rule.windowMinutes, rule.percent * 10);
    assert At(s'.quota, u.name) == QuotaAfter(s, x, u.name);
    assert Capped(s, x, u.name) ==> Changed(s, x);
  }

  /** The containers that get on the list are those whose samples say so. */
  ghost predicate CapsTheBusy(stored: map<string, Limit>, stored': map<string, Limit>, rule: Rule, now: int, users: seq<User>,
      samples: map<int, seq<Sample>>)
  {
    forall u :: u in users && u.name !in stored ==>
      (u.name in stored' <==> u.id in samples && Overloads(rule, now, u.cpu, samples[u.id]))
  }

  lemma AllCappedExactly(s: State, s': State, rule: Rule, now: int, users: seq<User>, samples: map<int, seq<Sample>>, f: Faults)
    requires DistinctNames(users) && NoFaults(f) && Pass(s, s', InputOf(rule, now, users, samples, f))
    ensures CapsTheBusy(s.stored, s'.stored, rule, now, users, samples)
  {
    forall u | u in users && u.name !in s.stored
      ensures u.name in s'.stored <==> u.id in samples && Overloads(rule, now, u.cpu, samples[u.id])
    {
      CappedExactly(s, s', rule, now, users, samples, f, u);
    }
  }

  /** While the rule is on, a limit that has not expired stays as it is, whatever fails. */
  lemma UnexpiredStays(s: State, s': State, x: Input, n: string)
    requires Pass(s, s', x) && n in s.stored && n in x.users && x.now < s.stored[n].until
    requires x.rule.enabled && x.rule.windowMinutes >= 1 && 1 <= x.rule.percent <= 100 && 1 <= x.rule.coresX10 <= 10
    requires x.rule.durationSeconds > 0
    ensures n in s'.stored && s'.stored[n] == s.stored[n] && At(s'.quota, n) == At(s.quota, n)
  {
    assert Stays(s, x, n) && !Capped(s, x, n);
    assert !Aborted(x) ==> At(s'.quota, n) == QuotaAfter(s, x, n);
  }

  const NOTHING_FAILS: Faults := Faults(false, false, false, false, {}, {}, {})

  lemma SameWithoutFaults(s: State, x: Input, n: string)
    requires !Fails(s, x)
    ensures var y := x.(f := NOTHING_FAILS);
      (Stays(s, y, n) <==> Stays(s, x, n)) && (Restored(s, y, n) <==> Restored(s, x, n)) && (Capped(s, y, n) <==> Capped(s, x, n))
  {
    assert !RestoreFails(s, x, n) && !ApplyFails(s, x, n);
  }

  /** A pass that reports nothing did what it would have done without any failure; and without any failure it reports
      nothing. */
  lemma SilenceMeansDone(s: State, s': State, x: Input)
    requires Pass(s, s', x)
    ensures !Fails(s, x) ==> Pass(s, s', x.(f := NOTHING_FAILS))
    ensures NoFaults(x.f) ==> !Fails(s, x)
  {
    if !Fails(s, x) {
      var y := x.(f := NOTHING_FAILS);
      forall n ensures (Stays(s, y, n) <==> Stays(s, x, n)) && (Restored(s, y, n) <==> Restored(s, x, n))
        && (Capped(s, y, n) <==> Capped(s, x, n))
      {
        SameWithoutFaults(s, x, n);
      }
      forall n ensures At(s'.quota, n) == QuotaAfter(s, y, n) { assert At(s'.quota, n) == QuotaAfter(s, x, n); }
      assert Changed(s, y) <==> Changed(s, x);
    }
  }

  /** When every stored limit is still to run and no other container is overloaded, there is nothing to save: the pass
      reports nothing even if it could not have saved, lifted or capped anything. */
  lemma NothingToSave(s: State, rule: Rule, now: int, users: seq<User>, samples: map<int, seq<Sample>>, f: Faults)
    requires DistinctNames(users) && !f.load && !f.users && !f.samples
    requires rule.enabled && rule.windowMinutes >= 1 && 1 <= rule.percent <= 100 && 1 <= rule.coresX10 <= 10 && rule.durationSeconds > 0
    requires forall n :: n in s.stored ==> now < s.stored[n].until && exists i :: 0 <= i < |users| && users[i].name == n
    requires forall u :: u in users && u.name !in s.stored ==> !(u.id in samples && Overloads(rule, now, u.cpu, samples[u.id]))
    ensures !Fails(s, InputOf(rule, now, users, samples, f))
  {
    var x := InputOf(rule, now, users, samples, f);
    ByNameFinds(users);
    forall n | n in s.stored ensures Stays(s, x, n) {
      var i :| 0 <= i < |users| && users[i].name == n;
      assert n in x.users;
    }
    forall n | n in x.users && n !in s.stored && x.users[n].cpu > rule.coresX10 ensures n !in x.over {
      var u := x.users[n];
      assert u in users;
      StreakExactly(SamplesOf(samples, u.id), now, rule.windowMinutes, rule.percent * 10);
    }
  }

  // ---- the second phase, one account at a time

  ghost function AfterCaps(before: map<string, int>, s: State, x: Input, done: set<string>, n: string): Option<int> {
    if n in done && Capped(s, x, n) then Some(x.rule.coresX10) else At(before, n)
  }

  /** The active map, the CPU settings and the list of caps once the accounts in `done` were looked at. */
  ghost predicate CapsDone(s: State, x: Input, before: map<string, int>, done: set<string>,
      active: map<string, Limit>, quota: map<string, int>, applied: seq<User>)
  {
    && (forall n :: n in active <==> Stays(s, x, n) || (n in done && Capped(s, x, n)))
    && (forall n :: n in active ==> active[n] == NewLimit(s, x, n))
    && (forall n :: At(quota, n) == AfterCaps(before, s, x, done, n))
    && (forall u :: u in applied ==> u.name in done && Capped(s, x, u.name) && x.users[u.name] == u)
    && (forall n :: n in done && Capped(s, x, n) ==> x.users[n] in applied)
  }

  lemma CapsSkip(s: State, x: Input, before: map<string, int>, done: set<string>,
      active: map<string, Limit>, quota: map<string, int>, applied: seq<User>, name: string)
    requires CapsDone(s, x, before, done, active, quota, applied) && !Capped(s, x, name)
    ensures CapsDone(s, x, before, done + {name}, active, quota, applied)
  {
  }

  lemma CapsTake(s: State, x: Input, before: map<string, int>, done: set<string>,
      active: map<string, Limit>, quota: map<string, int>, applied: seq<User>, u: User)
    requires CapsDone(s, x, before, done, active, quota, applied)
    requires Capped(s, x, u.name) && x.users[u.name] == u
    ensures CapsDone(s, x, before, done + {u.name}, active[u.name := Limit(x.now + x.rule.durationSeconds, x.rule.coresX10)],
        quota[u.name := x.rule.coresX10], applied + [u])
  {
    var more := done + {u.name};
    var quota' := quota[u.name := x.rule.coresX10];
    forall n ensures At(quota', n) == AfterCaps(before, s, x, more, n) {
      assert At(quota, n) == AfterCaps(before, s, x, done, n);
    }
    assert u in applied + [u];
    forall n | n in more && Capped(s, x, n) ensures x.users[n] in applied + [u] {
      assert n != u.name ==> x.users[n] in applied;
    }
  }

  ghost function Names(users: seq<User>): set<string> { set u | u in users :: u.name }

  /** The quotas once the caps of `names` were lifted again. */
  ghost function AfterRollback(before: map<string, int>, users: map<string, User>, names: set<string>, f: Faults, n: string): Option<int>
  {
    if n in names && n in users && n !in f.rollback then Some(users[n].cpu) else At(before, n)
  }

  lemma NamesGrow(users: seq<User>, i: nat)
    requires i < |users|
    ensures Names(users[..i + 1]) == Names(users[..i]) + {users[i].name}
  {
  }

  lemma FirstOfItsName(users: seq<User>, i: nat)
    requires i < |users| && DistinctNames(users)
    ensures users[i].name !in Names(users[..i])
  {
  }

  /** The list and the quotas once the first phase is over. */
  ghost predicate ActiveAfterRestore(s: State, x: Input, active: map<string, Limit>) {
    forall n :: (n in active <==> Stays(s, x, n)) && (n in active ==> active[n] == s.stored[n])
  }

  ghost predicate QuotaRestored(s: State, x: Input, quota: map<string, int>) {
    forall n :: At(quota, n) == if Restored(s, x, n) then Some(x.users[n].cpu) else At(s.quota, n)
  }

  /** The first phase with the limits in `rest` still to be looked at. */
  ghost predicate Lifting(s: State, x: Input, rest: set<string>, active: map<string, Limit>, quota: map<string, int>) {
    && (forall n :: n in active <==> n in s.stored && (n in rest || Stays(s, x, n)))
    && (forall n :: n in active ==> active[n] == s.stored[n])
    && (forall n :: At(quota, n) == if Restored(s, x, n) && n !in rest then Some(x.users[n].cpu) else At(s.quota, n))
  }

  lemma LiftStep(s: State, x: Input, rest: set<string>, active: map<string, Limit>, quota: map<string, int>, name: string)
    requires Lifting(s, x, rest, active, quota) && name in rest && name in s.stored
    ensures Lifting(s, x, rest - {name}, if Stays(s, x, name) then active else active - {name},
        if Restored(s, x, name) then quota[name := x.users[name].cpu] else quota)
  {
  }

  lemma ChangedExactly(s: State, x: Input, before: map<string, int>, active: map<string, Limit>, quota: map<string, int>,
      applied: seq<User>)
    requires CapsDone(s, x, before, x.users.Keys, active, quota, applied)
    ensures Changed(s, x) <==> Dropped(s, x) || applied != []
  {
    if applied != [] { assert applied[0] in applied; }
  }

  lemma Named(users: seq<User>)
    requires DistinctNames(users)
    ensures forall n :: n in ByName(users) ==> ByName(users)[n].name == n
  {
  }

  /** A pass that saves, or has nothing to save. */
  lemma SavedPass(s: State, x: Input, mid: map<string, int>, active: map<string, Limit>, quota: map<string, int>,
      applied: seq<User>)
    requires QuotaRestored(s, x, mid) && CapsDone(s, x, mid, x.users.Keys, active, quota, applied)
    requires !Aborted(x) && (Changed(s, x) ==> !x.f.save)
    ensures Pass(s, State(if Changed(s, x) then active else s.stored, quota), x)
  {
    forall n ensures At(quota, n) == QuotaAfter(s, x, n) {
      assert At(quota, n) == AfterCaps(mid, s, x, x.users.Keys, n);
      assert Capped(s, x, n) ==> Changed(s, x);
    }
  }

  /** A pass that could not save and took its caps back. */
  lemma RolledBack(s: State, x: Input, mid: map<string, int>, active: map<string, Limit>, capped: map<string, int>,
      quota: map<string, int>, applied: seq<User>)
    requires QuotaRestored(s, x, mid) && CapsDone(s, x, mid, x.users.Keys, active, capped, applied)
    requires !Aborted(x) && x.f.save && WellFormed(x)
    requires forall n :: At(quota, n) == AfterRollback(capped, x.users, Names(applied), x.f, n)
    ensures Pass(s, State(s.stored, quota), x)
    ensures forall n :: Unlifted(s, x, n) <==> n in x.f.rollback * Names(applied)
  {
    forall n ensures n in Names(applied) <==> Capped(s, x, n) {
      if Capped(s, x, n) { assert x.users[n] in applied && x.users[n].name in Names(applied); }
    }
    forall n ensures At(quota, n) == QuotaAfter(s, x, n) {
      assert At(quota, n) == AfterRollback(capped, x.users, Names(applied), x.f, n);
      assert At(capped, n) == AfterCaps(mid, s, x, x.users.Keys, n);
    }
  }

  /** What fails in a quota edit: the validation, the CPU call, a later step (memory, disk, database), the undoing. */
  datatype EditFaults = EditFaults(rejected: bool, cpu: bool, later: bool, undo: bool)

  class Enforcer {
    var stored: map<string, Limit>
    var quota: map<string, int>

    ghost function View(): State
      reads this
    {
      State(stored, quota)
    }

    /** The runtime call: it changes the container's CPU, or fails and changes nothing. */
    method SetCPU(name: string, cpu: int, fails: bool) returns (ok: bool)
      modifies this`quota
      ensures ok == !fails && quota == if fails then old(quota) else old(quota)[name := cpu]
    {
      if !fails { quota := quota[name := cpu]; }
      ok := !fails;
    }

    /** The CPU part of a quota edit: the container first, the database last, and what was applied is undone if a
        later step fails. `u'` is the account afterwards; `touched` tells that the container now has its quota,
        `partial` that the undoing failed. */
    method UpdateQuotas(u: User, cpu: int, f: EditFaults, ghost users: map<string, User>)
        returns (u': User, ok: bool, touched: bool, partial: bool)
      requires u.name in users && users[u.name] == u
      modifies this`quota
      ensures Edited(old(View()), users, View(), users[u.name := u'], if touched then {u.name} else {},
        if partial then map[u.name := cpu] else map[])
      ensures ok <==> !f.rejected && !(cpu > 0 && f.cpu) && !f.later
      ensures u' == if ok && cpu > 0 then u.(cpu := cpu) else u
      ensures partial <==> !f.rejected && cpu > 0 && !f.cpu && f.later && f.undo
      ensures ok && cpu > 0 ==> quota == old(quota)[u.name := cpu]
    {
      u', ok, touched, partial := u, false, false, false;
      if f.rejected { return; }
      var applied := false;
      if cpu > 0 {
        applied := SetCPU(u.name, cpu, f.cpu);
        if !applied { return; }
      }
      if f.later {
        if applied {
          var undone := SetCPU(u.name, u.cpu, f.undo);
          touched, partial := undone, !undone;
        }
        return;
      }
      if applied { u', touched := u.(cpu := cpu), true; }
      ok := true;
    }

    /** Lifts limits that are due and forgets those of deleted accounts. */
    method RestorePhase(users: map<string, User>, x: Input) returns (active: map<string, Limit>, changed: bool, first: Option<Problem>)
      requires WellFormed(x) && users == x.users
      modifies this`quota
      ensures ActiveAfterRestore(old(View()), x, active) && QuotaRestored(old(View()), x, quota)
      ensures changed <==> Dropped(old(View()), x)
      ensures first.Some? <==> SomeRestoreFails(old(View()), x)
      ensures first.Some? ==> first.value.RestoreQuota?
    {
      ghost var s := View();
      active, changed, first := stored, false, None;
      var rest := stored.Keys;
      while rest != {}
        invariant rest <= stored.Keys
        invariant Lifting(s, x, rest, active, quota)
        invariant changed <==> exists n :: n in stored && n !in rest && !Stays(s, x, n)
        invariant first.Some? <==> exists n :: n in stored && n !in rest && RestoreFails(s, x, n)
        invariant first.Some? ==> first.value.RestoreQuota?
        decreases rest
      {
        var name :| name in rest;
        LiftStep(s, x, rest, active, quota, name);
        rest := rest - {name};
        if name !in users {
          active, changed := active - {name}, true;
          continue;
        }
        if !On(x.rule) || x.now >= stored[name].until {
          var ok := SetCPU(name, users[name].cpu, name in x.f.restore);
          if !ok {
            if first.None? { first := Some(RestoreQuota(name)); }
            continue;
          }
          active, changed := active - {name}, true;
        }
      }
    }

    /** Caps the containers that stayed over the threshold, in account order. */
    method ApplyPhase(users: seq<User>, samples: map<int, seq<Sample>>, active: map<string, Limit>, x: Input, ghost s: State)
        returns (active': map<string, Limit>, applied: seq<User>, first: Option<Problem>)
      requires DistinctNames(users) && x.users == ByName(users) && x.over == BusyNames(x.users, samples, x.rule, x.now)
      requires On(x.rule) && !x.f.samples
      requires ActiveAfterRestore(s, x, active)
      modifies this`quota
      ensures CapsDone(s, x, old(quota), x.users.Keys, active', quota, applied)
      ensures first.Some? <==> SomeApplyFails(s, x)
      ensures first.Some? ==> first.value.ApplyLimit?
    {
      active', applied, first := active, [], None;
      ByNameFinds(users);
      ghost var done: set<string> := {};
      for i := 0 to |users|
        invariant done == Names(users[..i])
        invariant CapsDone(s, x, old(quota), done, active', quota, applied)
        invariant first.Some? <==> exists n :: n in done && ApplyFails(s, x, n)
        invariant first.Some? ==> first.value.ApplyLimit?
      {
        var u := users[i];
        NamesGrow(users, i);
        ghost var before := done;
        done := done + {u.name};
        FirstOfItsName(users, i);
        if !Capped(s, x, u.name) { CapsSkip(s, x, old(quota), before, active', quota, applied, u.name); }
        if u.name in active' { continue; }
        if u.cpu <= x.rule.coresX10 { continue; }
        var over := CpuOverStreak(SamplesOf(samples, u.id), x.now, x.rule.windowMinutes, x.rule.percent * 10);
        assert over == (u.name in x.over);
        if !over { continue; }
        ghost var was := quota;
        var ok := SetCPU(u.name, x.rule.coresX10, u.name in x.f.apply);
        if !ok {
          if first.None? { first := Some(ApplyLimit(u.name)); }
          continue;
        }
        CapsTake(s, x, old(quota), before, active', was, applied, u);
        active' := active'[u.name := Limit(x.now + x.rule.durationSeconds, x.rule.coresX10)];
        applied := applied + [u];
      }
      assert done == x.users.Keys by {
        assert users[..|users|] == users;
        forall n | n in x.users ensures n in done { assert x.users[n] in users; }
      }
    }

    /** Lifts the caps of a pass whose state could not be saved, and adds what could not be lifted to the
        cause. */
    method RollbackCaps(applied: seq<User>, f: Faults, ghost users: map<string, User>, cause: seq<Problem>)
        returns (errs: seq<Problem>)
      requires forall u :: u in applied ==> u.name in users && users[u.name] == u
      requires forall n :: RollbackQuota(n) !in cause
      modifies this`quota
      ensures forall n :: At(quota, n) == AfterRollback(old(quota), users, Names(applied), f, n)
      ensures forall n :: RollbackQuota(n) in errs <==> n in f.rollback * Names(applied)
      ensures cause <= errs
    {
      errs := cause;
      for i := 0 to |applied|
        invariant forall n :: At(quota, n) == AfterRollback(old(quota), users, Names(applied[..i]), f, n)
        invariant forall n :: RollbackQuota(n) in errs <==> n in f.rollback * Names(applied[..i])
        invariant cause <= errs
      {
        var u := applied[i];
        NamesGrow(applied, i);
        assert u in applied;
        ghost var was, before := errs, quota;
        var ok := SetCPU(u.name, u.cpu, u.name in f.rollback);
        if !ok { errs := errs + [RollbackQuota(u.name)]; }
        assert forall n :: RollbackQuota(n) in errs <==> RollbackQuota(n) in was || (!ok && n == u.name);
        forall n ensures At(quota, n) == AfterRollback(old(quota), users, Names(applied[..i + 1]), f, n) {
          assert At(before, n) == AfterRollback(old(quota), users, Names(applied[..i]), f, n);
        }
      }
      assert applied[..|applied|] == applied;
    }

    /** The end of a pass: the new state is saved, or the caps it would have recorded are lifted. */
    method Conclude(active: map<string, Limit>, changed: bool, applied: seq<User>, first: seq<Problem>, x: Input,
        ghost s: State, ghost mid: map<string, int>) returns (errs: seq<Problem>)
      requires WellFormed(x) && !Aborted(x) && stored == s.stored
      requires QuotaRestored(s, x, mid) && CapsDone(s, x, mid, x.users.Keys, active, quota, applied)
      requires changed <==> Changed(s, x)
      requires forall n :: RollbackQuota(n) !in first
      modifies this
      ensures Pass(s, View(), x)
      ensures forall n :: RollbackQuota(n) in errs <==> Unlifted(s, x, n)
      ensures first <= errs && (errs == first <==> !(Changed(s, x) && x.f.save))
    {
      errs := first;
      if changed {
        if x.f.save {
          ghost var capped := quota;
          errs := RollbackCaps(applied, x.f, x.users, errs + [SaveState]);
          RolledBack(s, x, mid, active, capped, quota, applied);
          return;
        }
        stored := active;
      }
      SavedPass(s, x, mid, active, quota, applied);
      assert forall n :: Unlifted(s, x, n) ==> Changed(s, x);
    }

    /** One pass. Errors are returned as the list of problems that the joined error names. */
    method EnforceCPULimits(rule: Rule, now: int, users: seq<User>, samples: map<int, seq<Sample>>, f: Faults)
        returns (errs: seq<Problem>)
      requires DistinctNames(users)
      modifies this
      ensures Pass(old(View()), View(), InputOf(rule, now, users, samples, f))
      ensures forall n :: RollbackQuota(n) in errs <==> Unlifted(old(View()), InputOf(rule, now, users, samples, f), n)
      ensures errs != [] <==> Fails(old(View()), InputOf(rule, now, users, samples, f))
      ensures f.load || f.users ==> View() == old(View())
      ensures NoFaults(f) ==> CapsTheBusy(old(stored), stored, rule, now, users, samples)
    {
      ghost var s := View();
      var x := InputOf(rule, now, users, samples, f);
      Named(users);
      if f.load { return [LoadState]; }
      if f.users { return [ListUsers]; }
      var active, changed, first := RestorePhase(x.users, x);
      var applied: seq<User> := [];
      ghost var mid := quota;
      if On(rule) {
        var second := Some(Samples);
        if !f.samples { active, applied, second := ApplyPhase(users, samples, active, x, s); }
        if first.None? { first := second; }
      }
      ChangedExactly(s, x, mid, active, quota, applied);
      errs := Conclude(active, changed || applied != [], applied, if first.Some? then [first.value] else [], x, s, mid);
      if NoFaults(f) { AllCappedExactly(s, View(), rule, now, users, samples, f); }
    }
  }
}
