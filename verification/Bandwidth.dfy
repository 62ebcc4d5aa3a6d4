/** Monthly bandwidth: cumulative counters turned into totals, across late samples, restarts and new months. */
module Bandwidth {
  import opened Common

  // ---- one counter

  /** One direction of one account's row: the month's total and the last counter seen. */
  datatype Meter = Meter(total: nat, last: nat)

  /** The row: its month, both directions, and what identifies the run of the container. */
  datatype Row = Row(period: string, down: Meter, up: Meter, pid: int, boot: int)

  datatype Sample = Sample(period: string, rx: nat, tx: nat, pid: int, boot: int)

  /** The container was restarted since the row was written: another boot time, or, from callers that have
      none, another init process. */
  predicate Restarted(r: Row, s: Sample) {
    (s.boot != 0 && s.boot != r.boot) || (s.boot == 0 && s.pid != 0 && s.pid != r.pid)
  }

  function Delta(last: nat, counter: nat, restarted: bool): nat {
    if counter >= last then counter - last
    else if restarted then counter
    else 0
  }

  function Advance(m: Meter, counter: nat, rollover: bool, restarted: bool): Meter {
    Meter((if rollover then 0 else m.total) + Delta(m.last, counter, restarted), counter)
  }

  /** The upsert: an account's first row starts with zero totals whatever its counters are. */
  function Upsert(row: Option<Row>, s: Sample): Row {
    match row
    case None => Row(s.period, Meter(0, s.rx), Meter(0, s.tx), s.pid, s.boot)
    case Some(r) =>
      Row(s.period,
        Advance(r.down, s.rx, r.period != s.period, Restarted(r, s)),
        Advance(r.up, s.tx, r.period != s.period, Restarted(r, s)), s.pid, s.boot)
  }

  function ZeroTotals(r: Row): Row { r.(down := Meter(0, r.down.last), up := Meter(0, r.up.last)) }

  // ---- runs of samples

  function RunFrom(r: Row, ss: seq<Sample>): Row {
    if ss == [] then r else Upsert(Some(RunFrom(r, ss[..|ss| - 1])), ss[|ss| - 1])
  }

  /** One direction of the row and of a sample; `down` picks which. */
  function MeterOf(r: Row, down: bool): Meter { if down then r.down else r.up }

  function Counter(s: Sample, down: bool): nat { if down then s.rx else s.tx }

  /** All samples belong to the row's month, and to the run of the container the row was written in. */
  predicate OneMonth(r: Row, ss: seq<Sample>) { forall i :: 0 <= i < |ss| ==> ss[i].period == r.period }

  predicate OneBoot(r: Row, ss: seq<Sample>) {
    forall i :: 0 <= i < |ss| ==> (ss[i].boot == r.boot != 0) || (ss[i].boot == 0 == r.boot && ss[i].pid == r.pid)
  }

  /** The counter seen before sample i. */
  function Before(first: nat, ss: seq<Sample>, i: nat, down: bool): nat
    requires i <= |ss|
  {
    if i == 0 then first else Counter(ss[i - 1], down)
  }

  function Drop(a: nat, b: nat): nat { if b < a then a - b else 0 }

  /** The sum of all steps back: how far late samples threw the baseline back. */
  function Backward(first: nat, ss: seq<Sample>, down: bool): nat {
    if ss == [] then 0
    else
      Backward(first, ss[..|ss| - 1], down) + Drop(Before(first, ss, |ss| - 1, down), Counter(ss[|ss| - 1], down))
  }

  predicate InOrder(first: nat, ss: seq<Sample>, down: bool) {
    forall i :: 0 <= i < |ss| ==> Before(first, ss, i, down) <= Counter(ss[i], down)
  }

  /** In one month and one boot, what a run of samples adds is the last counter minus the first baseline plus
      the sum of all steps back. */
  lemma {:induction false} AddedExactly(r: Row, ss: seq<Sample>, down: bool)
    requires OneMonth(r, ss) && OneBoot(r, ss)
    ensures MeterOf(RunFrom(r, ss), down).total == MeterOf(r, down).total +
      (Before(MeterOf(r, down).last, ss, |ss|, down) - MeterOf(r, down).last) + Backward(MeterOf(r, down).last, ss, down)
    ensures MeterOf(RunFrom(r, ss), down).last == Before(MeterOf(r, down).last, ss, |ss|, down)
    ensures RunFrom(r, ss).period == r.period && RunFrom(r, ss).boot == r.boot
    ensures r.boot == 0 ==> RunFrom(r, ss).pid == r.pid
  {
    if ss != [] {
      AddedExactly(r, ss[..|ss| - 1], down);
    }
  }

  /** The count is exact if and only if no sample came late. */
  lemma {:induction false} ExactIffInOrder(r: Row, ss: seq<Sample>, down: bool)
    requires OneMonth(r, ss) && OneBoot(r, ss)
    ensures InOrder(MeterOf(r, down).last, ss, down) <==>
      (MeterOf(RunFrom(r, ss), down).total - MeterOf(r, down).total ==
        Before(MeterOf(r, down).last, ss, |ss|, down) - MeterOf(r, down).last)
  {
    AddedExactly(r, ss, down);
    BackwardZero(MeterOf(r, down).last, ss, down);
  }

  lemma {:induction false} BackwardZero(first: nat, ss: seq<Sample>, down: bool)
    ensures Backward(first, ss, down) == 0 <==> InOrder(first, ss, down)
  {
    if ss != [] {
      var k := |ss| - 1;
      BackwardZero(first, ss[..k], down);
      assert forall i :: 0 <= i < k ==> Before(first, ss[..k], i, down) == Before(first, ss, i, down);
      assert InOrder(first, ss, down) <==>
        InOrder(first, ss[..k], down) && Before(first, ss, k, down) <= Counter(ss[k], down);
    }
  }

  // ---- restarts

  /** What a container really did: in each stretch between two samples it either kept running and moved
      `moved` bytes, or restarted at least once, moved `lost` bytes before the last restart and `moved` after. */
  datatype Stretch = Kept(moved: nat) | Rebooted(lost: nat, moved: nat)

  /** The counter at the end of a stretch. */
  function CounterAfter(c: nat, t: Stretch): nat {
    match t
    case Kept(m) => c + m
    case Rebooted(_, m) => m
  }

  function Moved(t: Stretch): nat {
    match t
    case Kept(m) => m
    case Rebooted(l, m) => l + m
  }

  /** What the stretch hides: the bytes before the restart, and all of the old counter when the new one has
      already passed it. */
  function Hidden(c: nat, t: Stretch): nat {
    match t
    case Kept(_) => 0
    case Rebooted(l, m) => if m >= c then l + c else l
  }

  /** Sample i was taken in order, and tells whether the container was restarted: by its boot time, or, if it has
      none, by its init process. */
  predicate Faithful(boot: int, pid: int, c: nat, ss: seq<Sample>, ts: seq<Stretch>, down: bool) {
    && |ss| == |ts|
    && forall i :: 0 <= i < |ss| ==>
      && Counter(ss[i], down) == CounterAfter(Before(c, ss, i, down), ts[i])
      && (ss[i].boot != 0 ==> (ts[i].Rebooted? <==> ss[i].boot != BootBefore(boot, ss, i)))
      && (ss[i].boot == 0 ==> ss[i].pid != 0 && (ts[i].Rebooted? <==> ss[i].pid != PidBefore(pid, ss, i)))
  }

  function BootBefore(boot: int, ss: seq<Sample>, i: nat): int
    requires i <= |ss|
  {
    if i == 0 then boot else ss[i - 1].boot
  }

  function PidBefore(pid: int, ss: seq<Sample>, i: nat): int
    requires i <= |ss|
  {
    if i == 0 then pid else ss[i - 1].pid
  }

  function TrueTraffic(ts: seq<Stretch>): nat {
    if ts == [] then 0 else TrueTraffic(ts[..|ts| - 1]) + Moved(ts[|ts| - 1])
  }

  function Loss(c: nat, ss: seq<Sample>, ts: seq<Stretch>, down: bool): nat
    requires |ss| == |ts|
  {
    if ts == [] then 0
    else Loss(c, ss[..|ss| - 1], ts[..|ts| - 1], down) + Hidden(Before(c, ss, |ss| - 1, down), ts[|ts| - 1])
  }

  /** One sample over one stretch: what it adds and what the restart hid are what moved. */
  lemma OneStretch(q: Row, s: Sample, t: Stretch, down: bool)
    requires q.period == s.period && Counter(s, down) == CounterAfter(MeterOf(q, down).last, t)
    requires t.Rebooted? <==> Restarted(q, s)
    ensures var m := MeterOf(Upsert(Some(q), s), down);
      m.total + Hidden(MeterOf(q, down).last, t) == MeterOf(q, down).total + Moved(t) && m.last == Counter(s, down)
  {
  }

  lemma FaithfulFront(r: Row, ss: seq<Sample>, ts: seq<Stretch>, down: bool)
    requires ss != [] && Faithful(r.boot, r.pid, MeterOf(r, down).last, ss, ts, down)
    ensures var k := |ss| - 1; Faithful(r.boot, r.pid, MeterOf(r, down).last, ss[..k], ts[..k], down)
  {
    var k, c := |ss| - 1, MeterOf(r, down).last;
    forall i | 0 <= i < k ensures Before(c, ss[..k], i, down) == Before(c, ss, i, down)
      && BootBefore(r.boot, ss[..k], i) == BootBefore(r.boot, ss, i) && PidBefore(r.pid, ss[..k], i) == PidBefore(r.pid, ss, i)
    {
    }
  }

  /** Across any number of restarts, in-order samples never count more than the true traffic, and the gap is
      exactly what restarts hid. */
  lemma {:induction false} NeverOvercounts(r: Row, ss: seq<Sample>, ts: seq<Stretch>, down: bool)
    requires OneMonth(r, ss) && Faithful(r.boot, r.pid, MeterOf(r, down).last, ss, ts, down)
    ensures MeterOf(RunFrom(r, ss), down).total + Loss(MeterOf(r, down).last, ss, ts, down) ==
      MeterOf(r, down).total + TrueTraffic(ts)
    ensures MeterOf(RunFrom(r, ss), down).last == Before(MeterOf(r, down).last, ss, |ss|, down)
    ensures RunFrom(r, ss).period == r.period
    ensures RunFrom(r, ss).boot == BootBefore(r.boot, ss, |ss|) && RunFrom(r, ss).pid == PidBefore(r.pid, ss, |ss|)
  {
    if ss != [] {
      var k := |ss| - 1;
      FaithfulFront(r, ss, ts, down);
      NeverOvercounts(r, ss[..k], ts[..k], down);
      OneStretch(RunFrom(r, ss[..k]), ss[k], ts[k], down);
    }
  }

  // ---- a reset and a new month

  /** After a reset the total counts from the counter last seen before it, whatever the total had been. */
  lemma ResetCountsFromBaseline(r: Row, ss: seq<Sample>, down: bool)
    requires OneMonth(r, ss) && OneBoot(r, ss)
    ensures MeterOf(RunFrom(ZeroTotals(r), ss), down).total ==
      (Before(MeterOf(r, down).last, ss, |ss|, down) - MeterOf(r, down).last) + Backward(MeterOf(r, down).last, ss, down)
  {
    AddedExactly(ZeroTotals(r), ss, down);
  }

  /** A sample that opens a new month acts like a reset just before it. */
  lemma {:induction false} RolloverIsReset(r: Row, ss: seq<Sample>)
    requires ss != [] && ss[0].period != r.period
    ensures RunFrom(r, ss) == RunFrom(ZeroTotals(r).(period := ss[0].period), ss)
  {
    if |ss| == 1 {
      assert RunFrom(r, ss[..0]) == r;
      var q := ZeroTotals(r).(period := ss[0].period);
      assert RunFrom(q, ss[..0]) == q;
      assert Restarted(r, ss[0]) == Restarted(q, ss[0]);
    } else {
      RolloverIsReset(r, ss[..|ss| - 1]);
    }
  }

  /** So a month's total counts from the last counter of the month before. */
  lemma MonthCountsFromBaseline(r: Row, ss: seq<Sample>, down: bool)
    requires ss != [] && ss[0].period != r.period
    requires OneMonth(r.(period := ss[0].period), ss) && OneBoot(r, ss)
    ensures MeterOf(RunFrom(r, ss), down).total ==
      (Before(MeterOf(r, down).last, ss, |ss|, down) - MeterOf(r, down).last) + Backward(MeterOf(r, down).last, ss, down)
  {
    RolloverIsReset(r, ss);
    AddedExactly(ZeroTotals(r).(period := ss[0].period), ss, down);
  }

  // ---- one transaction of the sampler

  datatype Snapshot = Snapshot(user: int, minute: int, data: int)

  datatype Observation = Observation(user: int, rx: nat, tx: nat, boot: int)

  /** The tables the transaction touches: at most one snapshot per account and minute, one row per account. */
  datatype Tables = Tables(snapshots: map<(int, int), Snapshot>, rows: map<int, Row>)

  function InsertAll(m: map<(int, int), Snapshot>, batch: seq<Snapshot>): map<(int, int), Snapshot> {
    if batch == [] then m
    else
      var s := batch[|batch| - 1];
      InsertAll(m, batch[..|batch| - 1])[(s.user, s.minute) := s]
  }

  function ToSample(o: Observation, period: string): Sample { Sample(period, o.rx, o.tx, 0, o.boot) }

  function RowOf(rows: map<int, Row>, u: int): Option<Row> { if u in rows then Some(rows[u]) else None }

  function ApplyAll(rows: map<int, Row>, obs: seq<Observation>, period: string): map<int, Row> {
    if obs == [] then rows
    else
      var before := ApplyAll(rows, obs[..|obs| - 1], period);
      var o := obs[|obs| - 1];
      before[o.user := Upsert(RowOf(before, o.user), ToSample(o, period))]
  }

  function Since(m: map<(int, int), Snapshot>, cutoff: int): map<(int, int), Snapshot> {
    map k | k in m && k.1 >= cutoff :: m[k]
  }

  /** What the batch leaves: per account and minute the last snapshot given for it, else the old one. */
  lemma {:induction false} InsertAllMeans(m: map<(int, int), Snapshot>, batch: seq<Snapshot>, u: int, minute: int)
    ensures var k := (u, minute); var m' := InsertAll(m, batch);
      if exists i :: 0 <= i < |batch| && IsFor(batch[i], u, minute) then
        k in m' && exists i :: LastFor(batch, i, u, minute) && m'[k] == batch[i]
      else (k in m' <==> k in m) && (k in m ==> m'[k] == m[k])
  {
    if batch != [] {
      var n := |batch| - 1;
      var front := batch[..n];
      InsertAllMeans(m, front, u, minute);
      assert forall i :: 0 <= i < n ==> front[i] == batch[i];
      if IsFor(batch[n], u, minute) {
        assert LastFor(batch, n, u, minute);
      } else if exists i :: 0 <= i < n && IsFor(front[i], u, minute) {
        var i :| LastFor(front, i, u, minute) && InsertAll(m, front)[(u, minute)] == front[i];
        assert LastFor(batch, i, u, minute);
      }
    }
  }

  /** So per account and minute there is one snapshot, the last one given, and none from before the cutoff. */
  lemma SnapshotsKept(m: map<(int, int), Snapshot>, batch: seq<Snapshot>, cutoff: int, u: int, minute: int)
    ensures var k := (u, minute); var m' := Since(InsertAll(m, batch), cutoff);
      if minute < cutoff then k !in m'
      else if exists i :: 0 <= i < |batch| && IsFor(batch[i], u, minute) then
        k in m' && exists i :: LastFor(batch, i, u, minute) && m'[k] == batch[i]
      else (k in m' <==> k in m) && (k in m ==> m'[k] == m[k])
  {
    InsertAllMeans(m, batch, u, minute);
  }

  predicate IsFor(s: Snapshot, u: int, minute: int) { s.user == u && s.minute == minute }

  predicate LastFor(batch: seq<Snapshot>, i: int, u: int, minute: int) {
    0 <= i < |batch| && IsFor(batch[i], u, minute) && forall j :: i < j < |batch| ==> !IsFor(batch[j], u, minute)
  }

  /** The samples of one account among the observations, in order. */
  function SamplesOf(obs: seq<Observation>, u: int, period: string): seq<Sample> {
    if obs == [] then []
    else
      var o := obs[|obs| - 1];
      SamplesOf(obs[..|obs| - 1], u, period) + if o.user == u then [ToSample(o, period)] else []
  }

  /** A run of samples for an account that may not have a row yet. */
  function RunRow(row: Option<Row>, ss: seq<Sample>): Option<Row> {
    if ss == [] then row else Some(Upsert(RunRow(row, ss[..|ss| - 1]), ss[|ss| - 1]))
  }

  lemma {:induction false} RunRowFrom(r: Row, ss: seq<Sample>)
    ensures RunRow(Some(r), ss) == Some(RunFrom(r, ss))
  {
    if ss != [] { RunRowFrom(r, ss[..|ss| - 1]); }
  }

  /** The batch runs every account's row through exactly its own observations. */
  lemma {:induction false} ApplyAllPerAccount(rows: map<int, Row>, obs: seq<Observation>, period: string, u: int)
    ensures RowOf(ApplyAll(rows, obs, period), u) == RunRow(RowOf(rows, u), SamplesOf(obs, u, period))
  {
    if obs != [] {
      var n := |obs| - 1;
      ApplyAllPerAccount(rows, obs[..n], period, u);
      var before, s := SamplesOf(obs[..n], u, period), ToSample(obs[n], period);
      RunRowStep(RowOf(rows, u), before, s);
      assert SamplesOf(obs, u, period) == if obs[n].user == u then before + [s] else before;
    }
  }

  /** Of a new account's run of samples, in one month and one boot: nothing is counted before its first sample. */
  predicate OneRun(ss: seq<Sample>) {
    ss != [] && OneMonth(FirstRow(ss[0]), ss) && OneBoot(FirstRow(ss[0]), ss)
  }

  function FirstRow(s: Sample): Row { Row(s.period, Meter(0, s.rx), Meter(0, s.tx), s.pid, s.boot) }

  lemma {:induction false} RunRowNew(ss: seq<Sample>)
    requires ss != []
    ensures RunRow(None, ss) == Some(RunFrom(FirstRow(ss[0]), ss[1..]))
  {
    if |ss| == 1 {
      assert ss[..0] == [] && ss[1..] == [];
    } else {
      RunRowNew(ss[..|ss| - 1]);
      assert ss[1..][..|ss| - 2] == ss[..|ss| - 1][1..];
    }
  }

  /** A new account's total is its last counter minus its first, plus the sum of all steps back in between. */
  lemma NewAccountExactly(ss: seq<Sample>, down: bool)
    requires OneRun(ss)
    ensures RunRow(None, ss).Some?
    ensures var m := MeterOf(RunRow(None, ss).value, down); var first := Counter(ss[0], down);
      && m.total == Counter(ss[|ss| - 1], down) - first + Backward(first, ss[1..], down)
      && m.last == Counter(ss[|ss| - 1], down)
  {
    RunRowNew(ss);
    AddedExactly(FirstRow(ss[0]), ss[1..], down);
  }

  /** The last observation of an account. */
  predicate LastOf(obs: seq<Observation>, i: int, u: int) {
    0 <= i < |obs| && obs[i].user == u && forall j :: i < j < |obs| ==> obs[j].user != u
  }

  /** After the batch an account's row holds the counters of its last observation, downloads being what it received,
      and counts in the given month. */
  lemma {:induction false} LastCountersStored(rows: map<int, Row>, obs: seq<Observation>, period: string, i: int, u: int)
    requires LastOf(obs, i, u)
    ensures u in ApplyAll(rows, obs, period)
    ensures var r := ApplyAll(rows, obs, period)[u];
      r.down.last == obs[i].rx && r.up.last == obs[i].tx && r.boot == obs[i].boot && r.period == period
  {
    if i < |obs| - 1 { LastCountersStored(rows, obs[..|obs| - 1], period, i, u); }
  }

  /** And its totals grew, in one month and one boot, by the last counter minus the first baseline plus the sum of all
      steps back: an old account's baseline is in its row, a new one's is its own first sample. */
  lemma BatchCountsExactly(rows: map<int, Row>, obs: seq<Observation>, period: string, u: int, down: bool)
    ensures var ss, row := SamplesOf(obs, u, period), RowOf(ApplyAll(rows, obs, period), u);
      && (u in rows && OneMonth(rows[u], ss) && OneBoot(rows[u], ss) ==>
        var m := MeterOf(rows[u], down);
        row.Some? && MeterOf(row.value, down).total == m.total + (Before(m.last, ss, |ss|, down) - m.last) + Backward(m.last, ss, down))
      && (u !in rows && OneRun(ss) ==>
        var first := Counter(ss[0], down);
        row.Some? && MeterOf(row.value, down).total == Counter(ss[|ss| - 1], down) - first + Backward(first, ss[1..], down))
  {
    ApplyAllPerAccount(rows, obs, period, u);
    var ss := SamplesOf(obs, u, period);
    if u in rows {
      RunRowFrom(rows[u], ss);
      if OneMonth(rows[u], ss) && OneBoot(rows[u], ss) { AddedExactly(rows[u], ss, down); }
    } else if OneRun(ss) {
      NewAccountExactly(ss, down);
    }
  }

  lemma RunRowStep(row: Option<Row>, ss: seq<Sample>, s: Sample)
    ensures RunRow(row, ss + [s]) == Some(Upsert(RunRow(row, ss), s))
  {
  }

  function ResetRow(row: Option<Row>, reset: bool): Option<Row> {
    if reset && row.Some? then Some(ZeroTotals(row.value)) else row
  }

  class Store {
    var tables: Tables

    /** Records a batch in one transaction. `failAt` is the number of the statement that fails, counting begin,
        prepare, the inserts, close, the upserts, the deletion and commit; no such number, no failure. */
    method RecordResourceSamples(batch: seq<Snapshot>, obs: seq<Observation>, period: string, cutoff: int, failAt: int)
        returns (ok: bool)
      modifies this
      ensures ok <==> !(0 <= failAt < |batch| + |obs| + 5)
      ensures !ok ==> tables == old(tables)
      ensures ok ==> tables == Tables(Since(InsertAll(old(tables.snapshots), batch), cutoff), ApplyAll(old(tables.rows), obs, period))
    {
      if failAt == 0 { return false; }
      var work := tables;
      if failAt == 1 { return false; }
      for i := 0 to |batch|
        invariant work == tables.(snapshots := InsertAll(tables.snapshots, batch[..i]))
        invariant !(0 <= failAt < i + 2)
      {
        if failAt == i + 2 { return false; }
        assert batch[..i + 1][..i] == batch[..i];
        work := work.(snapshots := work.snapshots[(batch[i].user, batch[i].minute) := batch[i]]);
      }
      if failAt == |batch| + 2 { return false; }
      assert batch[..|batch|] == batch;
      for i := 0 to |obs|
        invariant work == Tables(InsertAll(tables.snapshots, batch), ApplyAll(tables.rows, obs[..i], period))
        invariant !(0 <= failAt < |batch| + 3 + i)
      {
        if failAt == |batch| + 3 + i { return false; }
        assert obs[..i + 1][..i] == obs[..i];
        var o := obs[i];
        work := work.(rows := work.rows[o.user := Upsert(RowOf(work.rows, o.user), ToSample(o, period))]);
      }
      assert obs[..|obs|] == obs;
      if failAt == |batch| + |obs| + 3 { return false; }
      work := work.(snapshots := Since(work.snapshots, cutoff));
      if failAt == |batch| + |obs| + 4 { return false; }
      tables := work;
      ok := true;
    }

    /** The admin's reset: totals to zero, baselines kept. */
    method ResetBandwidth(u: int, fails: bool) returns (ok: bool)
      modifies this
      ensures ok == !fails && tables.snapshots == old(tables.snapshots)
      ensures forall v :: RowOf(tables.rows, v) == ResetRow(RowOf(old(tables.rows), v), v == u && !fails)
    {
      if fails { return false; }
      if u in tables.rows { tables := tables.(rows := tables.rows[u := ZeroTotals(tables.rows[u])]); }
      ok := true;
    }
  }
}
