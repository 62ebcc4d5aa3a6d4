/** The bandwidth throttle: a map of throttled containers kept next to the limits the containers really have. */
module Throttle {
  import opened Common

  // ---- shouldThrottle, in 64-bit arithmetic

  const WORD: int := 0x1_0000_0000_0000_0000
  const GIB: int := 0x4000_0000
  const QUOTA_WRAPS: int := 0x4_0000_0000  // the first quota whose byte count no longer fits in 64 bits

  predicate ShouldThrottle(used: nat, quotaGB: int) {
    quotaGB > 0 && used >= (quotaGB * GIB) % WORD
  }

  function UsedBytes(up: nat, down: nat): nat { (up + down) % WORD }

  /** For every month whose bytes fit in 64 bits the decision compares them with the quota. */
  ghost predicate ComparesBytes(quotaGB: int) {
    forall up: nat, down: nat :: up + down < WORD ==>
      (ShouldThrottle(UsedBytes(up, down), quotaGB) <==> up + down >= quotaGB * GIB)
  }

  /** The exact condition: the quota's bytes have to fit in 64 bits, that is, it is below 2^34 GiB. */
  lemma ThrottleMeansExactly(quotaGB: int)
    requires quotaGB > 0
    ensures ComparesBytes(quotaGB) <==> quotaGB < QUOTA_WRAPS
  {
    var bytes := quotaGB * GIB;
    if quotaGB < QUOTA_WRAPS {
      assert bytes < WORD;
    } else {
      assert bytes >= WORD;
      var up := bytes % WORD;
      assert UsedBytes(up, 0) == up && ShouldThrottle(UsedBytes(up, 0), quotaGB) && up + 0 < bytes;
    }
  }

  const SIGNED: int := 0x8000_0000_0000_0000  // totals are stored as signed 64-bit integers

  /** The same for the months the database can hold. */
  ghost predicate ComparesStored(quotaGB: int) {
    forall up: nat, down: nat :: up < SIGNED && down < SIGNED ==>
      (ShouldThrottle(UsedBytes(up, down), quotaGB) <==> up + down >= quotaGB * GIB)
  }

  /** Two stored totals never wrap when they are added, so the quota alone decides here too. */
  lemma StoredTotalsExactly(quotaGB: int)
    requires quotaGB > 0
    ensures forall up: nat, down: nat :: up < SIGNED && down < SIGNED ==> UsedBytes(up, down) == up + down
    ensures ComparesStored(quotaGB) <==> quotaGB < QUOTA_WRAPS
  {
    ThrottleMeansExactly(quotaGB);
    if quotaGB >= QUOTA_WRAPS {
      var bytes := quotaGB * GIB;
      var used := bytes % WORD;
      GibMultiple(quotaGB);
      var up, down := used / 2, used - used / 2;
      assert UsedBytes(up, down) == used && ShouldThrottle(UsedBytes(up, down), quotaGB) && up + down < bytes;
    }
  }

  lemma GibMultiple(q: nat)
    ensures (q * GIB) % WORD <= WORD - GIB
  {
    var rest := q % QUOTA_WRAPS;
    assert q * GIB == q / QUOTA_WRAPS * WORD + rest * GIB;
    assert (q * GIB) % WORD == rest * GIB;
  }

  /** The failing input: a quota of 2^34 GiB throttles an account that moved nothing at all. */
  lemma HugeQuotaThrottles()
    ensures ShouldThrottle(UsedBytes(0, 0), QUOTA_WRAPS) && !ComparesBytes(QUOTA_WRAPS)
  {
    ThrottleMeansExactly(QUOTA_WRAPS);
  }

  // ---- the state and its steps

  datatype Account = Account(quotaGB: int, up: nat, down: nat)

  /** The accounts, the process's map of throttled containers (None before the first pass), and the
      containers whose NIC really carries the limit. */
  datatype State = State(accounts: map<string, Account>, throttled: Option<set<string>>, limited: set<string>)

  datatype Faults = Faults(
    list: bool,            // the account list cannot be read
    rates: set<string>,    // reading the container's present limit fails
    totals: set<string>,   // reading the account's totals fails: it counts as having moved nothing
    calls: set<string>)    // changing the container's limit fails

  /** A total that has outgrown its column can no longer be read. */
  predicate Stored(a: Account) { a.up < SIGNED && a.down < SIGNED }

  predicate OverQuota(a: Account, unread: bool) {
    ShouldThrottle(if unread || !Stored(a) then 0 else UsedBytes(a.up, a.down), a.quotaGB)
  }

  predicate Over(s: State, f: Faults, n: string)
    requires n in s.accounts
  {
    OverQuota(s.accounts[n], n in f.totals)
  }

  /** The map as the pass works with it: built from the containers on the first pass. */
  function Primed(s: State, f: Faults): set<string> {
    match s.throttled
    case Some(t) => t
    case None => set n | n in s.accounts && n in s.limited && n !in f.rates
  }

  /** The pass changes the limit of n. */
  predicate Switched(s: State, f: Faults, n: string) {
    n in s.accounts && Over(s, f, n) != (n in Primed(s, f)) && n !in f.calls
  }

  /** The state after a pass: exactly the switched accounts get the limit they should have. */
  ghost function AfterPass(s: State, f: Faults): State {
    if f.list then s
    else
      var on := set n | n in s.accounts && Switched(s, f, n) && Over(s, f, n);
      var off := set n | n in s.accounts && Switched(s, f, n) && !Over(s, f, n);
      State(s.accounts, Some(Primed(s, f) - off + on), s.limited - off + on)
  }

  datatype Event =
    | Pass(f: Faults)
    | Reset(name: string, dbFails: bool, callFails: bool)
    | Reinstall(name: string, finished: bool)  // not finished: the new container is there, a later step failed
    | Create(name: string, quotaGB: int)
    | Delete(name: string, rowFails: bool, sessionsFail: bool)  // the container is gone, a later step fails
    | Traffic(name: string, up: nat, down: nat)
    | Requota(name: string, quotaGB: int)
    | Restart

  function Unflag(t: Option<set<string>>, n: string): Option<set<string>> {
    match t
    case Some(v) => Some(v - {n})
    case None => None
  }

  predicate Flagged(s: State, n: string) { s.throttled.Some? && n in s.throttled.value }

  ghost function Next(s: State, e: Event): State {
    match e
    case Pass(f) => AfterPass(s, f)
    case Reset(n, dbFails, callFails) =>
      if n !in s.accounts || dbFails then s
      else
        var zeroed := s.(accounts := s.accounts[n := s.accounts[n].(up := 0, down := 0)]);
        if Flagged(s, n) && !callFails then zeroed.(throttled := Unflag(s.throttled, n), limited := s.limited - {n})
        else zeroed
    case Reinstall(n, finished) =>
      if n !in s.accounts then s
      else s.(limited := s.limited - {n}, throttled := if finished then Unflag(s.throttled, n) else s.throttled)
    case Create(n, q) =>
      if n in s.accounts then s else s.(accounts := s.accounts[n := Account(q, 0, 0)], limited := s.limited - {n})
    case Delete(n, rowFails, sessionsFail) =>
      if n !in s.accounts then s
      else
        var gone := s.(limited := s.limited - {n});
        if rowFails then gone
        else
          var rowGone := gone.(accounts := s.accounts - {n});
          if sessionsFail then rowGone else rowGone.(throttled := Unflag(s.throttled, n))
    case Traffic(n, up, down) =>
      if n !in s.accounts then s
      else s.(accounts := s.accounts[n := s.accounts[n].(up := s.accounts[n].up + up, down := s.accounts[n].down + down)])
    case Requota(n, q) =>
      if n !in s.accounts then s else s.(accounts := s.accounts[n := s.accounts[n].(quotaGB := q)])
    case Restart => s.(throttled := None)
  }

  // ---- the map agrees with the containers

  /** Once there is a map, it names exactly the accounts whose container carries the limit. */
  predicate Agrees(s: State) {
    s.throttled.Some? ==> s.throttled.value == s.limited * s.accounts.Keys
  }

  /** The limited containers the first pass could not ask about. */
  ghost function Missed(s: State, f: Faults): set<string> { s.limited * s.accounts.Keys * f.rates }

  /** The pass that builds the map asks every limited container, or limits the missed ones once more. */
  ghost predicate CleanPriming(s: State, f: Faults) {
    s.throttled.None? && !f.list ==> forall n :: n in Missed(s, f) ==> n in s.accounts && Over(s, f, n) && n !in f.calls
  }

  ghost predicate Orderly(s: State, e: Event) {
    match e
    case Pass(f) => CleanPriming(s, f)
    case Reinstall(n, finished) => finished || !Flagged(s, n) || n !in s.accounts
    case Delete(n, rowFails, sessionsFail) => !(rowFails || sessionsFail) || !Flagged(s, n) || n !in s.accounts
    case _ => true
  }

  /** The exact condition: an event keeps the agreement if and only if it is orderly. */
  lemma AgreementExact(s: State, e: Event)
    requires Agrees(s)
    ensures Agrees(Next(s, e)) <==> Orderly(s, e)
  {
    match e
    case Pass(f) => PassAgreement(s, f);
    case Reinstall(n, finished) =>
      var s' := Next(s, e);
      if s.throttled.Some? {
        assert n in s.accounts ==> (s.limited - {n}) * s.accounts.Keys == s.throttled.value - {n};
      }
    case Reset(n, dbFails, callFails) =>
      if s.throttled.Some? && n in s.accounts {
        assert Next(s, e).accounts.Keys == s.accounts.Keys;
        assert (s.limited - {n}) * s.accounts.Keys == s.throttled.value - {n};
      }
    case Create(n, q) =>
      if s.throttled.Some? && n !in s.accounts {
        assert Next(s, e).accounts.Keys == s.accounts.Keys + {n};
        assert (s.limited - {n}) * (s.accounts.Keys + {n}) == s.limited * s.accounts.Keys;
      }
    case Delete(n, rowFails, sessionsFail) =>
      if s.throttled.Some? && n in s.accounts {
        assert (s.limited - {n}) * (s.accounts.Keys - {n}) == s.throttled.value - {n};
        assert (s.limited - {n}) * s.accounts.Keys == s.throttled.value - {n};
        assert (s.accounts - {n}).Keys == s.accounts.Keys - {n};
      }
    case Traffic(n, up, down) => assert n in s.accounts ==> Next(s, e).accounts.Keys == s.accounts.Keys;
    case Requota(n, q) => assert n in s.accounts ==> Next(s, e).accounts.Keys == s.accounts.Keys;
    case Restart =>
  }

  lemma PassAgreement(s: State, f: Faults)
    requires Agrees(s)
    ensures Agrees(AfterPass(s, f)) <==> CleanPriming(s, f)
  {
    if !f.list {
      var s' := AfterPass(s, f);
      var t := s'.throttled.value;
      if CleanPriming(s, f) {
        forall n ensures n in t <==> n in s'.limited * s'.accounts.Keys { PassAt(s, f, n); }
      } else {
        var n :| n in Missed(s, f) && !(Over(s, f, n) && n !in f.calls);
        PassAt(s, f, n);
        assert n in s'.limited && n !in t;
      }
    }
  }

  /** The pass, account by account. */
  lemma PassAt(s: State, f: Faults, n: string)
    requires !f.list
    ensures var s' := AfterPass(s, f);
      if Switched(s, f, n) then Over(s, f, n) == (n in s'.limited) == (n in s'.throttled.value)
      else (n in s'.limited) == (n in s.limited) && (n in s'.throttled.value) == (n in Primed(s, f))
  {
  }

  // ---- the map is only a cache

  /** The loop without a map: every container's limit is written in every pass. */
  ghost function Rewritten(s: State, f: Faults): set<string> {
    var written := s.accounts.Keys - f.calls;
    (s.limited - written) + set n | n in s.accounts && n !in f.calls && Over(s, f, n)
  }

  /** With any calls failing, a pass over an agreeing map leaves the containers as rewriting them all would. */
  lemma CacheIsInvisible(s: State, f: Faults)
    requires Agrees(s) && (s.throttled.None? ==> Missed(s, f) == {}) && !f.list
    ensures AfterPass(s, f).limited == Rewritten(s, f)
  {
    forall n ensures n in AfterPass(s, f).limited <==> n in Rewritten(s, f) {
      PassAt(s, f, n);
      if s.throttled.None? && n in s.accounts && n in s.limited { assert n !in Missed(s, f); }
    }
  }

  /** After a pass that is not disturbed at n, whatever it meets elsewhere, the container of n is limited exactly if
      the month's bytes have reached a positive quota; totals that cannot be read count as nothing moved. */
  lemma UndisturbedPass(s: State, f: Faults, n: string)
    requires Agrees(s) && !f.list && n !in f.rates && n !in f.calls && n in s.accounts && s.accounts[n].quotaGB < QUOTA_WRAPS
    ensures var a := s.accounts[n]; var readable := n !in f.totals && a.up < SIGNED && a.down < SIGNED;
      n in AfterPass(s, f).limited <==> a.quotaGB > 0 && readable && a.up + a.down >= a.quotaGB * 0x4000_0000
  {
    var a := s.accounts[n];
    PassAt(s, f, n);
    if a.quotaGB > 0 {
      ThrottleMeansExactly(a.quotaGB);
      assert Over(s, f, n) <==> (if n in f.totals || !Stored(a) then 0 else a.up + a.down) >= a.quotaGB * GIB by {
        assert a.up + a.down < WORD || !Stored(a);
        assert ShouldThrottle(UsedBytes(0, 0), a.quotaGB) <==> 0 >= a.quotaGB * GIB;
      }
    }
  }

  ghost function After(s: State, events: seq<Event>): State {
    if events == [] then s else Next(After(s, events[..|events| - 1]), events[|events| - 1])
  }

  ghost predicate OrderlyRun(s: State, events: seq<Event>) {
    forall i :: 0 <= i < |events| ==> Orderly(After(s, events[..i]), events[i])
  }

  /** Over every run from an agreeing state (a fresh process is one) whose first passes could read the containers, and
      whose reinstalls and deletes of throttled accounts finished once the container was gone, the map agrees with the
      containers throughout. */
  lemma {:induction false} AgreesThroughout(s: State, events: seq<Event>)
    requires Agrees(s) && OrderlyRun(s, events)
    ensures Agrees(After(s, events))
    decreases |events|
  {
    if events != [] {
      var k := |events| - 1;
      var front := events[..k];
      forall i | 0 <= i < |front| ensures Orderly(After(s, front[..i]), front[i]) {
        assert front[..i] == events[..i] && Orderly(After(s, events[..i]), events[i]);
      }
      AgreesThroughout(s, front);
      AgreementExact(After(s, front), events[k]);
    }
  }

  // ---- a month of one account

  /** The bytes that the events moved for n, up and down. */
  function Moved(events: seq<Event>, n: string): (int, int) {
    if events == [] then (0, 0)
    else
      var before := Moved(events[..|events| - 1], n);
      match events[|events| - 1]
      case Traffic(m, up, down) => if m == n then (before.0 + up, before.1 + down) else before
      case _ => before
  }

  /** The event neither ends the month of n nor its account, nor gives it another quota. */
  predicate Ordinary(e: Event, n: string) {
    match e
    case Reset(m, _, _) => m != n
    case Delete(m, _, _) => m != n
    case Requota(m, _) => m != n
    case _ => true
  }

  lemma {:induction false} TotalsAreTraffic(s: State, events: seq<Event>, n: string)
    requires n in s.accounts && forall i :: 0 <= i < |events| ==> Ordinary(events[i], n)
    ensures var a, b := s.accounts[n], Moved(events, n);
      && n in After(s, events).accounts && After(s, events).accounts[n].quotaGB == a.quotaGB
      && After(s, events).accounts[n].up == a.up + b.0 && After(s, events).accounts[n].down == a.down + b.1
    decreases |events|
  {
    if events != [] {
      var k := |events| - 1;
      TotalsAreTraffic(s, events[..k], n);
      assert Ordinary(events[k], n);
    }
  }

  /** How a month of n starts: its account is created, or the admin resets it. */
  predicate Starts(s: State, e: Event, n: string, quotaGB: int) {
    || (n !in s.accounts && e == Create(n, quotaGB))
    || (n in s.accounts && s.accounts[n].quotaGB == quotaGB && e.Reset? && e.name == n && !e.dbFails)
  }

  /** From the start of a month, over every orderly run and whatever the month before had been: a pass limits the
      container exactly if the bytes moved since then have reached a positive quota. */
  lemma MonthDecides(s: State, e: Event, events: seq<Event>, f: Faults, n: string, quotaGB: int)
    requires Agrees(s) && Starts(s, e, n, quotaGB) && quotaGB < QUOTA_WRAPS
    requires OrderlyRun(Next(s, e), events) && forall i :: 0 <= i < |events| ==> Ordinary(events[i], n)
    requires Moved(events, n).0 < SIGNED && Moved(events, n).1 < SIGNED
    requires !f.list && n !in f.rates && n !in f.totals && n !in f.calls
    ensures n in AfterPass(After(Next(s, e), events), f).limited <==>
      quotaGB > 0 && Moved(events, n).0 + Moved(events, n).1 >= quotaGB * 0x4000_0000
  {
    var t := Next(s, e);
    AgreementExact(s, e);
    AgreesThroughout(t, events);
    TotalsAreTraffic(t, events, n);
    UndisturbedPass(After(t, events), f, n);
  }

  /** A new quota counts from the next pass on. */
  lemma NewQuotaDecides(s: State, f: Faults, n: string, quotaGB: int)
    requires Agrees(s) && n in s.accounts && Stored(s.accounts[n]) && quotaGB < QUOTA_WRAPS
    requires !f.list && n !in f.rates && n !in f.totals && n !in f.calls
    ensures n in AfterPass(Next(s, Requota(n, quotaGB)), f).limited <==>
      quotaGB > 0 && s.accounts[n].up + s.accounts[n].down >= quotaGB * 0x4000_0000
  {
    AgreementExact(s, Requota(n, quotaGB));
    UndisturbedPass(Next(s, Requota(n, quotaGB)), f, n);
  }

  // ---- what goes wrong otherwise

  /** The map and the container of n say different things. */
  predicate OutOfStep(s: State, n: string) {
    n in s.accounts && s.throttled.Some? && (n in s.throttled.value) != (n in s.limited)
  }

  /** What the event leaves as it is: a pass that finds the account where the map has it, or whose call fails; a
      reset that does not come to lifting a limit; a reinstall or delete that stops short of a flag it should
      clear. */
  predicate Overlooks(s: State, e: Event, n: string) {
    match e
    case Pass(f) => f.list || n !in s.accounts || Over(s, f, n) == Flagged(s, n) || n in f.calls
    case Reset(m, dbFails, callFails) => m != n || !Flagged(s, n) || dbFails || callFails
    case Reinstall(m, finished) => m != n || (Flagged(s, n) && !finished)
    case Delete(m, rowFails, _) => m != n || (Flagged(s, n) && rowFails)
    case Restart => false
    case _ => true
  }

  /** The exact condition for an account to stay out of step; it then stays so in the same way. */
  lemma OverlookedExactly(s: State, e: Event, n: string)
    requires OutOfStep(s, n)
    ensures OutOfStep(Next(s, e), n) <==> Overlooks(s, e, n)
    ensures Overlooks(s, e, n) ==> Flagged(Next(s, e), n) == Flagged(s, n)
  {
    if e.Pass? && !e.f.list { PassAt(s, e.f, n); }
  }

  ghost predicate OverlooksRun(s: State, events: seq<Event>, n: string) {
    forall i :: 0 <= i < |events| ==> Overlooks(After(s, events[..i]), events[i], n)
  }

  lemma {:induction false} OverlookedThroughout(s: State, events: seq<Event>, n: string)
    requires OutOfStep(s, n) && OverlooksRun(s, events, n)
    ensures OutOfStep(After(s, events), n) && Flagged(After(s, events), n) == Flagged(s, n)
    decreases |events|
  {
    if events != [] {
      var k := |events| - 1;
      var front := events[..k];
      forall i | 0 <= i < |front| ensures Overlooks(After(s, front[..i]), front[i], n) {
        assert front[..i] == events[..i] && Overlooks(After(s, events[..i]), events[i], n);
      }
      OverlookedThroughout(s, front, n);
      OverlookedExactly(After(s, front), events[k], n);
    }
  }

  /** Nothing happens to n but passes that find it under its quota, resets, traffic and other quotas. */
  ghost predicate UnderThroughout(s: State, events: seq<Event>, n: string) {
    forall i :: 0 <= i < |events| ==> UnderAt(After(s, events[..i]), events[i], n)
  }

  predicate UnderAt(s: State, e: Event, n: string) {
    match e
    case Pass(f) => f.list || (n in s.accounts && !Over(s, f, n))
    case Reinstall(m, _) => m != n
    case Delete(m, _, _) => m != n
    case Restart => false
    case _ => true
  }

  /** A limit the process does not know of stays for as long as every pass finds the account under its quota:
      neither those passes nor any reset of the month lift it. */
  lemma {:induction false} StaleLimitStays(s: State, events: seq<Event>, n: string)
    requires OutOfStep(s, n) && !Flagged(s, n) && UnderThroughout(s, events, n)
    ensures n in After(s, events).limited && OutOfStep(After(s, events), n) && !Flagged(After(s, events), n)
    decreases |events|
  {
    if events != [] {
      var k := |events| - 1;
      var front := events[..k];
      forall i | 0 <= i < |front| ensures UnderAt(After(s, front[..i]), front[i], n) {
        assert front[..i] == events[..i] && UnderAt(After(s, events[..i]), events[i], n);
      }
      StaleLimitStays(s, front, n);
      assert UnderAt(After(s, front), events[k], n);
      OverlookedExactly(After(s, front), events[k], n);
    }
  }

  /** How it comes about: one unanswered question on the first pass, about an account that is under its quota. */
  lemma OneMissedAnswer(s: State, f: Faults, n: string)
    requires s.throttled.None? && !f.list && n in Missed(s, f) && !Over(s, f, n)
    ensures OutOfStep(AfterPass(s, f), n) && !Flagged(AfterPass(s, f), n)
  {
    PassAt(s, f, n);
  }

  /** A reinstall that fails after the new container is up leaves a throttled account unlimited and flagged. */
  lemma UnfinishedReinstallEscapes(s: State, n: string)
    requires Agrees(s) && Flagged(s, n)
    ensures var t := Next(s, Reinstall(n, false)); OutOfStep(t, n) && Flagged(t, n) && n !in t.limited
  {
  }

  /** A delete that loses only its last step leaves the flag without an account; an account created under the
      same name is then flagged and unlimited from the start. */
  lemma UnfinishedDeleteEscapes(s: State, n: string, quotaGB: int)
    requires Agrees(s) && Flagged(s, n)
    ensures var t := Next(Next(s, Delete(n, false, true)), Create(n, quotaGB)); OutOfStep(t, n) && Flagged(t, n) && n !in t.limited
  {
    assert n in s.accounts;
    var gone := Next(s, Delete(n, false, true));
    assert n !in gone.accounts && Flagged(gone, n);
  }

  /** Such an account is never limited while every pass finds it over its quota. */
  lemma EscapeLasts(s: State, events: seq<Event>, n: string)
    requires OutOfStep(s, n) && Flagged(s, n) && OverlooksRun(s, events, n)
    ensures n !in After(s, events).limited
  {
    OverlookedThroughout(s, events, n);
  }

  // ---- the process itself

  datatype Problem = ListAccounts | Limiting(name: string) | Lifting(name: string)

  /** The accounts of the list whose limit had to change and whose call fails. */
  ghost function Failing(s: State, f: Faults, names: seq<string>): set<string> {
    set n | n in names && FailsAt(s, f, n)
  }

  predicate FailsAt(s: State, f: Faults, n: string) {
    n in s.accounts && Over(s, f, n) != (n in Primed(s, f)) && n in f.calls
  }

  /** The map and the limits once the accounts in `done` were visited. */
  ghost predicate Visited(s: State, f: Faults, done: seq<string>, t: set<string>, limited: set<string>) {
    forall n ::
      if n in done && Switched(s, f, n) then Over(s, f, n) == (n in t) == (n in limited)
      else (n in t) == (n in Primed(s, f)) && (n in limited) == (n in s.limited)
  }

  function Put(a: set<string>, n: string, on: bool): set<string> { if on then a + {n} else a - {n} }

  lemma VisitedStep(s: State, f: Faults, order: seq<string>, i: nat, t: set<string>, limited: set<string>)
    requires i < |order| && Distinct(order) && Visited(s, f, order[..i], t, limited) && order[i] in s.accounts
    ensures var n := order[i]; (n in t <==> n in Primed(s, f))
    ensures var n := order[i];
      if Switched(s, f, n) then Visited(s, f, order[..i + 1], Put(t, n, Over(s, f, n)), Put(limited, n, Over(s, f, n)))
      else Visited(s, f, order[..i + 1], t, limited)
  {
  }

  lemma FailingStep(s: State, f: Faults, order: seq<string>, i: nat)
    requires i < |order|
    ensures FailsAt(s, f, order[i]) ==> Failing(s, f, order[..i + 1]) != {}
    ensures !FailsAt(s, f, order[i]) ==> Failing(s, f, order[..i + 1]) == Failing(s, f, order[..i])
  {
    assert order[..i + 1] == order[..i] + [order[i]];
    assert FailsAt(s, f, order[i]) ==> order[i] in Failing(s, f, order[..i + 1]);
  }

  lemma VisitedAll(s: State, f: Faults, order: seq<string>, t: set<string>, limited: set<string>)
    requires Visited(s, f, order, t, limited) && !f.list && forall n :: n in s.accounts ==> n in order
    ensures State(s.accounts, Some(t), limited) == AfterPass(s, f)
  {
    var s' := AfterPass(s, f);
    forall n ensures (n in t <==> n in s'.throttled.value) && (n in limited <==> n in s'.limited) { PassAt(s, f, n); }
    assert t == s'.throttled.value && limited == s'.limited;
  }

  lemma FailingExactly(s: State, f: Faults, order: seq<string>, t: set<string>, limited: set<string>)
    requires Visited(s, f, order, t, limited) && !f.list && forall n :: n in s.accounts <==> n in order
    ensures Failing(s, f, order) == {} <==> forall n :: n in s.accounts ==> (n in t <==> OverQuota(s.accounts[n], n in f.totals))
  {
    if Failing(s, f, order) != {} {
      var n :| n in Failing(s, f, order);
      assert !Switched(s, f, n) && n in s.accounts && Over(s, f, n) != (n in t);
    } else {
      forall n | n in s.accounts ensures n in t <==> OverQuota(s.accounts[n], n in f.totals) {
        assert n !in Failing(s, f, order) && !FailsAt(s, f, n);
      }
    }
  }

  class Limiter {
    var accounts: map<string, Account>
    var throttled: Option<set<string>>
    var limited: set<string>

    ghost function View(): State
      reads this
    {
      State(accounts, throttled, limited)
    }

    /** The runtime call: it sets or clears the limit, or fails and changes nothing. */
    method EnsureNicRateLimit(n: string, on: bool, fails: bool) returns (ok: bool)
      modifies this`limited
      ensures ok == !fails
      ensures limited == if fails then old(limited) else if on then old(limited) + {n} else old(limited) - {n}
    {
      if !fails { limited := if on then limited + {n} else limited - {n}; }
      ok := !fails;
    }

    /** The first pass of a process learns from the containers which of them are limited. */
    method Prime(order: seq<string>, f: Faults)
      requires throttled.None? && forall n :: n in order <==> n in accounts
      modifies this`throttled
      ensures throttled == Some(Primed(old(View()), f))
    {
      var t: set<string> := {};
      for i := 0 to |order|
        invariant t == set n | n in order[..i] && n in limited && n !in f.rates
      {
        assert order[..i + 1] == order[..i] + [order[i]];
        if order[i] !in f.rates && order[i] in limited { t := t + {order[i]}; }
      }
      assert order[..|order|] == order;
      assert t == Primed(View(), f);
      throttled := Some(t);
    }

    /** One pass over the accounts in the order of the list; the first failing call is reported. */
    method EnforceBandwidthLimits(order: seq<string>, f: Faults) returns (err: Option<Problem>)
      requires Distinct(order) && forall n :: n in order <==> n in accounts
      modifies this`throttled, this`limited
      ensures View() == AfterPass(old(View()), f)
      ensures err == Some(ListAccounts) <==> f.list
      // No error means that the map now has every account as it should be.
      ensures err.None? <==>
        && !f.list && throttled.Some?
        && forall n :: n in accounts ==> (n in throttled.value <==> OverQuota(accounts[n], n in f.totals))
    {
      if f.list { return Some(ListAccounts); }
      err := None;
      ghost var s := View();
      if throttled.None? { Prime(order, f); }
      for i := 0 to |order|
        invariant throttled.Some?
        invariant Visited(s, f, order[..i], throttled.value, limited)
        invariant err.None? <==> Failing(s, f, order[..i]) == {}
        invariant err != Some(ListAccounts)
      {
        var n := order[i];
        VisitedStep(s, f, order, i, throttled.value, limited);
        FailingStep(s, f, order, i);
        var over := OverQuota(accounts[n], n in f.totals);
        if over && n !in throttled.value {
          var ok := EnsureNicRateLimit(n, true, n in f.calls);
          if !ok {
            if err.None? { err := Some(Limiting(n)); }
            continue;
          }
          throttled := Some(throttled.value + {n});
        } else if !over && n in throttled.value {
          var ok := EnsureNicRateLimit(n, false, n in f.calls);
          if !ok {
            if err.None? { err := Some(Lifting(n)); }
            continue;
          }
          throttled := Some(throttled.value - {n});
        }
      }
      assert order[..|order|] == order;
      VisitedAll(s, f, order, throttled.value, limited);
      FailingExactly(s, f, order, throttled.value, limited);
    }

    /** Zeroes the month of n and, if n is throttled, lifts the limit at once. */
    method ResetBandwidth(n: string, dbFails: bool, callFails: bool) returns (ok: bool)
      modifies this
      ensures View() == Next(old(View()), Reset(n, dbFails, callFails))
      ensures ok <==> old(n in accounts && !dbFails && !(Flagged(View(), n) && callFails))
    {
      if n !in accounts || dbFails { return false; }
      accounts := accounts[n := accounts[n].(up := 0, down := 0)];
      if throttled.Some? && n in throttled.value {
        ok := EnsureNicRateLimit(n, false, callFails);
        if !ok { return; }
        throttled := Some(throttled.value - {n});
      }
      ok := true;
    }
  }
}
