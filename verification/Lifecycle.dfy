/** Creating, deleting and reinstalling an account: a sequence of steps over the account rows, the live
    containers and the firewall files, any of which may fail, the steps of the clean-up included. */
module Lifecycle {
  import opened Common
  import opened UserPorts
  import opened UserPortText
  import opened Allocation

  datatype Status = Creating | Ready | Reinstalling | Failed

  datatype Row = Row(idx: int, ip: int, sshPort: int, startPort: int, status: Status)

  /** A container, running or not: its static IPv4 if it has one, and whether eth0 carries it. */
  datatype Instance = Instance(ip: Option<int>, onEth0: bool)

  /** An account's firewall file: written whole, for these addresses and ports, or cut short. */
  datatype File = File(ip: int, sshPort: int, startPort: int) | Torn

  /** Writing a file: a failure comes before anything is written, or half way. */
  datatype Write = Wrote | NotOpened | CutShort

  datatype State = State(rows: map<string, Row>, live: map<string, Instance>, files: map<string, File>)

  /** What a new account is given. */
  datatype Slot = Slot(idx: int, ip: int, sshPort: int, startPort: int)

  // ---- what each step does, and what it does when it fails

  datatype Created = Made | Nothing | Leftover  // a failed create may leave an instance behind

  /** The steps of a clean-up that fail. */
  datatype Cleanup = Cleanup(unwire: bool, delete: bool, remove: bool, reload: bool, deleteUser: bool, status: bool)

  /** One Add: `routed` if IPv6 takes eth0 and IPv4 moves to eth1, `direct` if ports are forwarded. */
  datatype AddInput = AddInput(
    refused: bool,     // the name, the options, the pool or a read before the create is refused
    listFails: bool,   // the instances cannot be listed
    routed: bool, direct: bool,
    create: Created, laterFails: bool, rowFails: bool, write: Write, reloadFails: bool, readyFails: bool,
    c: Cleanup)

  datatype DelInput = DelInput(withdrawFails: bool, delete: bool, remove: bool, deleteUser: bool, sessions: bool)

  datatype ReinstallInput = ReinstallInput(
    markFails: bool, delete: bool, imageFails: bool, routed: bool, create: Created, laterFails: bool, readyFails: bool,
    rollbackDelete: bool, status: bool)

  /** A status write, which changes nothing else. */
  function Mark(rows: map<string, Row>, n: string, status: Status, fails: bool): map<string, Row> {
    if fails || n !in rows then rows else rows[n := rows[n].(status := status)]
  }

  /** The clean-up of Add: a row is given up only when everything it stands for is gone. */
  function CleanedUp(s: State, n: string, c: Cleanup): State {
    State(
      if n !in s.rows then s.rows
      else if c.delete || c.remove || c.reload || c.unwire then Mark(s.rows, n, Failed, c.status)
      else if c.deleteUser then s.rows else s.rows - {n},
      if c.delete then s.live else s.live - {n},
      if c.remove then s.files else s.files - {n})
  }

  function WithInstance(s: State, n: string, ip: int, routed: bool): State {
    s.(live := s.live[n := Instance(Some(ip), !routed)])
  }

  function WithRow(s: State, n: string, slot: Slot): State {
    s.(rows := s.rows[n := Row(slot.idx, slot.ip, slot.sshPort, slot.startPort, Creating)])
  }

  function WithFile(s: State, n: string): State
    requires n in s.rows
  {
    s.(files := s.files[n := File(s.rows[n].ip, s.rows[n].sshPort, s.rows[n].startPort)])
  }

  function WithTorn(s: State, n: string): State { s.(files := s.files[n := Torn]) }

  /** The container exists, its row does not yet. */
  function AfterCreate(s: State, n: string, slot: Slot, x: AddInput): State {
    if x.create.Nothing? then CleanedUp(s, n, x.c)
    else if x.create.Leftover? || x.laterFails || x.rowFails then CleanedUp(WithInstance(s, n, slot.ip, x.routed), n, x.c)
    else AfterRow(WithRow(WithInstance(s, n, slot.ip, x.routed), n, slot), n, x)
  }

  function AfterRow(s: State, n: string, x: AddInput): State
    requires n in s.rows
  {
    if x.direct && !x.write.Wrote? then CleanedUp(if x.write.CutShort? then WithTorn(s, n) else s, n, x.c)
    else
      var written := if x.direct then WithFile(s, n) else s;
      if x.reloadFails then CleanedUp(written, n, x.c)
      else written.(rows := Mark(written.rows, n, if x.readyFails then Failed else Ready, x.readyFails && x.c.status))
  }

  function AfterAdd(s: State, n: string, slot: Option<Slot>, x: AddInput): State {
    if slot.None? then s else AfterCreate(s, n, slot.value, x)
  }

  predicate Succeeds(x: AddInput) {
    x.create.Made? && !x.laterFails && !x.rowFails && !(x.direct && !x.write.Wrote?) && !x.reloadFails && !x.readyFails
  }

  predicate DelSucceeds(x: DelInput) { !x.withdrawFails && !x.delete && !x.deleteUser && !x.sessions }

  function AfterDel(s: State, n: string, x: DelInput): State {
    if n !in s.rows || x.withdrawFails || x.delete then s
    else
      State(if x.deleteUser then s.rows else s.rows - {n}, s.live - {n}, if x.remove then s.files else s.files - {n})
  }

  function RolledBack(s: State, n: string, x: ReinstallInput): State {
    s.(live := if x.rollbackDelete then s.live else s.live - {n}, rows := Mark(s.rows, n, Failed, x.status))
  }

  function AfterReinstall(s: State, n: string, x: ReinstallInput): State {
    if n !in s.rows || x.markFails then s
    else
      var marked := s.(rows := Mark(s.rows, n, Reinstalling, false));
      if x.delete then marked.(rows := Mark(marked.rows, n, Failed, x.status))
      else Rebuilt(marked.(live := s.live - {n}), n, x)
  }

  /** The rest of a reinstall once the old container is gone. */
  function Rebuilt(gone: State, n: string, x: ReinstallInput): State
    requires n in gone.rows
  {
    if x.imageFails || x.create.Nothing? then RolledBack(gone, n, x)
    else
      var made := WithInstance(gone, n, gone.rows[n].ip, x.routed);
      if x.create.Leftover? || x.laterFails then RolledBack(made, n, x)
      else made.(rows := Mark(made.rows, n, if x.readyFails then Failed else Ready, x.readyFails && x.status))
  }

  // ---- what the allocators and the conflict check guarantee about a slot

  function UsedIdx(s: State): set<int> { set n | n in s.rows :: s.rows[n].idx }

  function UsedSSH(s: State): set<int> { set n | n in s.rows :: s.rows[n].sshPort }

  function UsedStart(s: State): set<int> { set n | n in s.rows :: s.rows[n].startPort }

  /** No live instance has the name, and none that shows an IPv4 on eth0 has the address. */
  predicate NoConflict(s: State, n: string, ip: int) {
    n !in s.live && forall m :: m in s.live ==> !(s.live[m].onEth0 && s.live[m].ip == Some(ip))
  }

  predicate FreeSlot(s: State, subnet: Subnet, rs: seq<PortRange>, n: string, slot: Slot)
    requires Normal(rs)
  {
    && n !in s.rows && slot.idx !in UsedIdx(s) && ContainerIP(subnet, slot.idx) == Ok(slot.ip)
    && SSHRange(slot.sshPort) && slot.sshPort !in UsedSSH(s)
    && slot.startPort in Starts(rs) && slot.startPort !in UsedStart(s)
    && NoConflict(s, n, slot.ip)
  }

  /** The reasons for giving no slot: a refusal, a failed listing, a name that is taken, a subnet that is no IPv4 /24,
      no slot, port or block left, or a live instance that shows the address of an unused slot. */
  ghost predicate NoSlot(s: State, subnet: Subnet, rs: seq<PortRange>, busy: set<int>, n: string, x: AddInput)
    requires Normal(rs)
  {
    || x.refused || x.listFails || n in s.rows || n in s.live || !subnet.v4 || subnet.ones != 24
    || (forall idx :: 1 <= idx <= 200 ==> idx in UsedIdx(s))
    || |UsedSSH(s)| >= 2000 || (forall p :: 30000 <= p < 32000 ==> p in UsedSSH(s) || p in busy)
    || (forall start :: start in Starts(rs) ==> start in UsedStart(s))
    || (exists idx :: 1 <= idx <= 200 && idx !in UsedIdx(s) && Shown(s, subnet.address / 256 * 256 + idx + 1))
  }

  predicate Shown(s: State, ip: int) { exists m :: m in s.live && s.live[m].onEth0 && s.live[m].ip == Some(ip) }

  lemma ConflictIsNoSlot(s: State, subnet: Subnet, rs: seq<PortRange>, busy: set<int>, n: string, x: AddInput, idx: int, ip: int)
    requires Normal(rs) && ContainerIP(subnet, idx) == Ok(ip) && idx !in UsedIdx(s) && !NoConflict(s, n, ip)
    ensures NoSlot(s, subnet, rs, busy, n, x)
  {
    if n !in s.live { assert Shown(s, subnet.address / 256 * 256 + idx + 1); }
  }

  // ---- what holds in every state

  predicate RowOk(subnet: Subnet, r: Row) {
    && ContainerIP(subnet, r.idx) == Ok(r.ip) && SSHRange(r.sshPort)
    && r.startPort % 100 == 0 && Usable(r.startPort)
  }

  predicate Unlike(a: Row, b: Row) { a.idx != b.idx && a.sshPort != b.sshPort && a.startPort != b.startPort }

  ghost predicate RowsSound(subnet: Subnet, rows: map<string, Row>) {
    && (forall n :: n in rows ==> RowOk(subnet, rows[n]))
    && (forall m, n :: m in rows && n in rows && m != n ==> Unlike(rows[m], rows[n]))
  }

  /** A container of an account has the account's address. */
  ghost predicate LiveMatch(s: State) {
    forall n :: n in s.rows && n in s.live ==> s.live[n].ip == Some(s.rows[n].ip)
  }

  /** A container without an account has an address of no account, and eth0 shows it. */
  ghost predicate OrphansApart(s: State) {
    forall m, n :: m in s.live && m !in s.rows && n in s.rows ==> s.live[m].ip != Some(s.rows[n].ip)
  }

  ghost predicate OrphansVisible(s: State) {
    forall m :: m in s.live && m !in s.rows ==> s.live[m].onEth0 || s.live[m].ip.None?
  }

  /** No two live containers hold the same IPv4. */
  ghost predicate AddressesApart(live: map<string, Instance>) {
    forall m, n :: m in live && n in live && m != n && live[m].ip.Some? ==> live[m].ip != live[n].ip
  }

  ghost predicate Sound(subnet: Subnet, s: State) {
    RowsSound(subnet, s.rows) && LiveMatch(s) && OrphansApart(s) && OrphansVisible(s) && AddressesApart(s.live)
  }

  // ---- runs

  datatype Event =
    | Added(n: string, rs: seq<PortRange>, slot: Option<Slot>, add: AddInput)
    | Deleted(n: string, del: DelInput)
    | Reinstalled(n: string, reinstall: ReinstallInput)
    | Foreign(n: string, instance: Instance)  // an instance the operator creates by hand
    | Removed(n: string)                      // an instance the operator deletes by hand

  function Next(s: State, e: Event): State {
    match e
    case Added(n, _, slot, x) => AfterAdd(s, n, slot, x)
    case Deleted(n, x) => AfterDel(s, n, x)
    case Reinstalled(n, x) => AfterReinstall(s, n, x)
    case Foreign(n, i) => s.(live := s.live[n := i])
    case Removed(n) => s.(live := s.live - {n})
  }

  /** The Add leaves a container without a row whose IPv4 is not on eth0. */
  predicate LeavesHidden(x: AddInput) {
    x.routed && x.c.delete && (x.create.Leftover? || (x.create.Made? && (x.laterFails || x.rowFails)))
  }

  /** Slots come from the allocators, the operator takes no address of an account or an instance, and no Add
      leaves a hidden container. */
  ghost predicate Allowed(subnet: Subnet, s: State, e: Event) {
    match e
    case Added(n, rs, slot, x) => Normal(rs) && (slot.Some? ==> FreeSlot(s, subnet, rs, n, slot.value) && !LeavesHidden(x))
    case Foreign(n, i) =>
      && n !in s.live && n !in s.rows && (i.onEth0 || i.ip.None?)
      && (forall m :: m in s.live && i.ip.Some? ==> s.live[m].ip != i.ip)
      && (forall m :: m in s.rows ==> i.ip != Some(s.rows[m].ip))
    case _ => true
  }

  // ---- each event keeps it

  lemma MarkKeeps(subnet: Subnet, s: State, n: string, status: Status, fails: bool)
    requires Sound(subnet, s)
    ensures Sound(subnet, s.(rows := Mark(s.rows, n, status, fails)))
  {
  }

  lemma GoneKeeps(subnet: Subnet, s: State, n: string)
    requires Sound(subnet, s)
    ensures Sound(subnet, s.(live := s.live - {n}))
  {
  }

  /** A row may go once its container is gone. */
  lemma RowGoneKeeps(subnet: Subnet, s: State, n: string)
    requires Sound(subnet, s) && n !in s.live
    ensures Sound(subnet, s.(rows := s.rows - {n}))
  {
  }

  lemma FilesDoNotMatter(subnet: Subnet, s: State, files: map<string, File>)
    requires Sound(subnet, s)
    ensures Sound(subnet, s.(files := files))
  {
  }

  lemma CleanedUpKeeps(subnet: Subnet, s: State, n: string, c: Cleanup)
    requires Sound(subnet, s)
    ensures Sound(subnet, CleanedUp(s, n, c))
  {
    var t := s.(files := if c.remove then s.files else s.files - {n});
    FilesDoNotMatter(subnet, s, t.files);
    if c.delete {
      MarkKeeps(subnet, t, n, Failed, c.status);
    } else {
      GoneKeeps(subnet, t, n);
      var u := t.(live := t.live - {n});
      MarkKeeps(subnet, u, n, Failed, c.status);
      RowGoneKeeps(subnet, u, n);
    }
  }

  /** A new container with the address of a free slot; its row follows. */
  lemma NewAddress(subnet: Subnet, s: State, rs: seq<PortRange>, n: string, slot: Slot, m: string)
    requires Sound(subnet, s) && Normal(rs) && FreeSlot(s, subnet, rs, n, slot)
    ensures m in s.rows ==> s.rows[m].ip != slot.ip && Unlike(s.rows[m], Row(slot.idx, slot.ip, slot.sshPort, slot.startPort, Creating))
    ensures m in s.live ==> m != n && s.live[m].ip != Some(slot.ip)
  {
    if m in s.rows {
      assert s.rows[m].idx in UsedIdx(s) && s.rows[m].sshPort in UsedSSH(s) && s.rows[m].startPort in UsedStart(s);
      SlotsHaveOwnAddresses(subnet, s.rows[m].idx, slot.idx);
    }
  }

  lemma WithInstanceKeeps(subnet: Subnet, s: State, rs: seq<PortRange>, n: string, slot: Slot)
    requires Sound(subnet, s) && Normal(rs) && FreeSlot(s, subnet, rs, n, slot)
    ensures Sound(subnet, WithInstance(s, n, slot.ip, false))
  {
    forall m ensures m in s.rows ==> s.rows[m].ip != slot.ip { NewAddress(subnet, s, rs, n, slot, m); }
    forall m ensures m in s.live ==> m != n && s.live[m].ip != Some(slot.ip) { NewAddress(subnet, s, rs, n, slot, m); }
  }

  lemma WithRowKeeps(subnet: Subnet, s: State, rs: seq<PortRange>, n: string, slot: Slot, routed: bool)
    requires Sound(subnet, s) && Normal(rs) && FreeSlot(s, subnet, rs, n, slot)
    ensures Sound(subnet, WithRow(WithInstance(s, n, slot.ip, routed), n, slot))
  {
    StartsAreUsable(rs, slot.startPort);
    var r := Row(slot.idx, slot.ip, slot.sshPort, slot.startPort, Creating);
    forall m ensures m in s.rows ==> s.rows[m].ip != slot.ip && Unlike(s.rows[m], r) { NewAddress(subnet, s, rs, n, slot, m); }
    forall m ensures m in s.live ==> m != n && s.live[m].ip != Some(slot.ip) { NewAddress(subnet, s, rs, n, slot, m); }
  }

  lemma AddKeeps(subnet: Subnet, s: State, rs: seq<PortRange>, n: string, slot: Slot, x: AddInput)
    requires Sound(subnet, s) && Normal(rs) && FreeSlot(s, subnet, rs, n, slot) && !LeavesHidden(x)
    ensures Sound(subnet, AfterCreate(s, n, slot, x))
  {
    if x.create.Nothing? {
      CleanedUpKeeps(subnet, s, n, x.c);
    } else if x.create.Leftover? || x.laterFails || x.rowFails {
      FailedCreateKeeps(subnet, s, rs, n, slot, x);
    } else {
      var t := WithRow(WithInstance(s, n, slot.ip, x.routed), n, slot);
      WithRowKeeps(subnet, s, rs, n, slot, x.routed);
      AfterRowKeeps(subnet, t, n, x);
    }
  }

  lemma FailedCreateKeeps(subnet: Subnet, s: State, rs: seq<PortRange>, n: string, slot: Slot, x: AddInput)
    requires Sound(subnet, s) && Normal(rs) && FreeSlot(s, subnet, rs, n, slot) && (x.routed ==> !x.c.delete)
    ensures Sound(subnet, CleanedUp(WithInstance(s, n, slot.ip, x.routed), n, x.c))
  {
    if x.c.delete {
      WithInstanceKeeps(subnet, s, rs, n, slot);
      CleanedUpKeeps(subnet, WithInstance(s, n, slot.ip, false), n, x.c);
    } else {
      CleanedUpKeeps(subnet, s, n, x.c);
      assert (s.live[n := Instance(Some(slot.ip), !x.routed)]) - {n} == s.live - {n};
    }
  }

  lemma AfterRowKeeps(subnet: Subnet, s: State, n: string, x: AddInput)
    requires Sound(subnet, s) && n in s.rows
    ensures Sound(subnet, AfterRow(s, n, x))
  {
    CleanedUpKeeps(subnet, s, n, x.c);
    FilesDoNotMatter(subnet, s, WithTorn(s, n).files);
    CleanedUpKeeps(subnet, WithTorn(s, n), n, x.c);
    var written := if x.direct then WithFile(s, n) else s;
    FilesDoNotMatter(subnet, s, written.files);
    CleanedUpKeeps(subnet, written, n, x.c);
    MarkKeeps(subnet, written, n, if x.readyFails then Failed else Ready, x.readyFails && x.c.status);
  }

  lemma DelKeeps(subnet: Subnet, s: State, n: string, x: DelInput)
    requires Sound(subnet, s)
    ensures Sound(subnet, AfterDel(s, n, x))
  {
  }

  /** The old container is gone and the new one takes the account's own address. */
  lemma RecreateKeeps(subnet: Subnet, s: State, n: string, routed: bool)
    requires Sound(subnet, s) && n in s.rows && n !in s.live
    ensures Sound(subnet, WithInstance(s, n, s.rows[n].ip, routed))
  {
    var ip := s.rows[n].ip;
    forall m | m in s.live ensures s.live[m].ip != Some(ip) {
      if m in s.rows {
        assert Unlike(s.rows[m], s.rows[n]);
        SlotsHaveOwnAddresses(subnet, s.rows[m].idx, s.rows[n].idx);
      }
    }
  }

  lemma RolledBackKeeps(subnet: Subnet, s: State, n: string, x: ReinstallInput)
    requires Sound(subnet, s)
    ensures Sound(subnet, RolledBack(s, n, x))
  {
    GoneKeeps(subnet, s, n);
    MarkKeeps(subnet, s, n, Failed, x.status);
    MarkKeeps(subnet, s.(live := s.live - {n}), n, Failed, x.status);
  }

  lemma ReinstallKeeps(subnet: Subnet, s: State, n: string, x: ReinstallInput)
    requires Sound(subnet, s)
    ensures Sound(subnet, AfterReinstall(s, n, x))
  {
    if n in s.rows && !x.markFails {
      var marked := s.(rows := Mark(s.rows, n, Reinstalling, false));
      MarkKeeps(subnet, s, n, Reinstalling, false);
      MarkKeeps(subnet, marked, n, Failed, x.status);
      GoneKeeps(subnet, marked, n);
      RebuildKeeps(subnet, marked.(live := s.live - {n}), n, x);
    }
  }

  lemma RebuildKeeps(subnet: Subnet, gone: State, n: string, x: ReinstallInput)
    requires Sound(subnet, gone) && n in gone.rows && n !in gone.live
    ensures Sound(subnet, Rebuilt(gone, n, x))
  {
    RolledBackKeeps(subnet, gone, n, x);
    RecreateKeeps(subnet, gone, n, x.routed);
    var made := WithInstance(gone, n, gone.rows[n].ip, x.routed);
    RolledBackKeeps(subnet, made, n, x);
    MarkKeeps(subnet, made, n, if x.readyFails then Failed else Ready, x.readyFails && x.status);
  }

  lemma EventKeeps(subnet: Subnet, s: State, e: Event)
    requires Sound(subnet, s) && Allowed(subnet, s, e)
    ensures Sound(subnet, Next(s, e))
  {
    match e
    case Added(n, rs, slot, x) => if slot.Some? { AddKeeps(subnet, s, rs, n, slot.value, x); }
    case Deleted(n, x) => DelKeeps(subnet, s, n, x);
    case Reinstalled(n, x) => ReinstallKeeps(subnet, s, n, x);
    case Foreign(n, i) =>
    case Removed(n) => GoneKeeps(subnet, s, n);
  }

  function After(s: State, events: seq<Event>): State {
    if events == [] then s else Next(After(s, events[..|events| - 1]), events[|events| - 1])
  }

  ghost predicate AllowedRun(subnet: Subnet, s: State, events: seq<Event>) {
    forall i :: 0 <= i < |events| ==> Allowed(subnet, After(s, events[..i]), events[i])
  }

  /** Over every run from a sound state (the empty host is one), with any step of any operation failing and the
      configured ranges changing at will: no two live containers hold the same IPv4, and the rows never share a
      slot or a port. */
  lemma {:induction false} NeverTwoWithOneAddress(subnet: Subnet, s: State, events: seq<Event>)
    requires Sound(subnet, s) && AllowedRun(subnet, s, events)
    ensures Sound(subnet, After(s, events)) && AddressesApart(After(s, events).live)
    decreases |events|
  {
    if events != [] {
      var k := |events| - 1;
      var front := events[..k];
      forall i | 0 <= i < k ensures Allowed(subnet, After(s, front[..i]), front[i]) {
        assert front[..i] == events[..i] && Allowed(subnet, After(s, events[..i]), events[i]);
      }
      NeverTwoWithOneAddress(subnet, s, front);
      EventKeeps(subnet, After(s, front), events[k]);
    }
  }

  // ---- what one operation leaves behind

  predicate CleansUp(c: Cleanup) { !c.unwire && !c.delete && !c.remove && !c.reload && !c.deleteUser }

  /** The steps that undo an Add: every failure but that of the last status write. */
  predicate RollsBack(x: AddInput) { !Succeeds(x) && !(x.readyFails && Succeeds(x.(readyFails := false))) }

  /** The failing Add got as far as its row. */
  predicate ReachedRow(x: AddInput) { x.create.Made? && !x.laterFails && !x.rowFails }

  /** The row of a failed Add stays exactly if it had been written and some part of the clean-up failed, so whatever is left of a
      recorded account can be seen. */
  lemma FailedRowExactly(s: State, n: string, slot: Slot, x: AddInput)
    requires n !in s.rows && RollsBack(x)
    ensures n in AfterCreate(s, n, slot, x).rows <==> ReachedRow(x) && !CleansUp(x.c)
  {
  }

  /** A map with an entry for a new name, if there is one. */
  function Plus<V>(m: map<string, V>, n: string, v: Option<V>): map<string, V> { if v.Some? then m[n := v.value] else m }

  lemma PlusGone<V>(m: map<string, V>, n: string, v: Option<V>)
    requires n !in m
    ensures Plus(m, n, v) - {n} == m
  {
  }

  lemma PlusMarked(m: map<string, Row>, n: string, row: Row, status: Status)
    ensures Mark(Plus(m, n, Some(row)), n, status, false) == Plus(m, n, Some(row.(status := status)))
  {
  }

  /** A clean-up of things a state did not have before. */
  lemma CleanedNew(s: State, n: string, row: Option<Row>, instance: Option<Instance>, file: Option<File>, c: Cleanup)
    requires n !in s.rows && n !in s.live && n !in s.files && (row.Some? ==> row.value.status == Creating)
    ensures var t := CleanedUp(State(Plus(s.rows, n, row), Plus(s.live, n, instance), Plus(s.files, n, file)), n, c);
      && t.live == Plus(s.live, n, if c.delete then instance else None)
      && t.files == Plus(s.files, n, if c.remove then file else None)
      && t.rows == Plus(s.rows, n,
        if row.None? || CleansUp(c) then None else Some(row.value.(status := if MarksFailed(c) then Failed else Creating)))
  {
    PlusGone(s.live, n, instance);
    PlusGone(s.files, n, file);
    PlusGone(s.rows, n, row);
    if row.Some? { PlusMarked(s.rows, n, row.value, Failed); }
  }

  /** What a failed Add leaves, for every clean-up: the container if deleting it failed, the file (or a part of it)
      if removing it failed, and the row, marked as failed if that could be written, unless all else is gone. */
  lemma FailedAddLeaves(s: State, n: string, slot: Slot, x: AddInput)
    requires n !in s.rows && n !in s.live && n !in s.files && RollsBack(x)
    ensures var t := AfterCreate(s, n, slot, x);
      && t.live == Plus(s.live, n, if x.c.delete && !x.create.Nothing? then Some(Instance(Some(slot.ip), !x.routed)) else None)
      && t.files == Plus(s.files, n,
        if !x.c.remove || !ReachedRow(x) || !x.direct || x.write.NotOpened? then None
        else if x.write.CutShort? then Some(Torn)
        else Some(File(slot.ip, slot.sshPort, slot.startPort)))
      && t.rows == Plus(s.rows, n,
        if !ReachedRow(x) || CleansUp(x.c) then None
        else Some(Row(slot.idx, slot.ip, slot.sshPort, slot.startPort, if MarksFailed(x.c) then Failed else Creating)))
  {
    var instance := Some(Instance(Some(slot.ip), !x.routed));
    var row := Some(Row(slot.idx, slot.ip, slot.sshPort, slot.startPort, Creating));
    var file := File(slot.ip, slot.sshPort, slot.startPort);
    CleanedNew(s, n, None, None, None, x.c);
    CleanedNew(s, n, None, instance, None, x.c);
    CleanedNew(s, n, row, instance, None, x.c);
    CleanedNew(s, n, row, instance, Some(Torn), x.c);
    CleanedNew(s, n, row, instance, Some(file), x.c);
  }

  /** So a failed Add whose clean-up works leaves no trace. */
  lemma FailureUndoesAll(s: State, n: string, slot: Slot, x: AddInput)
    requires n !in s.rows && n !in s.live && n !in s.files && RollsBack(x) && CleansUp(x.c)
    ensures AfterCreate(s, n, slot, x) == s
  {
    FailedAddLeaves(s, n, slot, x);
  }

  predicate MarksFailed(c: Cleanup) { (c.unwire || c.delete || c.remove || c.reload) && !c.status }

  /** An Add that gets to its end gives the account what it was promised, and nothing else changes; the row tells how
      it ended unless that could not be written. */
  lemma SuccessGives(s: State, n: string, slot: Slot, x: AddInput)
    requires Succeeds(x.(readyFails := false))
    ensures AfterCreate(s, n, slot, x) == State(
      s.rows[n := Row(slot.idx, slot.ip, slot.sshPort, slot.startPort,
        if !x.readyFails then Ready else if x.c.status then Creating else Failed)],
      s.live[n := Instance(Some(slot.ip), !x.routed)],
      if x.direct then s.files[n := File(slot.ip, slot.sshPort, slot.startPort)] else s.files)
  {
    var row := Row(slot.idx, slot.ip, slot.sshPort, slot.startPort, Creating);
    forall v: Status ensures s.rows[n := row][n := row.(status := v)] == s.rows[n := row.(status := v)] {}
  }

  /** A delete reports an error although the account is gone exactly if its last step, the sessions, is what
      failed. */
  lemma ErrorAfterAllExactly(s: State, n: string, x: DelInput)
    requires n in s.rows
    ensures n !in AfterDel(s, n, x).rows && !DelSucceeds(x) <==> x.sessions && DelSucceeds(x.(sessions := false))
  {
  }

  /** Deleting an account gives everything back. */
  lemma DeleteUndoesAdd(s: State, n: string, slot: Slot, x: AddInput, d: DelInput)
    requires n !in s.rows && n !in s.live && n !in s.files && Succeeds(x)
    requires !d.withdrawFails && !d.delete && !d.remove && !d.deleteUser
    ensures AfterDel(AfterCreate(s, n, slot, x), n, d) == s
  {
    SuccessGives(s, n, slot, x);
    var t := AfterCreate(s, n, slot, x);
    assert t.rows - {n} == s.rows && t.live - {n} == s.live && t.files - {n} == s.files;
  }

  /** The same account n in both states, up to its status and its container, and nothing else changed. */
  ghost predicate SameBut(s: State, t: State, n: string) {
    && t.files == s.files && n in s.rows && n in t.rows && t.rows[n].(status := s.rows[n].status) == s.rows[n]
    && t.live - {n} == s.live - {n} && t.rows - {n} == s.rows - {n}
  }

  lemma RebuiltSame(gone: State, n: string, x: ReinstallInput)
    requires n in gone.rows && n !in gone.live
    ensures var t := Rebuilt(gone, n, x); SameBut(gone, t, n) && (n in t.live ==> t.live[n] == Instance(Some(gone.rows[n].ip), !x.routed))
  {
  }

  /** A reinstall, however it fails, keeps the account, its slot and its ports; a container it leaves is the old
      one, untouched, or a new one with the account's address. */
  lemma ReinstallKeepsAccount(s: State, n: string, x: ReinstallInput)
    requires n in s.rows
    ensures var t := AfterReinstall(s, n, x); SameBut(s, t, n)
    ensures var t := AfterReinstall(s, n, x); t.live == s.live || (n in t.live ==> t.live[n] == Instance(Some(s.rows[n].ip), !x.routed))
  {
    if !x.markFails && !x.delete {
      var gone := s.(rows := Mark(s.rows, n, Reinstalling, false), live := s.live - {n});
      RebuiltSame(gone, n, x);
    }
  }

  /** And which of them: the old container if it could not be deleted, the new one unless it was never made or was
      deleted again; the row tells how it ended unless that could not be written. */
  lemma ReinstallLeaves(s: State, n: string, x: ReinstallInput)
    requires n in s.rows && !x.markFails
    ensures var t := AfterReinstall(s, n, x); var failed := x.imageFails || !x.create.Made? || x.laterFails;
      && t.live == (
        if x.delete then s.live
        else if x.imageFails || x.create.Nothing? || (failed && !x.rollbackDelete) then s.live - {n}
        else s.live[n := Instance(Some(s.rows[n].ip), !x.routed)])
      && n in t.rows
      && t.rows[n].status == if !x.delete && !failed && !x.readyFails then Ready else if x.status then Reinstalling else Failed
  {
    var gone := s.live - {n};
    var made := Instance(Some(s.rows[n].ip), !x.routed);
    assert gone[n := made] == s.live[n := made] && gone[n := made] - {n} == gone && gone - {n} == gone;
  }

  // ---- the layout in which eth0 does not carry the IPv4

  /** The conflict check is enough exactly when no live container holds the address out of its sight. */
  lemma CheckSufficesExactly(s: State, n: string, ip: int, routed: bool)
    requires AddressesApart(s.live) && NoConflict(s, n, ip)
    ensures AddressesApart(WithInstance(s, n, ip, routed).live) <==> !HeldUnseen(s, ip)
  {
    var t := WithInstance(s, n, ip, routed);
    if HeldUnseen(s, ip) {
      var m :| m in s.live && !s.live[m].onEth0 && s.live[m].ip == Some(ip);
      assert m != n && t.live[m].ip == t.live[n].ip;
    }
  }

  predicate HeldUnseen(s: State, ip: int) { exists m :: m in s.live && !s.live[m].onEth0 && s.live[m].ip == Some(ip) }

  /** With IPv4 on eth1, a create that fails and cannot be cleaned up leaves an orphan that the next Add does not
      see: it may be given the same slot, and two live containers hold one address. */
  lemma HiddenOrphanCollides(subnet: Subnet, rs: seq<PortRange>, a: string, b: string, slot: Slot, x: AddInput, y: AddInput)
    requires a != b && Normal(rs) && FreeSlot(State(map[], map[], map[]), subnet, rs, a, slot)
    requires LeavesHidden(x) && Succeeds(y)
    ensures var s := AfterAdd(State(map[], map[], map[]), a, Some(slot), x);
      FreeSlot(s, subnet, rs, b, slot) && !AddressesApart(AfterAdd(s, b, Some(slot), y).live)
  {
    var s := AfterAdd(State(map[], map[], map[]), a, Some(slot), x);
    assert s.rows == map[] && s.live == map[a := Instance(Some(slot.ip), false)];
    var t := AfterAdd(s, b, Some(slot), y);
    assert t.live[a].ip == t.live[b].ip && a in t.live && b in t.live;
  }

  // ---- the operations themselves

  class Manager {
    var rows: map<string, Row>
    var live: map<string, Instance>
    var files: map<string, File>

    ghost function View(): State
      reads this
    {
      State(rows, live, files)
    }

    method UpdateStatus(n: string, status: Status, fails: bool)
      modifies this`rows
      ensures rows == Mark(old(rows), n, status, fails)
    {
      if !fails && n in rows { rows := rows[n := rows[n].(status := status)]; }
    }

    /** Refuses a name or an address that a live instance shows. */
    method CheckIncusConflict(n: string, ip: int, listFails: bool) returns (ok: bool)
      ensures ok <==> !listFails && NoConflict(View(), n, ip)
    {
      if listFails { return false; }
      var rest := live.Keys;
      while rest != {}
        invariant rest <= live.Keys
        invariant forall m :: m in live && m !in rest ==> m != n && !(live[m].onEth0 && live[m].ip == Some(ip))
        decreases rest
      {
        var m :| m in rest;
        rest := rest - {m};
        if m == n { return false; }
        if live[m].onEth0 && live[m].ip == Some(ip) { return false; }
      }
      ok := true;
    }

    method CleanUp(n: string, c: Cleanup)
      modifies this
      ensures View() == CleanedUp(old(View()), n, c)
    {
      if !c.delete { live := live - {n}; }
      if !c.remove { files := files - {n}; }
      if n in rows {
        if c.delete || c.remove || c.reload || c.unwire {
          UpdateStatus(n, Failed, c.status);
          return;
        }
        if !c.deleteUser { rows := rows - {n}; }
      }
    }

    /** Everything before the create: the slot, the address, the ports and the conflict check. */
    method Allocate(n: string, x: AddInput, subnet: Subnet, rs: seq<PortRange>, busy: set<int>, tries: seq<nat>,
        pickIdx: nat, pickBlock: nat) returns (slot: Option<Slot>)
      requires Normal(rs) && forall i :: 0 <= i < |tries| ==> tries[i] < SSH_COUNT
      ensures slot.Some? ==> FreeSlot(View(), subnet, rs, n, slot.value) && slot.value.sshPort !in busy
      ensures x.refused || x.listFails || n in rows || n in live ==> slot.None?
      ensures slot.None? ==> NoSlot(View(), subnet, rs, busy, n, x)
    {
      if x.refused || n in rows { return None; }
      var s := State(rows, live, files);
      var idx := NextFreeIdx(1, MAX_USERS, UsedIdx(s), pickIdx);
      if idx.None? { return None; }
      var ip := ContainerIP(subnet, idx.value);
      if ip.Err? { return None; }
      var ssh := AllocSSHPort(UsedSSH(s), busy, tries);
      if ssh.None? { return None; }
      var start := AllocUserPortBlock(rs, UsedStart(s), pickBlock);
      if start.None? { return None; }
      var ok := CheckIncusConflict(n, ip.value, x.listFails);
      if !ok {
        if !x.listFails { ConflictIsNoSlot(s, subnet, rs, busy, n, x, idx.value, ip.value); }
        return None;
      }
      slot := Some(Slot(idx.value, ip.value, ssh.value, start.value));
    }

    method Add(n: string, x: AddInput, subnet: Subnet, rs: seq<PortRange>, busy: set<int>, tries: seq<nat>,
        pickIdx: nat, pickBlock: nat) returns (slot: Option<Slot>, ok: bool)
      requires Normal(rs) && forall i :: 0 <= i < |tries| ==> tries[i] < SSH_COUNT
      modifies this
      ensures slot.Some? ==> FreeSlot(old(View()), subnet, rs, n, slot.value) && slot.value.sshPort !in busy
      ensures x.refused || x.listFails || n in old(rows) || n in old(live) ==> slot.None?
      ensures slot.None? ==> NoSlot(old(View()), subnet, rs, busy, n, x)
      ensures View() == AfterAdd(old(View()), n, slot, x)
      ensures ok <==>
        && slot.Some? && x.create.Made? && !x.laterFails && !x.rowFails && (x.direct ==> x.write.Wrote?) && !x.reloadFails
        && !x.readyFails
    {
      slot := Allocate(n, x, subnet, rs, busy, tries, pickIdx, pickBlock);
      if slot.None? { return slot, false; }
      ok := Build(n, slot.value, x);
    }

    method Build(n: string, slot: Slot, x: AddInput) returns (ok: bool)
      modifies this
      ensures View() == AfterCreate(old(View()), n, slot, x) && (ok <==> Succeeds(x))
    {
      if !x.create.Nothing? { live := live[n := Instance(Some(slot.ip), !x.routed)]; }
      if !x.create.Made? || x.laterFails || x.rowFails {
        CleanUp(n, x.c);
        return false;
      }
      rows := rows[n := Row(slot.idx, slot.ip, slot.sshPort, slot.startPort, Creating)];
      if x.direct {
        if !x.write.Wrote? {
          if x.write.CutShort? { files := files[n := Torn]; }
          CleanUp(n, x.c);
          return false;
        }
        files := files[n := File(slot.ip, slot.sshPort, slot.startPort)];
      }
      if x.reloadFails {
        CleanUp(n, x.c);
        return false;
      }
      UpdateStatus(n, Ready, x.readyFails);
      if x.readyFails { UpdateStatus(n, Failed, x.c.status); }
      ok := !x.readyFails;
    }

    /** Withdraws the domains, then the container; only then the row. Firewall errors are only warnings. */
    method Del(n: string, x: DelInput) returns (ok: bool)
      modifies this
      ensures View() == AfterDel(old(View()), n, x)
      ensures ok <==> n in old(rows) && !x.withdrawFails && !x.delete && !x.deleteUser && !x.sessions
      ensures ok ==> n !in rows && n !in live
    {
      if n !in rows || x.withdrawFails { return false; }
      if x.delete { return false; }
      live := live - {n};
      if !x.remove { files := files - {n}; }
      if x.deleteUser { return false; }
      rows := rows - {n};
      ok := !x.sessions;
    }

    method Reinstall(n: string, x: ReinstallInput) returns (ok: bool)
      modifies this
      ensures View() == AfterReinstall(old(View()), n, x)
      ensures ok <==>
        && n in old(rows) && !x.markFails && !x.delete && !x.imageFails && x.create.Made? && !x.laterFails && !x.readyFails
      ensures ok ==> n in rows && rows[n].status == Ready && n in live && live[n].ip == Some(rows[n].ip)
    {
      if n !in rows || x.markFails { return false; }
      UpdateStatus(n, Reinstalling, false);
      if x.delete {
        UpdateStatus(n, Failed, x.status);
        return false;
      }
      live := live - {n};
      if x.imageFails || x.create.Nothing? {
        RollBack(n, x);
        return false;
      }
      live := live[n := Instance(Some(rows[n].ip), !x.routed)];
      if x.create.Leftover? || x.laterFails {
        RollBack(n, x);
        return false;
      }
      UpdateStatus(n, Ready, x.readyFails);
      if x.readyFails { UpdateStatus(n, Failed, x.status); }
      ok := !x.readyFails;
    }

    method RollBack(n: string, x: ReinstallInput)
      modifies this
      ensures View() == RolledBack(old(View()), n, x)
    {
      if !x.rollbackDelete { live := live - {n}; }
      UpdateStatus(n, Failed, x.status);
    }
  }
}
