/** Which account a forwarded port belongs to, over the whole life of a host. */
module Ownership {
  import opened Common
  import opened UserPorts
  import opened UserPortText
  import opened Allocation
  import opened Lifecycle
  import Firewall

  function FileOf(r: Row): File { File(r.ip, r.sshPort, r.startPort) }

  /** The rules of a file; one that was cut short has none to speak of. */
  function RulesOf(publicIP: string, f: File): seq<Firewall.Rule> {
    if f.Torn? then [] else Firewall.UserRules(publicIP, f.ip, f.sshPort, f.startPort, SIZE)
  }

  ghost predicate Takes(publicIP: string, f: File, p: Firewall.Packet) { Firewall.Takes(RulesOf(publicIP, f), p) }

  predicate OwnedBy(r: Row, p: Firewall.Packet) { Firewall.Owned(r.sshPort, r.startPort, 100, p) }

  // ---- rows never share a port, in either network layout

  /** New accounts get what the allocators give, from whatever ranges are configured at the time. */
  ghost predicate Allocated(subnet: Subnet, s: State, e: Event) {
    match e
    case Added(n, rs, slot, _) => Normal(rs) && (slot.Some? ==> FreeSlot(s, subnet, rs, n, slot.value))
    case _ => true
  }

  lemma SameRows(subnet: Subnet, rows: map<string, Row>, rows': map<string, Row>)
    requires RowsSound(subnet, rows)
    requires NoneNew(rows, rows')
    ensures RowsSound(subnet, rows')
  {
  }

  lemma NewRow(subnet: Subnet, s: State, rs: seq<PortRange>, n: string, slot: Slot, status: Status)
    requires RowsSound(subnet, s.rows) && Normal(rs) && FreeSlot(s, subnet, rs, n, slot)
    ensures RowsSound(subnet, s.rows[n := Row(slot.idx, slot.ip, slot.sshPort, slot.startPort, status)])
  {
    StartsAreUsable(rs, slot.startPort);
    var r := Row(slot.idx, slot.ip, slot.sshPort, slot.startPort, status);
    forall m | m in s.rows ensures Unlike(s.rows[m], r) {
      assert s.rows[m].idx in UsedIdx(s) && s.rows[m].sshPort in UsedSSH(s) && s.rows[m].startPort in UsedStart(s);
    }
  }

  /** Rows only go, or change their status. */
  ghost predicate NoneNew(rows: map<string, Row>, rows': map<string, Row>) {
    forall n :: n in rows' ==> n in rows && rows'[n].(status := rows[n].status) == rows[n]
  }

  lemma CleanedUpRows(s: State, n: string, c: Cleanup)
    ensures NoneNew(s.rows, CleanedUp(s, n, c).rows)
  {
  }

  lemma AddRows(s: State, n: string, slot: Slot, x: AddInput)
    ensures NoneNew(WithRow(s, n, slot).rows, AfterCreate(s, n, slot, x).rows) || NoneNew(s.rows, AfterCreate(s, n, slot, x).rows)
  {
    if !x.create.Made? || x.laterFails || x.rowFails {
      CleanedUpRows(s, n, x.c);
      CleanedUpRows(WithInstance(s, n, slot.ip, x.routed), n, x.c);
    } else {
      AfterRowRows(WithRow(WithInstance(s, n, slot.ip, x.routed), n, slot), n, x);
    }
  }

  lemma AfterRowRows(s: State, n: string, x: AddInput)
    requires n in s.rows
    ensures NoneNew(s.rows, AfterRow(s, n, x).rows)
  {
  }

  lemma OtherRows(s: State, e: Event)
    requires !e.Added?
    ensures NoneNew(s.rows, Next(s, e).rows)
  {
  }

  lemma EventKeepsRows(subnet: Subnet, s: State, e: Event)
    requires RowsSound(subnet, s.rows) && Allocated(subnet, s, e)
    ensures RowsSound(subnet, Next(s, e).rows)
  {
    if e.Added? {
      if e.slot.Some? {
        NewRow(subnet, s, e.rs, e.n, e.slot.value, Creating);
        AddRows(s, e.n, e.slot.value, e.add);
        var t := Next(s, e).rows;
        if NoneNew(s.rows, t) { SameRows(subnet, s.rows, t); } else { SameRows(subnet, WithRow(s, e.n, e.slot.value).rows, t); }
      }
    } else {
      OtherRows(s, e);
      SameRows(subnet, s.rows, Next(s, e).rows);
    }
  }

  ghost predicate AllocatedRun(subnet: Subnet, s: State, events: seq<Event>) {
    forall i :: 0 <= i < |events| ==> Allocated(subnet, After(s, events[..i]), events[i])
  }

  lemma {:induction false} RowsAlwaysSound(subnet: Subnet, s: State, events: seq<Event>)
    requires RowsSound(subnet, s.rows) && AllocatedRun(subnet, s, events)
    ensures RowsSound(subnet, After(s, events).rows)
    decreases |events|
  {
    if events != [] {
      var k := |events| - 1;
      var front := events[..k];
      forall i | 0 <= i < k ensures Allocated(subnet, After(s, front[..i]), front[i]) {
        assert front[..i] == events[..i] && Allocated(subnet, After(s, events[..i]), events[i]);
      }
      RowsAlwaysSound(subnet, s, front);
      EventKeepsRows(subnet, After(s, front), events[k]);
    }
  }

  lemma OnlyOneOwner(subnet: Subnet, rows: map<string, Row>, m: string, n: string, p: Firewall.Packet)
    requires RowsSound(subnet, rows) && m in rows && n in rows && OwnedBy(rows[m], p) && OwnedBy(rows[n], p)
    ensures m == n
  {
    var a, b := rows[m], rows[n];
    assert RowOk(subnet, a) && RowOk(subnet, b);
    if m != n {
      assert Unlike(a, b);
      BlocksApart(a.startPort, b.startPort, p.port);
      assert false;
    }
  }

  lemma BlocksApart(a: int, b: int, port: int)
    requires a % 100 == 0 && b % 100 == 0 && a != b
    ensures !(a <= port < a + 100 && b <= port < b + 100)
  {
  }

  /** The rules of the present accounts, over every run from a host whose rows are in order: a packet is taken by
      the rules of at most one account, namely its owner, and sent to the owner's address. */
  lemma PortsHaveOneOwner(subnet: Subnet, s: State, events: seq<Event>, publicIP: string, p: Firewall.Packet, m: string, n: string)
    requires RowsSound(subnet, s.rows) && AllocatedRun(subnet, s, events)
    requires m in After(s, events).rows && n in After(s, events).rows
    ensures var rows := After(s, events).rows; Takes(publicIP, FileOf(rows[m]), p) && Takes(publicIP, FileOf(rows[n]), p) ==> m == n
    ensures var r := After(s, events).rows[n]; Takes(publicIP, FileOf(r), p) <==> OwnedBy(r, p) && Firewall.Covered(publicIP, p)
    ensures var r := After(s, events).rows[n];
      Firewall.SendsTo(RulesOf(publicIP, FileOf(r)), p, r.ip, r.sshPort, r.startPort, 100) && r.startPort + 100 <= r.sshPort
  {
    var rows := After(s, events).rows;
    RowsAlwaysSound(subnet, s, events);
    TakesExactly(publicIP, rows[m], p);
    TakesExactly(publicIP, rows[n], p);
    assert RowOk(subnet, rows[n]);
    if OwnedBy(rows[m], p) && OwnedBy(rows[n], p) { OnlyOneOwner(subnet, rows, m, n, p); }
  }

  lemma TakesExactly(publicIP: string, r: Row, p: Firewall.Packet)
    ensures Takes(publicIP, FileOf(r), p) <==> OwnedBy(r, p) && Firewall.Covered(publicIP, p)
    ensures Firewall.SendsTo(RulesOf(publicIP, FileOf(r)), p, r.ip, r.sshPort, r.startPort, 100)
  {
    Firewall.UserRulesExact(publicIP, r.ip, r.sshPort, r.startPort, SIZE, p);
  }

  // ---- the files on disk

  /** Every file belongs to a present account and says what its row says, unless it was cut short. */
  ghost predicate FilesMatch(s: State) {
    forall n :: n in s.files ==> n in s.rows && (s.files[n] == FileOf(s.rows[n]) || s.files[n].Torn?)
  }

  /** A delete that gives up the row although the file could not be removed. */
  predicate LeavesFile(s: State, e: Event) {
    e.Deleted? && e.n in s.rows && !e.del.withdrawFails && !e.del.delete && e.del.remove && !e.del.deleteUser && e.n in s.files
  }

  lemma CleanedUpFiles(s: State, n: string, c: Cleanup)
    requires FilesMatch(s)
    ensures FilesMatch(CleanedUp(s, n, c))
  {
  }

  /** Giving a recorded account a file of its own, whole or cut short. */
  lemma FileWritten(s: State, n: string, f: File)
    requires FilesMatch(s) && n in s.rows && (f == FileOf(s.rows[n]) || f.Torn?)
    ensures FilesMatch(s.(files := s.files[n := f]))
  {
  }

  lemma RowFiles(s: State, n: string, x: AddInput)
    requires FilesMatch(s) && n in s.rows
    ensures FilesMatch(AfterRow(s, n, x))
  {
    FileWritten(s, n, FileOf(s.rows[n]));
    FileWritten(s, n, Torn);
    CleanedUpFiles(s, n, x.c);
    CleanedUpFiles(WithFile(s, n), n, x.c);
    CleanedUpFiles(WithTorn(s, n), n, x.c);
  }

  lemma AddFiles(s: State, n: string, slot: Slot, x: AddInput)
    requires FilesMatch(s) && n !in s.rows
    ensures FilesMatch(AfterCreate(s, n, slot, x))
  {
    var made := WithInstance(s, n, slot.ip, x.routed);
    CleanedUpFiles(s, n, x.c);
    CleanedUpFiles(made, n, x.c);
    var rowed := WithRow(made, n, slot);
    assert FilesMatch(rowed);
    RowFiles(rowed, n, x);
  }

  /** The exact condition: every other event, with any step failing, keeps the files in step with the rows. */
  lemma FilesMatchExactly(subnet: Subnet, s: State, e: Event)
    requires FilesMatch(s) && Allocated(subnet, s, e)
    ensures FilesMatch(Next(s, e)) <==> !LeavesFile(s, e)
  {
    match e
    case Added(n, _, slot, x) => if slot.Some? { AddFiles(s, n, slot.value, x); }
    case Deleted(n, x) => if LeavesFile(s, e) { assert n in Next(s, e).files && n !in Next(s, e).rows; }
    case _ =>
  }

  /** While the files match, the written rules have one owner too. */
  lemma FilesHaveOneOwner(subnet: Subnet, s: State, publicIP: string, p: Firewall.Packet, m: string, n: string)
    requires RowsSound(subnet, s.rows) && FilesMatch(s) && m in s.files && n in s.files
    requires Takes(publicIP, s.files[m], p) && Takes(publicIP, s.files[n], p)
    ensures m == n && s.files[n].ip == s.rows[n].ip && OwnedBy(s.rows[n], p)
  {
    TakesExactly(publicIP, s.rows[m], p);
    TakesExactly(publicIP, s.rows[n], p);
    OnlyOneOwner(subnet, s.rows, m, n, p);
  }

  /** A file left behind is not harmless: a later account may be given the same block, and a packet to it is then
      taken by two files with different addresses. */
  lemma LeftoverFileMisroutes(subnet: Subnet, s: State, rs: seq<PortRange>, a: string, b: string, slot: Slot,
      del: DelInput, x: AddInput, publicIP: string)
    requires FilesMatch(s) && LeavesFile(s, Deleted(a, del)) && !s.files[a].Torn? && a != b
    requires Normal(rs) && FreeSlot(AfterDel(s, a, del), subnet, rs, b, slot)
    requires slot.startPort == s.rows[a].startPort && slot.ip != s.rows[a].ip && Succeeds(x) && x.direct
    ensures var t := AfterAdd(AfterDel(s, a, del), b, Some(slot), x);
      var p := Firewall.Packet(Firewall.Prerouting, "", Firewall.TCP, slot.startPort);
      a in t.files && b in t.files && Takes(publicIP, t.files[a], p) && Takes(publicIP, t.files[b], p)
    ensures var t := AfterAdd(AfterDel(s, a, del), b, Some(slot), x);
      a in t.files && t.files[a] == FileOf(s.rows[a]) && b in t.rows && b in t.files && t.files[b] == FileOf(t.rows[b])
    ensures var t := AfterAdd(AfterDel(s, a, del), b, Some(slot), x); b in t.rows && t.rows[b].ip != s.rows[a].ip
  {
    var t := AfterAdd(AfterDel(s, a, del), b, Some(slot), x);
    var p := Firewall.Packet(Firewall.Prerouting, "", Firewall.TCP, slot.startPort);
    assert t.files[a] == FileOf(s.rows[a]) && t.files[b] == FileOf(t.rows[b]);
    TakesExactly(publicIP, s.rows[a], p);
    TakesExactly(publicIP, t.rows[b], p);
  }
}
