/** The allocators of a new account: an IPv4 slot, an SSH port and a block of user ports. */
module Allocation {
  import opened Common
  import opened UserPorts
  import opened UserPortText

  const MAX_USERS: int := 200
  const SSH_BASE: int := 30000
  const SSH_COUNT: int := 2000

  // ---- the address of a slot

  /** A parsed subnet: whether it is IPv4, its prefix length, and its address with the host bits zero. */
  datatype Subnet = Subnet(v4: bool, ones: nat, address: int)

  datatype IPError = NotIPv4 | NotSlash24 | OutOfRange

  function ContainerIP(subnet: Subnet, idx: int): Result<int, IPError> {
    if !subnet.v4 then Err(NotIPv4)
    else if subnet.ones != 24 then Err(NotSlash24)
    else if idx < 1 || idx > MAX_USERS then Err(OutOfRange)
    else Ok(subnet.address / 256 * 256 + (idx + 1) % 256)
  }

  /** Slots 1 to 200 of an IPv4 /24 have the addresses .2 to .201, and nothing else has one. */
  lemma SlotAddressExact(subnet: Subnet, idx: int)
    ensures ContainerIP(subnet, idx).Ok? <==> subnet.v4 && subnet.ones == 24 && 1 <= idx <= 200
    ensures ContainerIP(subnet, idx).Ok? ==> ContainerIP(subnet, idx).value == subnet.address - subnet.address % 256 + idx + 1
    ensures ContainerIP(subnet, idx) == Err(NotIPv4) <==> !subnet.v4
    ensures ContainerIP(subnet, idx) == Err(OutOfRange) <==> subnet.v4 && subnet.ones == 24 && !(1 <= idx <= 200)
  {
  }

  /** Different slots have different addresses, all inside the subnet and none of them the network's, the
      gateway's or the broadcast address. */
  lemma SlotsHaveOwnAddresses(subnet: Subnet, i: int, j: int)
    requires ContainerIP(subnet, i).Ok? && ContainerIP(subnet, j).Ok?
    ensures ContainerIP(subnet, i).value == ContainerIP(subnet, j).value <==> i == j
    ensures ContainerIP(subnet, i).value / 256 == subnet.address / 256
    ensures 2 <= ContainerIP(subnet, i).value % 256 <= 201
  {
  }

  // ---- the slot

  /** The unused numbers of a range, in order. */
  function FreeIn(lo: int, hi: int, used: set<int>): seq<int>
    decreases hi - lo
  {
    if lo > hi then []
    else FreeIn(lo, hi - 1, used) + if hi in used then [] else [hi]
  }

  lemma {:induction false} FreeInExact(lo: int, hi: int, used: set<int>, x: int)
    ensures x in FreeIn(lo, hi, used) <==> lo <= x <= hi && x !in used
    decreases hi - lo
  {
    if lo <= hi { FreeInExact(lo, hi - 1, used, x); }
  }

  /** A random number below n: any of them can come up. */
  method Draw(n: nat, pick: nat) returns (k: nat)
    requires n > 0
    ensures k < n && (pick < n ==> k == pick)
  {
    k := if pick < n then pick else 0;
  }

  /** A random unused slot: any one of them can be picked, and it fails only when there is none. */
  method NextFreeIdx(idxMin: int, idxMax: int, used: set<int>, pick: nat) returns (r: Option<int>)
    ensures r.Some? ==> idxMin <= r.value <= idxMax && r.value !in used
    ensures r.None? ==> forall x :: idxMin <= x <= idxMax ==> x in used
    ensures var free := FreeIn(idxMin, idxMax, used); pick < |free| ==> r == Some(free[pick])
  {
    var free: seq<int> := [];
    var i := idxMin;
    while i <= idxMax
      invariant i <= idxMax + 1 || i == idxMin
      invariant free == FreeIn(idxMin, i - 1, used)
    {
      if i !in used { free := free + [i]; }
      i := i + 1;
    }
    if |free| == 0 {
      forall x | idxMin <= x <= idxMax ensures x in used { FreeInExact(idxMin, idxMax, used, x); }
      return None;
    }
    var k := Draw(|free|, pick);
    var x := free[k];
    FreeInExact(idxMin, idxMax, used, x);
    r := Some(x);
  }

  // ---- the SSH port

  predicate SSHRange(p: int) { SSH_BASE <= p < SSH_BASE + SSH_COUNT }

  predicate Available(p: int, used: set<int>, busy: set<int>) { p !in used && p !in busy }

  /** Random tries first, then the lowest available port. `busy` are the ports something on the host listens on. */
  method AllocSSHPort(used: set<int>, busy: set<int>, tries: seq<nat>) returns (r: Option<int>)
    requires forall i :: 0 <= i < |tries| ==> tries[i] < SSH_COUNT
    ensures r.Some? ==> 30000 <= r.value < 32000 && r.value !in used && r.value !in busy
    ensures r.None? <==> |used| >= 2000 || forall p :: 30000 <= p < 32000 ==> p in used || p in busy
  {
    if |used| >= SSH_COUNT { return None; }
    for i := 0 to |tries| {
      var p := SSH_BASE + tries[i];
      if Available(p, used, busy) { return Some(p); }
    }
    for p := SSH_BASE to SSH_BASE + SSH_COUNT
      invariant forall q :: SSH_BASE <= q < p ==> q in used || q in busy
    {
      if Available(p, used, busy) { return Some(p); }
    }
    return None;
  }

  /** The early refusal loses nothing: with that many ports in use from the range, none is left. */
  lemma FullRange(used: set<int>, busy: set<int>, p: int)
    requires (forall q :: q in used ==> SSHRange(q)) && |used| >= SSH_COUNT && SSHRange(p)
    ensures !Available(p, used, busy)
  {
    if p !in used { PortsInRange(SSH_BASE, SSH_COUNT, used + {p}); }
  }

  /** At most n distinct numbers fit in a range of n. */
  lemma {:induction false} PortsInRange(base: int, n: nat, ports: set<int>)
    requires forall q :: q in ports ==> base <= q < base + n
    ensures |ports| <= n
    decreases n
  {
    if n > 0 {
      PortsInRange(base, n - 1, ports - {base + n - 1});
    } else {
      forall q ensures q !in ports { assert q in ports ==> base <= q < base; }
    }
  }

  // ---- the block of user ports

  /** The starts that are not used, in order. */
  function Unused(starts: seq<int>, used: set<int>): seq<int> {
    if starts == [] then []
    else Unused(starts[..|starts| - 1], used) + if starts[|starts| - 1] in used then [] else [starts[|starts| - 1]]
  }

  lemma {:induction false} UnusedExact(starts: seq<int>, used: set<int>, x: int)
    ensures x in Unused(starts, used) <==> x in starts && x !in used
  {
    if starts != [] {
      UnusedExact(starts[..|starts| - 1], used, x);
      assert starts == starts[..|starts| - 1] + [starts[|starts| - 1]];
    }
  }

  /** A random block of the configured ranges that no account holds; it fails only when all are held. */
  method AllocUserPortBlock(rs: seq<PortRange>, used: set<int>, pick: nat) returns (r: Option<int>)
    requires Normal(rs)
    ensures r.Some? ==> r.value in Starts(rs) && r.value !in used
    ensures r.None? ==> forall b :: b in Starts(rs) ==> b in used
    ensures var free := Unused(Starts(rs), used); pick < |free| ==> r == Some(free[pick])
  {
    var starts := UserPortBlockStarts(rs);
    r := PickUnused(starts, used, pick);
  }

  method PickUnused(starts: seq<int>, used: set<int>, pick: nat) returns (r: Option<int>)
    ensures r.Some? ==> r.value in starts && r.value !in used
    ensures r.None? ==> forall b :: b in starts ==> b in used
    ensures var free := Unused(starts, used); pick < |free| ==> r == Some(free[pick])
  {
    var free: seq<int> := [];
    for i := 0 to |starts|
      invariant free == Unused(starts[..i], used)
    {
      assert starts[..i + 1][..i] == starts[..i];
      if starts[i] !in used { free := free + [starts[i]]; }
    }
    assert starts[..|starts|] == starts;
    if |free| == 0 {
      forall b | b in starts ensures b in used { UnusedExact(starts, used, b); }
      return None;
    }
    var k := Draw(|free|, pick);
    var x := free[k];
    UnusedExact(starts, used, x);
    r := Some(x);
  }
}
