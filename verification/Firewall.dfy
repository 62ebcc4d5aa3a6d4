/** The forwarding rules of one account, and where a set of rules sends a port. */
module Firewall {
  import opened Common

  datatype Proto = TCP | UDP

  datatype Chain = Prerouting | Output

  /** `dport lo-hi` of one protocol, rewritten to `ip`, and to port `to` if given; `daddr` restricts it to one
      destination address. */
  datatype Rule = Rule(chain: Chain, daddr: string, proto: Proto, lo: int, hi: int, ip: int, to: Option<int>)

  const SSH: int := 22

  function OnChain(chain: Chain, daddr: string, ip: int, sshPort: int, start: int, perUser: int): seq<Rule> {
    [Rule(chain, daddr, TCP, sshPort, sshPort, ip, Some(SSH)),
     Rule(chain, daddr, TCP, start, start + perUser - 1, ip, None),
     Rule(chain, daddr, UDP, start, start + perUser - 1, ip, None)]
  }

  /** The file of one account. Without a public address of its own the host gets no rules for its own traffic. */
  method WriteUser(publicIP: string, ip: int, sshPort: int, start: int, perUser: int) returns (rules: seq<Rule>)
    ensures rules == UserRules(publicIP, ip, sshPort, start, perUser)
  {
    var last := start + perUser - 1;
    var daddr := if publicIP == "127.0.0.1" then "" else publicIP;
    rules := [];
    rules := rules + [Rule(Prerouting, "", TCP, sshPort, sshPort, ip, Some(SSH))];
    rules := rules + [Rule(Prerouting, "", TCP, start, last, ip, None)];
    rules := rules + [Rule(Prerouting, "", UDP, start, last, ip, None)];
    if daddr != "" {
      rules := rules + [Rule(Output, daddr, TCP, sshPort, sshPort, ip, Some(SSH))];
      rules := rules + [Rule(Output, daddr, TCP, start, last, ip, None)];
      rules := rules + [Rule(Output, daddr, UDP, start, last, ip, None)];
    }
  }

  function UserRules(publicIP: string, ip: int, sshPort: int, start: int, perUser: int): seq<Rule> {
    OnChain(Prerouting, "", ip, sshPort, start, perUser) +
    if publicIP == "" || publicIP == "127.0.0.1" then [] else OnChain(Output, publicIP, ip, sshPort, start, perUser)
  }

  /** A packet: on which chain it is seen, its destination, its protocol and port. */
  datatype Packet = Packet(chain: Chain, dest: string, proto: Proto, port: int)

  predicate Hits(r: Rule, p: Packet) {
    r.chain == p.chain && r.proto == p.proto && r.lo <= p.port <= r.hi && (r.daddr == "" || r.daddr == p.dest)
  }

  /** The packet's port is the account's SSH port or in its block. */
  predicate Owned(sshPort: int, start: int, perUser: int, p: Packet) {
    (p.proto == TCP && p.port == sshPort) || start <= p.port < start + perUser
  }

  /** The chains and destinations the file covers. */
  predicate Covered(publicIP: string, p: Packet) {
    p.chain == Prerouting || (publicIP != "" && publicIP != "127.0.0.1" && p.dest == publicIP)
  }

  /** Some rule takes the packet. */
  ghost predicate Takes(rules: seq<Rule>, p: Packet) { exists i :: 0 <= i < |rules| && Hits(rules[i], p) }

  /** Every rule that takes the packet sends it to the address; the SSH port, unless it lies in the block, to 22. */
  ghost predicate SendsTo(rules: seq<Rule>, p: Packet, ip: int, sshPort: int, start: int, perUser: int) {
    forall i :: 0 <= i < |rules| && Hits(rules[i], p) ==>
      rules[i].ip == ip &&
      (!(start <= sshPort < start + perUser) ==> rules[i].to == if p.proto == TCP && p.port == sshPort then Some(22) else None)
  }

  /** Where the rules of an account send a packet: exactly its own ports are taken, the SSH port to the
      container's port 22 and the block to the same port, all to its own address. */
  lemma UserRulesExact(publicIP: string, ip: int, sshPort: int, start: int, perUser: int, p: Packet)
    ensures Takes(UserRules(publicIP, ip, sshPort, start, perUser), p) <==> Owned(sshPort, start, perUser, p) && Covered(publicIP, p)
    ensures SendsTo(UserRules(publicIP, ip, sshPort, start, perUser), p, ip, sshPort, start, perUser)
  {
    var rules := UserRules(publicIP, ip, sshPort, start, perUser);
    if Owned(sshPort, start, perUser, p) && Covered(publicIP, p) {
      var base := if p.chain == Prerouting then 0 else 3;
      var k := if p.proto == UDP then 2 else if p.port == sshPort then 0 else 1;
      assert Hits(rules[base + k], p);
    }
  }
}
