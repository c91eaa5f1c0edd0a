/**
 * internal/policy/engine.go: lowering node-ID policies to IP rules for one node, and the
 * independent reading of the same policies that decides which peers are visible.
 */
module PolicyEngine {
  import opened Prelude
  import opened Bytes
  import opened Addresses
  import opened Api

  datatype FirewallRule = FirewallRule(
    iface: seq<Byte>,
    srcIP: string,
    dstIP: string,
    port: int,
    protocol: string,
    action: string)

  /** The fields of a packet that rules speak about. No port: the transport header is too short. */
  datatype Flow = Flow(src: Addr, dst: Addr, proto: Byte, dport: Option<nat>)

  type PeerTable = map<string, string>

  const WILDCARD: string := "*"

  const TCP: Byte := 6

  const UDP: Byte := 17

  // ----- Matching -----

  predicate IsValidProtocol(protocol: string)
  {
    protocol == "" || protocol == "tcp" || protocol == "udp"
  }

  predicate ProtocolMatches(protocol: string, proto: Byte)
  {
    protocol == "" || (protocol == "tcp" && proto == TCP) || (protocol == "udp" && proto == UDP)
  }

  predicate PortMatches(port: int, dport: Option<nat>)
  {
    port <= 0 || dport == Some(port)
  }

  /** The meaning of an IP rule. */
  predicate RuleMatches(lib: Parser, r: FirewallRule, f: Flow)
  {
    && Covers(lib, r.srcIP, f.src)
    && Covers(lib, r.dstIP, f.dst)
    && ProtocolMatches(r.protocol, f.proto)
    && PortMatches(r.port, f.dport)
  }

  /** The action of the first IP rule that matches. */
  function FirstMatch(lib: Parser, rules: seq<FirewallRule>, f: Flow): Option<string>
  {
    if rules == [] then None
    else if RuleMatches(lib, rules[0], f) then Some(rules[0].action)
    else FirstMatch(lib, rules[1..], f)
  }

  /** Go's map read: a missing key yields the zero value. */
  function Lookup(peers: PeerTable, id: string): string
  {
    if id in peers then peers[id] else ""
  }

  /** Node `id`, or any node for the wildcard, owns address `a`. */
  predicate Names(lib: Parser, peers: PeerTable, id: string, a: Addr)
  {
    id == WILDCARD || Host(lib, Lookup(peers, id)) == Some(a)
  }

  /** The meaning of a policy rule; rules with an unknown protocol match nothing. */
  predicate PolicyMatches(lib: Parser, peers: PeerTable, r: PolicyRule, f: Flow)
  {
    && IsValidProtocol(r.protocol)
    && Names(lib, peers, r.src, f.src)
    && Names(lib, peers, r.dst, f.dst)
    && ProtocolMatches(r.protocol, f.proto)
    && PortMatches(r.port, f.dport)
  }

  /** What the policies decide: the first matching rule, and deny when there is none. */
  function PolicyVerdict(lib: Parser, peers: PeerTable, rules: seq<PolicyRule>, f: Flow): string
  {
    if rules == [] then "deny"
    else if PolicyMatches(lib, peers, rules[0], f) then rules[0].action
    else PolicyVerdict(lib, peers, rules[1..], f)
  }

  function AllRules(policies: seq<Policy>): seq<PolicyRule>
  {
    if policies == [] then [] else policies[0].rules + AllRules(policies[1..])
  }

  // ----- Lowering -----

  predicate MatchesLocal(id: string, local: string)
  {
    id == local || id == WILDCARD
  }

  function ResolveIP(id: string, peers: PeerTable): string
  {
    if id == WILDCARD then ANY else Lookup(peers, id)
  }

  function ResolveWildcard(id: string, fallback: string): string
  {
    if id == WILDCARD then ANY else fallback
  }

  /** The IP rule for one policy rule, or none when the rule does not concern the local node. */
  function LowerRule(r: PolicyRule, local: string, iface: seq<Byte>, peers: PeerTable): Option<FirewallRule>
  {
    var localIP := Lookup(peers, local);
    var srcLocal, dstLocal := MatchesLocal(r.src, local), MatchesLocal(r.dst, local);
    if !IsValidProtocol(r.protocol) || (!srcLocal && !dstLocal) then None
    else
      var (srcIP, dstIP) :=
        if srcLocal && !dstLocal then (localIP, ResolveIP(r.dst, peers))
        else if dstLocal && !srcLocal then (ResolveIP(r.src, peers), localIP)
        else (ResolveWildcard(r.src, localIP), ResolveWildcard(r.dst, localIP));
      Some(FirewallRule(iface, srcIP, dstIP, r.port, r.protocol, r.action))
  }

  function LowerRules(rules: seq<PolicyRule>, local: string, iface: seq<Byte>, peers: PeerTable): seq<FirewallRule>
  {
    if rules == [] then []
    else
      var rest := LowerRules(rules[1..], local, iface, peers);
      match LowerRule(rules[0], local, iface, peers)
      case None => rest
      case Some(fr) => [fr] + rest
  }

  function DefaultDeny(iface: seq<Byte>): FirewallRule
  {
    FirewallRule(iface, ANY, ANY, 0, "", "deny")
  }

  function Lower(policies: seq<Policy>, local: string, iface: seq<Byte>, peers: PeerTable): seq<FirewallRule>
  {
    LowerRules(AllRules(policies), local, iface, peers) + [DefaultDeny(iface)]
  }

  lemma {:induction false} LowerRulesConcat(
    xs: seq<PolicyRule>, ys: seq<PolicyRule>, local: string, iface: seq<Byte>, peers: PeerTable)
    ensures LowerRules(xs + ys, local, iface, peers)
         == LowerRules(xs, local, iface, peers) + LowerRules(ys, local, iface, peers)
  {
    if xs == [] {
      assert xs + ys == ys;
    } else {
      assert (xs + ys)[0] == xs[0] && (xs + ys)[1..] == xs[1..] + ys;
      LowerRulesConcat(xs[1..], ys, local, iface, peers);
    }
  }

  lemma {:induction false} AllRulesSnoc(policies: seq<Policy>, p: Policy)
    ensures AllRules(policies + [p]) == AllRules(policies) + p.rules
  {
    if policies == [] {
      assert policies + [p] == [p];
    } else {
      assert (policies + [p])[0] == policies[0] && (policies + [p])[1..] == policies[1..] + [p];
      AllRulesSnoc(policies[1..], p);
    }
  }

  method BuildFirewallRules(policies: seq<Policy>, local: string, iface: seq<Byte>, peers: PeerTable)
    returns (rules: seq<FirewallRule>)
    ensures rules == Lower(policies, local, iface, peers)
  {
    var localIP := Lookup(peers, local);
    rules := [];
    for p := 0 to |policies|
      invariant rules == LowerRules(AllRules(policies[..p]), local, iface, peers)
    {
      var pol := policies[p].rules;
      ghost var before := rules;
      for i := 0 to |pol|
        invariant rules == before + LowerRules(pol[..i], local, iface, peers)
      {
        var r := pol[i];
        assert pol[..i + 1] == pol[..i] + [r];
        LowerRulesConcat(pol[..i], [r], local, iface, peers);
        var srcLocal, dstLocal := MatchesLocal(r.src, local), MatchesLocal(r.dst, local);
        if !IsValidProtocol(r.protocol) || (!srcLocal && !dstLocal) {
          continue;
        }
        var srcIP, dstIP;
        if srcLocal && !dstLocal {
          srcIP, dstIP := localIP, ResolveIP(r.dst, peers);
        } else if dstLocal && !srcLocal {
          srcIP, dstIP := ResolveIP(r.src, peers), localIP;
        } else {
          srcIP, dstIP := ResolveWildcard(r.src, localIP), ResolveWildcard(r.dst, localIP);
        }
        rules := rules + [FirewallRule(iface, srcIP, dstIP, r.port, r.protocol, r.action)];
      }
      assert pol[..|pol|] == pol;
      assert policies[..p + 1] == policies[..p] + [policies[p]];
      AllRulesSnoc(policies[..p], policies[p]);
      LowerRulesConcat(AllRules(policies[..p]), pol, local, iface, peers);
    }
    assert policies[..|policies|] == policies;
    rules := rules + [DefaultDeny(iface)];
  }

  // ----- The lowering preserves the verdict -----

  /** The local node has a single address and nobody shares it; other entries may be any text. */
  predicate MeshTable(lib: Parser, peers: PeerTable, local: string)
  {
    && local in peers && Host(lib, peers[local]).Some?
    && (forall id | id in peers && id != local :: Host(lib, peers[id]) != Host(lib, peers[local]))
  }

  function LocalAddr(lib: Parser, peers: PeerTable, local: string): Addr
    requires MeshTable(lib, peers, local)
  {
    Host(lib, peers[local]).value
  }

  predicate Touches(f: Flow, a: Addr)
  {
    f.src == a || f.dst == a
  }

  /** The text stands for more than one address: empty, 0.0.0.0/0, or a block shorter than /32. */
  predicate Wide(lib: Parser, text: string)
  {
    IsWild(text) ||
    match ParseBlock(lib, text)
    case Ok(block) => block.ones < 32
    case Err(_) => false
  }

  /** The id is resolved through the table, to a text that stands for more than one address. */
  predicate WideSide(lib: Parser, peers: PeerTable, local: string, id: string)
  {
    !MatchesLocal(id, local) && Wide(lib, Lookup(peers, id))
  }

  /** The rule concerns the local node and names another node whose address text is wide or missing. */
  predicate Widened(lib: Parser, peers: PeerTable, local: string, r: PolicyRule)
  {
    && IsValidProtocol(r.protocol)
    && (MatchesLocal(r.src, local) || MatchesLocal(r.dst, local))
    && (WideSide(lib, peers, local, r.src) || WideSide(lib, peers, local, r.dst))
  }

  predicate LoweredMatches(lib: Parser, r: PolicyRule, local: string, iface: seq<Byte>, peers: PeerTable, f: Flow)
  {
    match LowerRule(r, local, iface, peers)
    case None => false
    case Some(fr) => RuleMatches(lib, fr, f)
  }

  /** A text that is not wide covers the host it denotes, or nothing. */
  lemma NarrowCovers(lib: Parser, text: string, a: Addr)
    requires !Wide(lib, text)
    ensures Covers(lib, text, a) <==> Host(lib, text) == Some(a)
  {
    if Host(lib, text).Some? {
      HostCoversItself(lib, text, a);
    }
  }

  /** An address that a wide text covers; no node owns it through that text. */
  function WideAddr(lib: Parser, text: string): (a: Addr)
    ensures Wide(lib, text) ==> Covers(lib, text, a) && Host(lib, text) != Some(a)
  {
    match ParseBlock(lib, text)
    case Ok(block) => block.addr
    case Err(_) => [0, 0, 0, 0]
  }

  lemma LowerRulePreserves(lib: Parser, r: PolicyRule, local: string, iface: seq<Byte>, peers: PeerTable, f: Flow)
    requires MeshTable(lib, peers, local)
    requires !Widened(lib, peers, local, r)
    requires Touches(f, LocalAddr(lib, peers, local))
    ensures LoweredMatches(lib, r, local, iface, peers, f) <==> PolicyMatches(lib, peers, r, f)
  {
    NarrowCovers(lib, peers[local], f.src);
    NarrowCovers(lib, peers[local], f.dst);
    if !Wide(lib, Lookup(peers, r.src)) {
      NarrowCovers(lib, Lookup(peers, r.src), f.src);
    }
    if !Wide(lib, Lookup(peers, r.dst)) {
      NarrowCovers(lib, Lookup(peers, r.dst), f.dst);
    }
  }

  /** A flow of the local node that satisfies the rule's protocol and port and its wide side, if any. */
  function LocalProbe(lib: Parser, peers: PeerTable, local: string, r: PolicyRule): Flow
    requires MeshTable(lib, peers, local)
  {
    var a := LocalAddr(lib, peers, local);
    Flow(if WideSide(lib, peers, local, r.src) then WideAddr(lib, Lookup(peers, r.src)) else a,
         if WideSide(lib, peers, local, r.dst) then WideAddr(lib, Lookup(peers, r.dst)) else a,
         if r.protocol == "udp" then UDP else TCP, if r.port > 0 then Some(r.port) else None)
  }

  /**
   * A missing or empty table entry is lowered to the empty text, which nftables reads as "any
   * address", and an entry in CIDR notation to its whole block. So a rule keeps its meaning on the
   * local node's traffic exactly when no other node it names has such an entry.
   */
  lemma LowerRuleExact(lib: Parser, r: PolicyRule, local: string, iface: seq<Byte>, peers: PeerTable)
    requires MeshTable(lib, peers, local)
    ensures (forall f | Touches(f, LocalAddr(lib, peers, local)) ::
              LoweredMatches(lib, r, local, iface, peers, f) <==> PolicyMatches(lib, peers, r, f))
            <==> !Widened(lib, peers, local, r)
  {
    var a := LocalAddr(lib, peers, local);
    if Widened(lib, peers, local, r) {
      var f := LocalProbe(lib, peers, local, r);
      HostCoversItself(lib, peers[local], a);
      assert Touches(f, a) && !PolicyMatches(lib, peers, r, f);
      assert LoweredMatches(lib, r, local, iface, peers, f);
    } else {
      forall f | Touches(f, a)
        ensures LoweredMatches(lib, r, local, iface, peers, f) <==> PolicyMatches(lib, peers, r, f)
      {
        LowerRulePreserves(lib, r, local, iface, peers, f);
      }
    }
  }

  lemma {:induction false} LowerRulesPreserve(
    lib: Parser, rules: seq<PolicyRule>, local: string, iface: seq<Byte>, peers: PeerTable, f: Flow)
    requires MeshTable(lib, peers, local)
    requires forall r | r in rules :: !Widened(lib, peers, local, r)
    requires Touches(f, LocalAddr(lib, peers, local))
    ensures FirstMatch(lib, LowerRules(rules, local, iface, peers) + [DefaultDeny(iface)], f)
         == Some(PolicyVerdict(lib, peers, rules, f))
  {
    var deny := [DefaultDeny(iface)];
    if rules == [] {
      assert LowerRules(rules, local, iface, peers) + deny == deny;
      assert RuleMatches(lib, deny[0], f);
    } else {
      var rest := LowerRules(rules[1..], local, iface, peers);
      LowerRulePreserves(lib, rules[0], local, iface, peers, f);
      LowerRulesPreserve(lib, rules[1..], local, iface, peers, f);
      match LowerRule(rules[0], local, iface, peers)
      case None =>
      case Some(fr) =>
        assert ([fr] + rest + deny)[1..] == rest + deny;
    }
  }

  /** First-match over the lowered IP rules decides every flow of the local node as the policies do. */
  lemma LoweringPreservesVerdict(
    lib: Parser, policies: seq<Policy>, local: string, iface: seq<Byte>, peers: PeerTable, f: Flow)
    requires MeshTable(lib, peers, local)
    requires forall r | r in AllRules(policies) :: !Widened(lib, peers, local, r)
    requires Touches(f, LocalAddr(lib, peers, local))
    ensures FirstMatch(lib, Lower(policies, local, iface, peers), f)
         == Some(PolicyVerdict(lib, peers, AllRules(policies), f))
  {
    LowerRulesPreserve(lib, AllRules(policies), local, iface, peers, f);
  }

  // ----- The same statement in terms of node IDs -----

  predicate NamesNode(id: string, node: string)
  {
    id == WILDCARD || id == node
  }

  predicate NodeMatches(r: PolicyRule, src: string, dst: string, proto: Byte, dport: Option<nat>)
  {
    && IsValidProtocol(r.protocol)
    && NamesNode(r.src, src)
    && NamesNode(r.dst, dst)
    && ProtocolMatches(r.protocol, proto)
    && PortMatches(r.port, dport)
  }

  /** First match over node IDs with default deny; addresses play no part. */
  function NodeVerdict(rules: seq<PolicyRule>, src: string, dst: string, proto: Byte, dport: Option<nat>): string
  {
    if rules == [] then "deny"
    else if NodeMatches(rules[0], src, dst, proto, dport) then rules[0].action
    else NodeVerdict(rules[1..], src, dst, proto, dport)
  }

  /** The table gives the node a single address. */
  predicate Resolved(lib: Parser, peers: PeerTable, id: string)
  {
    id in peers && Host(lib, peers[id]).Some?
  }

  /** No two nodes have the same address. Entries that are not single addresses are allowed. */
  predicate InjectiveTable(lib: Parser, peers: PeerTable)
  {
    forall x, y | x in peers && y in peers && x != y && Resolved(lib, peers, x) ::
      Host(lib, peers[x]) != Host(lib, peers[y])
  }

  function FlowBetween(
    lib: Parser, peers: PeerTable, src: string, dst: string, proto: Byte, dport: Option<nat>): Flow
    requires InjectiveTable(lib, peers) && Resolved(lib, peers, src) && Resolved(lib, peers, dst)
  {
    Flow(Host(lib, peers[src]).value, Host(lib, peers[dst]).value, proto, dport)
  }

  lemma {:induction false} VerdictByNodeId(
    lib: Parser, peers: PeerTable, rules: seq<PolicyRule>,
    src: string, dst: string, proto: Byte, dport: Option<nat>)
    requires InjectiveTable(lib, peers) && Resolved(lib, peers, src) && Resolved(lib, peers, dst)
    ensures PolicyVerdict(lib, peers, rules, FlowBetween(lib, peers, src, dst, proto, dport))
         == NodeVerdict(rules, src, dst, proto, dport)
  {
    if rules == [] {
    } else {
      VerdictByNodeId(lib, peers, rules[1..], src, dst, proto, dport);
    }
  }

  lemma LoweringDecidesByNodeId(
    lib: Parser, policies: seq<Policy>, local: string, iface: seq<Byte>, peers: PeerTable,
    src: string, dst: string, proto: Byte, dport: Option<nat>)
    requires InjectiveTable(lib, peers) && Resolved(lib, peers, src) && Resolved(lib, peers, dst)
    requires src == local || dst == local
    requires forall r | r in AllRules(policies) :: !Widened(lib, peers, local, r)
    ensures FirstMatch(lib, Lower(policies, local, iface, peers), FlowBetween(lib, peers, src, dst, proto, dport))
         == Some(NodeVerdict(AllRules(policies), src, dst, proto, dport))
  {
    LoweringPreservesVerdict(lib, policies, local, iface, peers, FlowBetween(lib, peers, src, dst, proto, dport));
    VerdictByNodeId(lib, peers, AllRules(policies), src, dst, proto, dport);
  }

  // ----- Peer visibility -----

  /** The rule lets the two nodes talk, in one direction or the other. */
  predicate Connects(r: PolicyRule, local: string, peer: string)
  {
    && r.action == "allow"
    && ((NamesNode(r.src, local) && NamesNode(r.dst, peer)) || (NamesNode(r.src, peer) && NamesNode(r.dst, local)))
  }

  predicate Visible(policies: seq<Policy>, local: string, peer: string)
  {
    exists r | r in AllRules(policies) :: Connects(r, local, peer)
  }

  /** Some allow rule of some policy has one node on each side, a `*` standing for either. */
  predicate Connected(policies: seq<Policy>, local: string, peer: string)
  {
    exists p, r | p in policies && r in p.rules ::
      && r.action == "allow"
      && ((r.src in {local, "*"} && r.dst in {peer, "*"}) || (r.src in {peer, "*"} && r.dst in {local, "*"}))
  }

  lemma {:induction false} InAllRules(policies: seq<Policy>, r: PolicyRule)
    ensures r in AllRules(policies) <==> exists p | p in policies :: r in p.rules
  {
    if policies == [] {
    } else {
      InAllRules(policies[1..], r);
      assert policies == [policies[0]] + policies[1..];
    }
  }

  lemma VisibleIff(policies: seq<Policy>, local: string, peer: string)
    ensures Visible(policies, local, peer) <==> Connected(policies, local, peer)
  {
    if Visible(policies, local, peer) {
      var r :| r in AllRules(policies) && Connects(r, local, peer);
      InAllRules(policies, r);
      var p :| p in policies && r in p.rules;
    }
    if Connected(policies, local, peer) {
      var p, r :| && p in policies && r in p.rules && r.action == "allow"
                  && (|| (r.src in {local, "*"} && r.dst in {peer, "*"})
                      || (r.src in {peer, "*"} && r.dst in {local, "*"}));
      InAllRules(policies, r);
      assert Connects(r, local, peer);
    }
  }

  method PeerAllowed(peer: string, local: string, policies: seq<Policy>) returns (allowed: bool)
    ensures allowed <==> Connected(policies, local, peer)
  {
    VisibleIff(policies, local, peer);
    for p := 0 to |policies|
      invariant !Visible(policies[..p], local, peer)
    {
      assert policies[..p + 1] == policies[..p] + [policies[p]];
      AllRulesSnoc(policies[..p], policies[p]);
      var rules := policies[p].rules;
      for i := 0 to |rules|
        invariant forall k | 0 <= k < i :: !Connects(rules[k], local, peer)
      {
        var r := rules[i];
        if r.action != "allow" {
          continue;
        }
        var outbound := (r.src == local || r.src == WILDCARD) && (r.dst == peer || r.dst == WILDCARD);
        var inbound := (r.src == peer || r.src == WILDCARD) && (r.dst == local || r.dst == WILDCARD);
        if outbound || inbound {
          assert r in AllRules(policies[..p + 1]);
          PrefixVisible(policies, p + 1, local, peer);
          return true;
        }
      }
    }
    assert policies[..|policies|] == policies;
    return false;
  }

  lemma {:induction false} PrefixVisible(policies: seq<Policy>, n: nat, local: string, peer: string)
    requires n <= |policies|
    requires Visible(policies[..n], local, peer)
    ensures Visible(policies, local, peer)
    decreases |policies| - n
  {
    if n < |policies| {
      assert policies[..n + 1] == policies[..n] + [policies[n]];
      AllRulesSnoc(policies[..n], policies[n]);
      var r :| r in AllRules(policies[..n]) && Connects(r, local, peer);
      assert r in AllRules(policies[..n + 1]);
      PrefixVisible(policies, n + 1, local, peer);
    } else {
      assert policies[..n] == policies;
    }
  }

  /** `kept` are the positions, in order, of the peers to keep among the first `n`. */
  ghost predicate Keeps(kept: seq<nat>, peers: seq<Peer>, n: nat, policies: seq<Policy>, local: string)
    requires n <= |peers|
  {
    && (forall i, j | 0 <= i < j < |kept| :: kept[i] < kept[j])
    && (forall i | 0 <= i < |kept| :: kept[i] < n)
    && (forall k: nat | k < n :: k in kept <==> peers[k].id != local && Connected(policies, local, peers[k].id))
  }

  /** Keeps the connected peers, each as often and in the order in which it is listed. */
  method FilterPeers(peers: seq<Peer>, policies: seq<Policy>, local: string)
    returns (allowed: seq<Peer>, ghost kept: seq<nat>)
    ensures Keeps(kept, peers, |peers|, policies, local)
    ensures |allowed| == |kept| && forall i | 0 <= i < |kept| :: allowed[i] == peers[kept[i]]
  {
    allowed, kept := [], [];
    if |policies| == 0 {
      return;
    }
    for i := 0 to |peers|
      invariant Keeps(kept, peers, i, policies, local)
      invariant |allowed| == |kept| && forall j | 0 <= j < |kept| :: allowed[j] == peers[kept[j]]
    {
      if peers[i].id == local {
        continue;
      }
      var ok := PeerAllowed(peers[i].id, local, policies);
      if ok {
        allowed, kept := allowed + [peers[i]], kept + [i];
      }
    }
  }

  lemma {:induction false} NotConnectedNotAllowed(
    rules: seq<PolicyRule>, local: string, peer: string, src: string, dst: string, proto: Byte, dport: Option<nat>)
    requires forall r | r in rules :: !Connects(r, local, peer)
    requires (src == local && dst == peer) || (src == peer && dst == local)
    ensures NodeVerdict(rules, src, dst, proto, dport) != "allow"
  {
    if rules == [] {
    } else {
      assert rules[0] in rules;
      NotConnectedNotAllowed(rules[1..], local, peer, src, dst, proto, dport);
    }
  }

  /** A hidden peer is unreachable in both directions under the lowered rules. */
  lemma HiddenPeerIsUnreachable(
    lib: Parser, policies: seq<Policy>, local: string, iface: seq<Byte>, peers: PeerTable, peer: string,
    src: string, dst: string, proto: Byte, dport: Option<nat>)
    requires InjectiveTable(lib, peers) && Resolved(lib, peers, local) && Resolved(lib, peers, peer)
    requires forall r | r in AllRules(policies) :: !Widened(lib, peers, local, r)
    requires !Connected(policies, local, peer)
    requires (src == local && dst == peer) || (src == peer && dst == local)
    ensures FirstMatch(lib, Lower(policies, local, iface, peers), FlowBetween(lib, peers, src, dst, proto, dport))
         != Some("allow")
  {
    VisibleIff(policies, local, peer);
    NotConnectedNotAllowed(AllRules(policies), local, peer, src, dst, proto, dport);
    LoweringDecidesByNodeId(lib, policies, local, iface, peers, src, dst, proto, dport);
  }

  /** A rule that names a node with a wide or missing entry admits every peer the text covers, visible or not. */
  lemma WideRuleAdmitsHiddenPeer(
    lib: Parser, local: string, iface: seq<Byte>, peers: PeerTable, peer: string, named: string,
    proto: Byte, dport: Option<nat>)
    requires InjectiveTable(lib, peers) && Resolved(lib, peers, local) && Resolved(lib, peers, peer)
    requires local != WILDCARD && peer != WILDCARD && named != WILDCARD && local !in {peer, named} && peer != named
    requires Covers(lib, Lookup(peers, named), Host(lib, peers[peer]).value)
    ensures var policies := [Policy("p", [PolicyRule(named, local, 0, "", "allow")])];
            && !Connected(policies, local, peer)
            && FirstMatch(lib, Lower(policies, local, iface, peers), FlowBetween(lib, peers, peer, local, proto, dport))
               == Some("allow")
  {
    var r := PolicyRule(named, local, 0, "", "allow");
    var policies := [Policy("p", [r])];
    assert AllRules(policies) == [r];
    HostCoversItself(lib, peers[local], Host(lib, peers[local]).value);
  }
}
