/**
 * internal/policy/nftables_linux.go: lowering IP rules to nftables register programs.
 * The kernel's evaluation of those programs is given here as an interpreter over packets
 * (header offsets as in section 3.1 of RFC 791).
 */
module Nftables {
  import opened Prelude
  import opened Bytes
  import opened Addresses
  import opened Api
  import opened PolicyEngine

  // ----- Packets and programs -----

  datatype Packet = Packet(iif: seq<Byte>, network: seq<Byte>, l4proto: Byte, transport: seq<Byte>)

  const IFNAMSIZ: nat := 16

  /** Kernel interface names are 1..15 bytes without NUL; an IPv4 header has at least 20 bytes. */
  predicate WellFormed(pkt: Packet)
  {
    1 <= |pkt.iif| < IFNAMSIZ && 0 !in pkt.iif && |pkt.network| >= 20
  }

  function FlowOf(pkt: Packet): Flow
    requires WellFormed(pkt)
  {
    Flow(pkt.network[12..16], pkt.network[16..20], pkt.l4proto,
         if |pkt.transport| >= 4 then Some(Uint16(pkt.transport[2..4])) else None)
  }

  datatype Header = NetworkHeader | TransportHeader

  datatype Kind = Accept | Drop

  datatype Expr =
    | MetaIifname(dreg: nat)
    | MetaL4proto(dreg: nat)
    | Payload(dreg: nat, base: Header, offset: nat, len: nat)
    | Bitwise(sreg: nat, dreg: nat, mask: seq<Byte>, xor: seq<Byte>)
    | Cmp(sreg: nat, data: seq<Byte>)
    | Counter
    | Verdict(kind: Kind)

  type Program = seq<Expr>

  type Registers = map<nat, seq<Byte>>

  /** A rule either falls through to the next rule, ends the chain, or carries on. */
  datatype Outcome = Break | Stop(kind: Kind) | Next(regs: Registers)

  function HeaderBytes(pkt: Packet, base: Header): seq<Byte>
  {
    match base
    case NetworkHeader => pkt.network
    case TransportHeader => pkt.transport
  }

  function MaskXor(data: seq<Byte>, mask: seq<Byte>, xor: seq<Byte>): (r: seq<Byte>)
    requires |data| == |mask| == |xor|
  {
    seq(|data|, i requires 0 <= i < |data| => XorByte(AndByte(data[i], mask[i]), xor[i]))
  }

  /** One expression; loads past the end of a header and failed comparisons break off the rule. */
  function Step(e: Expr, pkt: Packet, regs: Registers): Outcome
  {
    match e
    case MetaIifname(d) => Next(regs[d := pkt.iif + Zeros(if |pkt.iif| < IFNAMSIZ then IFNAMSIZ - |pkt.iif| else 0)])
    case MetaL4proto(d) => Next(regs[d := [pkt.l4proto]])
    case Payload(d, base, offset, len) =>
      var bytes := HeaderBytes(pkt, base);
      if offset + len <= |bytes| then Next(regs[d := bytes[offset..offset + len]]) else Break
    case Bitwise(s, d, mask, xor) =>
      if s in regs && |regs[s]| == |mask| == |xor| then Next(regs[d := MaskXor(regs[s], mask, xor)]) else Break
    case Cmp(s, data) => if s in regs && data <= regs[s] then Next(regs) else Break
    case Counter => Next(regs)
    case Verdict(kind) => Stop(kind)
  }

  function Exec(es: Program, pkt: Packet, regs: Registers): Outcome
  {
    if es == [] then Next(regs)
    else
      match Step(es[0], pkt, regs)
      case Break => Break
      case Stop(kind) => Stop(kind)
      case Next(regs') => Exec(es[1..], pkt, regs')
  }

  function RunRule(es: Program, pkt: Packet): Option<Kind>
  {
    match Exec(es, pkt, map[])
    case Stop(kind) => Some(kind)
    case _ => None
  }

  /** The first rule of the chain that reaches a verdict. */
  function RunChain(chain: seq<Program>, pkt: Packet): Option<Kind>
  {
    if chain == [] then None
    else
      match RunRule(chain[0], pkt)
      case Some(kind) => Some(kind)
      case None => RunChain(chain[1..], pkt)
  }

  // ----- Building programs -----

  /** Byte `i` of `net.CIDRMask(ones, 32)` when `n` of its leading bits are set. */
  function MaskByte(n: nat): (m: Byte)
    requires n <= 8
  {
    255 - 255 / Pow2(n)
  }

  function LeadingIn(ones: Ones, i: nat): (n: nat)
    requires i < 4
    ensures n <= 8
  {
    if ones >= 8 * i + 8 then 8 else if ones <= 8 * i then 0 else ones - 8 * i
  }

  function CIDRMask(ones: Ones): (m: seq<Byte>)
    ensures |m| == 4
  {
    seq(4, i requires 0 <= i < 4 => MaskByte(LeadingIn(ones, i)))
  }

  /** The network address `ip & mask` that `net.ParseCIDR` returns beside the address. */
  function NetworkAddr(a: Addr, ones: Ones): Addr
  {
    seq(4, i requires 0 <= i < 4 => AndByte(a[i], CIDRMask(ones)[i]))
  }

  datatype BuildError =
    | NameTooLong
    | BadSource(err: AddrError)
    | BadDestination(err: AddrError)
    | BadProtocol
    | BadAction

  function IPMatchExprs(lib: Parser, text: string, offset: nat): Result<Program, AddrError>
  {
    match ParseBlock(lib, text)
    case Err(e) => Err(e)
    case Ok(Block(addr, ones)) =>
      var load := Payload(1, NetworkHeader, offset, 4);
      if ones == 32 then Ok([load, Cmp(1, addr)])
      else Ok([load, Bitwise(1, 1, CIDRMask(ones), Zeros(4)), Cmp(1, NetworkAddr(addr, ones))])
  }

  function PortBytes(port: nat): seq<Byte>
    requires port < 65536
  {
    PutUint16(port)
  }

  function ProtocolNumber(protocol: string): Option<Byte>
  {
    if protocol == "tcp" then Some(TCP) else if protocol == "udp" then Some(UDP) else None
  }

  function IfaceExprs(name: seq<Byte>): Program
  {
    if name == [] then [] else [MetaIifname(1), Cmp(1, name + [0])]
  }

  function AddrExprs(lib: Parser, text: string, offset: nat): Result<Program, AddrError>
  {
    if IsWild(text) then Ok([]) else IPMatchExprs(lib, text, offset)
  }

  function ProtoExprs(protocol: string): Program
  {
    match ProtocolNumber(protocol)
    case Some(p) => [MetaL4proto(1), Cmp(1, [p])]
    case None => []
  }

  /** The port is converted to uint16 before it is encoded, so it is taken modulo 65536. */
  function PortExprs(port: int): Program
  {
    if port > 0 then [Payload(1, TransportHeader, 2, 2), Cmp(1, PortBytes(port % 65536))] else []
  }

  function ActionKind(action: string): Kind
  {
    if action == "allow" then Accept else Drop
  }

  /** The program of a rule, or the first error in the order in which the fields are handled. */
  function RuleExprs(lib: Parser, r: FirewallRule): Result<Program, BuildError>
  {
    var src := AddrExprs(lib, r.srcIP, 12);
    var dst := AddrExprs(lib, r.dstIP, 16);
    if |r.iface| >= IFNAMSIZ then Err(NameTooLong)
    else if src.Err? then Err(BadSource(src.error))
    else if dst.Err? then Err(BadDestination(dst.error))
    else if r.protocol != "" && ProtocolNumber(r.protocol).None? then Err(BadProtocol)
    else if r.action != "allow" && r.action != "deny" then Err(BadAction)
    else Ok(IfaceExprs(r.iface) + src.value + dst.value + ProtoExprs(r.protocol) + PortExprs(r.port)
            + [Counter, Verdict(ActionKind(r.action))])
  }

  /** A name of 16 bytes or more overruns the 16-byte buffer: the slice expression panics (NameTooLong). */
  method BuildRuleExprs(lib: Parser, r: FirewallRule) returns (res: Result<Program, BuildError>)
    ensures res == RuleExprs(lib, r)
  {
    var exprs: Program := [];
    if r.iface != [] {
      if |r.iface| >= IFNAMSIZ {
        return Err(NameTooLong);
      }
      exprs := exprs + [MetaIifname(1), Cmp(1, r.iface + [0])];
    }
    if r.srcIP != "" && r.srcIP != ANY {
      var src := IPMatchExprs(lib, r.srcIP, 12);
      if src.Err? {
        return Err(BadSource(src.error));
      }
      exprs := exprs + src.value;
    }
    ghost var addrs := AddrExprs(lib, r.srcIP, 12).value;
    assert exprs == IfaceExprs(r.iface) + addrs;
    if r.dstIP != "" && r.dstIP != ANY {
      var dst := IPMatchExprs(lib, r.dstIP, 16);
      if dst.Err? {
        return Err(BadDestination(dst.error));
      }
      exprs := exprs + dst.value;
    }
    assert exprs == IfaceExprs(r.iface) + addrs + AddrExprs(lib, r.dstIP, 16).value;
    if r.protocol != "" {
      var proto := ProtocolNumber(r.protocol);
      if proto.None? {
        return Err(BadProtocol);
      }
      exprs := exprs + [MetaL4proto(1), Cmp(1, [proto.value])];
    }
    ghost var guards := IfaceExprs(r.iface) + addrs + AddrExprs(lib, r.dstIP, 16).value + ProtoExprs(r.protocol);
    assert exprs == guards;
    if r.port > 0 {
      exprs := exprs + [Payload(1, TransportHeader, 2, 2), Cmp(1, PortBytes(r.port % 65536))];
    }
    assert exprs == guards + PortExprs(r.port);
    ghost var body := exprs;
    exprs := exprs + [Counter];
    if r.action == "allow" {
      exprs := exprs + [Verdict(Accept)];
    } else if r.action == "deny" {
      exprs := exprs + [Verdict(Drop)];
    } else {
      return Err(BadAction);
    }
    assert exprs == body + [Counter, Verdict(ActionKind(r.action))];
    res := Ok(exprs);
  }

  // ----- Mask-and-compare is prefix membership -----

  lemma {:induction false} ShiftedBit(m: nat, k: nat, i: nat)
    ensures Bit(Pow2(k) * m, i) == if i < k then 0 else Bit(m, i - k)
    decreases k, i
  {
    if k == 0 {
      assert Pow2(k) * m == m;
    } else {
      assert Pow2(k) * m == 2 * (Pow2(k - 1) * m);
      if i != 0 {
        ShiftedBit(m, k - 1, i - 1);
      }
    }
  }

  lemma {:induction false} LowBitsSet(n: nat, i: nat)
    requires i < n
    ensures Bit(Pow2(n) - 1, i) == 1
    decreases n
  {
    assert Pow2(n) == 2 * Pow2(n - 1);
    if i == 0 {
    } else {
      assert (Pow2(n) - 1) / 2 == Pow2(n - 1) - 1;
      LowBitsSet(n - 1, i - 1);
    }
  }

  lemma MaskByteShape(n: nat)
    requires n <= 8
    ensures MaskByte(n) == Pow2(8 - n) * (Pow2(n) - 1)
  {
    assert Pow2(0) == 1 && Pow2(1) == 2 && Pow2(2) == 4 && Pow2(3) == 8;
    assert Pow2(4) == 16 && Pow2(5) == 32 && Pow2(6) == 64 && Pow2(7) == 128 && Pow2(8) == 256;
    if n == 0 {} else if n == 1 {} else if n == 2 {} else if n == 3 {} else if n == 4 {}
    else if n == 5 {} else if n == 6 {} else if n == 7 {} else {}
  }

  lemma MaskByteBit(n: nat, i: nat)
    requires n <= 8 && i < 8
    ensures Bit(MaskByte(n), i) == if 8 - n <= i then 1 else 0
  {
    MaskByteShape(n);
    ShiftedBit(Pow2(n) - 1, 8 - n, i);
    if 8 - n <= i {
      LowBitsSet(n, i - (8 - n));
    }
  }

  lemma MaskedBit(a: Byte, n: nat, i: nat)
    requires n <= 8 && i < 8
    ensures Bit(AndByte(a, MaskByte(n)), i) == if 8 - n <= i then Bit(a, i) else 0
  {
    AndBits(a, MaskByte(n), i);
    MaskByteBit(n, i);
  }

  /** The `n` leading bits of two bytes agree. */
  predicate LeadingBitsAgree(a: Byte, b: Byte, n: nat)
    requires n <= 8
  {
    forall i: nat | 8 - n <= i < 8 :: Bit(a, i) == Bit(b, i)
  }

  lemma MaskedByteEquality(a: Byte, b: Byte, n: nat)
    requires n <= 8
    ensures AndByte(a, MaskByte(n)) == AndByte(b, MaskByte(n)) <==> LeadingBitsAgree(a, b, n)
  {
    var x, y := AndByte(a, MaskByte(n)), AndByte(b, MaskByte(n));
    forall i: nat | i < 8
      ensures Bit(x, i) == if 8 - n <= i then Bit(a, i) else 0
      ensures Bit(y, i) == if 8 - n <= i then Bit(b, i) else 0
    {
      MaskedBit(a, n, i);
      MaskedBit(b, n, i);
    }
    if x == y {
      forall i: nat | 8 - n <= i < 8
        ensures Bit(a, i) == Bit(b, i)
      {
        assert Bit(x, i) == Bit(y, i);
      }
    } else if LeadingBitsAgree(a, b, n) {
      Pow2Values();
      BitsDetermine(x, y, 8);
    }
  }

  /** The addresses agree on those of their leading `ones` bits that lie in byte `k`. */
  predicate AgreeInByte(a: Addr, net: Addr, ones: Ones, k: nat)
    requires k < 4
  {
    forall at: nat | 8 * k <= at < 8 * k + 8 && at < ones :: AddrBit(a, at) == AddrBit(net, at)
  }

  lemma ByteBits(a: Addr, net: Addr, ones: Ones, k: nat)
    requires k < 4
    ensures LeadingBitsAgree(a[k], net[k], LeadingIn(ones, k)) <==> AgreeInByte(a, net, ones, k)
  {
    var n := LeadingIn(ones, k);
    if LeadingBitsAgree(a[k], net[k], n) {
      forall at: nat | 8 * k <= at < 8 * k + 8 && at < ones
        ensures AddrBit(a, at) == AddrBit(net, at)
      {
        assert at / 8 == k && 8 - n <= 7 - at % 8 < 8;
      }
    }
    if AgreeInByte(a, net, ones, k) {
      forall i: nat | 8 - n <= i < 8
        ensures Bit(a[k], i) == Bit(net[k], i)
      {
        var at := 8 * k + 7 - i;
        assert AddrBit(a, at) == AddrBit(net, at);
      }
    }
  }

  lemma PrefixByBytes(a: Addr, net: Addr, ones: Ones)
    ensures InPrefix(a, net, ones) <==> forall k: nat | k < 4 :: AgreeInByte(a, net, ones, k)
  {
    if forall k: nat | k < 4 :: AgreeInByte(a, net, ones, k) {
      forall at: nat | at < ones
        ensures AddrBit(a, at) == AddrBit(net, at)
      {
        assert AgreeInByte(a, net, ones, at / 8);
      }
    }
  }

  /** Masking both sides and comparing decides membership, for every prefix length. */
  lemma MaskCompareIsPrefix(a: Addr, net: Addr, ones: Ones)
    ensures NetworkAddr(a, ones) == NetworkAddr(net, ones) <==> InPrefix(a, net, ones)
  {
    var x, y := NetworkAddr(a, ones), NetworkAddr(net, ones);
    forall k: nat | k < 4
      ensures x[k] == y[k] <==> AgreeInByte(a, net, ones, k)
    {
      MaskedByteEquality(a[k], net[k], LeadingIn(ones, k));
      ByteBits(a, net, ones, k);
    }
    PrefixByBytes(a, net, ones);
    assert x == y <==> forall k: nat | k < 4 :: x[k] == y[k];
  }

  // ----- A rule's program accepts exactly the packets the rule matches -----

  lemma {:induction false} ExecConcat(xs: Program, ys: Program, pkt: Packet, regs: Registers)
    ensures Exec(xs + ys, pkt, regs) ==
            match Exec(xs, pkt, regs)
            case Break => Break
            case Stop(kind) => Stop(kind)
            case Next(regs') => Exec(ys, pkt, regs')
  {
    if xs == [] {
      assert xs + ys == ys;
    } else {
      assert (xs + ys)[1..] == xs[1..] + ys;
      match Step(xs[0], pkt, regs)
      case Next(regs') => ExecConcat(xs[1..], ys, pkt, regs');
      case _ =>
    }
  }

  lemma ExecSingle(e: Expr, pkt: Packet, regs: Registers)
    ensures Exec([e], pkt, regs) == Step(e, pkt, regs)
  {
    assert [e][1..] == [];
  }

  /** On this packet the segment lets the rule continue exactly when `cond`, whatever the registers. */
  ghost predicate Guards(es: Program, pkt: Packet, cond: bool)
  {
    forall regs: Registers :: if cond then Exec(es, pkt, regs).Next? else Exec(es, pkt, regs) == Break
  }

  lemma GuardsConcat(xs: Program, ys: Program, pkt: Packet, c: bool, d: bool)
    requires Guards(xs, pkt, c) && Guards(ys, pkt, d)
    ensures Guards(xs + ys, pkt, c && d)
  {
    forall regs: Registers
      ensures if c && d then Exec(xs + ys, pkt, regs).Next? else Exec(xs + ys, pkt, regs) == Break
    {
      ExecConcat(xs, ys, pkt, regs);
    }
  }

  /** A load into register 1 followed by a comparison. */
  lemma LoadCompare(load: Expr, data: seq<Byte>, pkt: Packet, bytes: seq<Byte>)
    requires forall regs: Registers :: Step(load, pkt, regs) == Next(regs[1 := bytes])
    ensures Guards([load, Cmp(1, data)], pkt, data <= bytes)
  {
    forall regs: Registers
      ensures if data <= bytes then Exec([load, Cmp(1, data)], pkt, regs).Next?
              else Exec([load, Cmp(1, data)], pkt, regs) == Break
    {
      assert [load, Cmp(1, data)] == [load] + [Cmp(1, data)];
      ExecConcat([load], [Cmp(1, data)], pkt, regs);
      ExecSingle(load, pkt, regs);
      ExecSingle(Cmp(1, data), pkt, regs[1 := bytes]);
    }
  }

  lemma NamePrefixIsEquality(name: seq<Byte>, iif: seq<Byte>, n: nat)
    requires 0 !in name && 0 !in iif && n >= 1
    ensures name + [0] <= iif + Zeros(n) <==> name == iif
  {
    var padded := iif + Zeros(n);
    if |name| < |iif| {
      assert padded[|name|] == iif[|name|] && iif[|name|] in iif && (name + [0])[|name|] == 0;
    } else if |iif| < |name| {
      assert padded[|iif|] == 0 && (name + [0])[|iif|] == name[|iif|] && name[|iif|] in name;
    } else {
      assert forall i | 0 <= i < |name| :: (name + [0])[i] == name[i] && padded[i] == iif[i];
    }
  }

  lemma IfaceGuard(name: seq<Byte>, pkt: Packet)
    requires WellFormed(pkt) && 0 !in name
    ensures Guards(IfaceExprs(name), pkt, name == [] || name == pkt.iif)
  {
    if name != [] {
      var pad := IFNAMSIZ - |pkt.iif|;
      NamePrefixIsEquality(name, pkt.iif, pad);
      LoadCompare(MetaIifname(1), name + [0], pkt, pkt.iif + Zeros(pad));
    }
  }

  lemma {:induction false} XorZero(a: nat)
    ensures Xor(a, 0) == a
    decreases a
  {
    if a == 0 {
    } else {
      XorZero(a / 2);
    }
  }

  lemma MaskedLoad(a: Addr, ones: Ones)
    ensures MaskXor(a, CIDRMask(ones), Zeros(4)) == NetworkAddr(a, ones)
  {
    forall i | 0 <= i < 4
      ensures MaskXor(a, CIDRMask(ones), Zeros(4))[i] == NetworkAddr(a, ones)[i]
    {
      XorZero(AndByte(a[i], CIDRMask(ones)[i]));
    }
  }

  lemma SubnetGuard(block: Block, offset: nat, pkt: Packet)
    requires offset + 4 <= |pkt.network|
    ensures Guards([Payload(1, NetworkHeader, offset, 4), Bitwise(1, 1, CIDRMask(block.ones), Zeros(4)),
                    Cmp(1, NetworkAddr(block.addr, block.ones))],
                   pkt, InPrefix(pkt.network[offset..offset + 4], block.addr, block.ones))
  {
    var a: Addr := pkt.network[offset..offset + 4];
    var masked := NetworkAddr(a, block.ones);
    var cmp := Cmp(1, NetworkAddr(block.addr, block.ones));
    var bitwise := Bitwise(1, 1, CIDRMask(block.ones), Zeros(4));
    var es := [Payload(1, NetworkHeader, offset, 4), bitwise, cmp];
    MaskedLoad(a, block.ones);
    MaskCompareIsPrefix(a, block.addr, block.ones);
    forall regs: Registers
      ensures Exec(es, pkt, regs) == Step(cmp, pkt, regs[1 := a][1 := masked])
    {
      assert es == [es[0]] + ([bitwise] + [cmp]);
      ExecConcat([es[0]], [bitwise] + [cmp], pkt, regs);
      ExecSingle(es[0], pkt, regs);
      ExecConcat([bitwise], [cmp], pkt, regs[1 := a]);
      ExecSingle(bitwise, pkt, regs[1 := a]);
      ExecSingle(cmp, pkt, regs[1 := a][1 := masked]);
    }
  }

  lemma AddrGuard(lib: Parser, text: string, offset: nat, pkt: Packet)
    requires offset + 4 <= |pkt.network|
    requires AddrExprs(lib, text, offset).Ok?
    ensures Guards(AddrExprs(lib, text, offset).value, pkt, Covers(lib, text, pkt.network[offset..offset + 4]))
  {
    if !IsWild(text) {
      var block := ParseBlock(lib, text).value;
      var a: Addr := pkt.network[offset..offset + 4];
      if block.ones == 32 {
        FullPrefixIsEquality(a, block.addr);
        LoadCompare(Payload(1, NetworkHeader, offset, 4), block.addr, pkt, a);
      } else {
        SubnetGuard(block, offset, pkt);
      }
    }
  }

  lemma ProtoGuard(protocol: string, pkt: Packet)
    requires protocol == "" || ProtocolNumber(protocol).Some?
    ensures Guards(ProtoExprs(protocol), pkt, ProtocolMatches(protocol, pkt.l4proto))
  {
    if protocol != "" {
      var number := ProtocolNumber(protocol).value;
      LoadCompare(MetaL4proto(1), [number], pkt, [pkt.l4proto]);
      assert [number][0] == number && [pkt.l4proto][0] == pkt.l4proto;
    }
  }

  lemma PortGuard(port: int, pkt: Packet)
    requires WellFormed(pkt)
    ensures Guards(PortExprs(port), pkt, port <= 0 || FlowOf(pkt).dport == Some(port % 65536))
  {
    if port > 0 {
      var load, data := Payload(1, TransportHeader, 2, 2), PortBytes(port % 65536);
      if |pkt.transport| >= 4 {
        LoadCompare(load, data, pkt, pkt.transport[2..4]);
      } else {
        assert forall regs: Registers :: Step(load, pkt, regs) == Break;
      }
    }
  }

  predicate OnInterface(name: seq<Byte>, pkt: Packet)
  {
    name == [] || name == pkt.iif
  }

  lemma FinishRule(body: Program, action: string, pkt: Packet, cond: bool)
    requires Guards(body, pkt, cond)
    ensures RunRule(body + [Counter, Verdict(ActionKind(action))], pkt)
         == if cond then Some(ActionKind(action)) else None
  {
    var tail := [Counter, Verdict(ActionKind(action))];
    ExecConcat(body, tail, pkt, map[]);
    assert tail[1..] == [Verdict(ActionKind(action))];
  }

  /** The packets the emitted program matches: the port has been truncated to 16 bits. */
  predicate ProgramMatches(lib: Parser, r: FirewallRule, pkt: Packet)
    requires WellFormed(pkt)
  {
    var f := FlowOf(pkt);
    && OnInterface(r.iface, pkt)
    && Covers(lib, r.srcIP, f.src)
    && Covers(lib, r.dstIP, f.dst)
    && ProtocolMatches(r.protocol, f.proto)
    && (r.port <= 0 || f.dport == Some(r.port % 65536))
  }

  lemma RuleProgramRuns(lib: Parser, r: FirewallRule, pkt: Packet)
    requires WellFormed(pkt) && 0 !in r.iface && RuleExprs(lib, r).Ok?
    ensures RunRule(RuleExprs(lib, r).value, pkt)
         == if ProgramMatches(lib, r, pkt) then Some(ActionKind(r.action)) else None
  {
    var f := FlowOf(pkt);
    var src, dst := AddrExprs(lib, r.srcIP, 12).value, AddrExprs(lib, r.dstIP, 16).value;
    var name, onSrc, onDst := IfaceExprs(r.iface), Covers(lib, r.srcIP, f.src), Covers(lib, r.dstIP, f.dst);
    var onName, onProto := OnInterface(r.iface, pkt), ProtocolMatches(r.protocol, f.proto);
    var onPort := r.port <= 0 || f.dport == Some(r.port % 65536);
    IfaceGuard(r.iface, pkt);
    AddrGuard(lib, r.srcIP, 12, pkt);
    AddrGuard(lib, r.dstIP, 16, pkt);
    ProtoGuard(r.protocol, pkt);
    PortGuard(r.port, pkt);
    GuardsConcat(name, src, pkt, onName, onSrc);
    GuardsConcat(name + src, dst, pkt, onName && onSrc, onDst);
    GuardsConcat(name + src + dst, ProtoExprs(r.protocol), pkt, onName && onSrc && onDst, onProto);
    GuardsConcat(name + src + dst + ProtoExprs(r.protocol), PortExprs(r.port), pkt,
                 onName && onSrc && onDst && onProto, onPort);
    FinishRule(name + src + dst + ProtoExprs(r.protocol) + PortExprs(r.port), r.action, pkt,
               onName && onSrc && onDst && onProto && onPort);
  }

  /**
   * The packets a rule is for, read off their bytes: source at 12 and destination at 16 of the IPv4
   * header, protocol 6 or 17, destination port big-endian at 2 of the transport header.
   */
  predicate PacketMatches(lib: Parser, r: FirewallRule, pkt: Packet)
    requires WellFormed(pkt)
  {
    && (r.iface == [] || r.iface == pkt.iif)
    && StandsFor(lib, r.srcIP, pkt.network[12..16])
    && StandsFor(lib, r.dstIP, pkt.network[16..20])
    && (r.protocol == "" || (r.protocol == "tcp" && pkt.l4proto == 6) || (r.protocol == "udp" && pkt.l4proto == 17))
    && (r.port <= 0 ||
        (|pkt.transport| >= 4 && (pkt.transport[2] as int) * 256 + pkt.transport[3] as int == r.port % 65536))
  }

  lemma MatchesOnBytes(lib: Parser, r: FirewallRule, pkt: Packet)
    requires WellFormed(pkt)
    ensures ProgramMatches(lib, r, pkt) <==> PacketMatches(lib, r, pkt)
  {
    CoversIff(lib, r.srcIP, pkt.network[12..16]);
    CoversIff(lib, r.dstIP, pkt.network[16..20]);
  }

  /** A rule's program accepts exactly the matching packets of an allow, and drops exactly those of a deny. */
  lemma RuleDecides(lib: Parser, r: FirewallRule, pkt: Packet)
    requires WellFormed(pkt) && 0 !in r.iface && RuleExprs(lib, r).Ok?
    ensures RunRule(RuleExprs(lib, r).value, pkt) == Some(Accept) <==> r.action == "allow" && PacketMatches(lib, r, pkt)
    ensures RunRule(RuleExprs(lib, r).value, pkt) == Some(Drop) <==> r.action == "deny" && PacketMatches(lib, r, pkt)
  {
    RuleProgramRuns(lib, r, pkt);
    MatchesOnBytes(lib, r, pkt);
  }

  function RuleVerdict(lib: Parser, r: FirewallRule, pkt: Packet): Option<Kind>
    requires WellFormed(pkt)
  {
    if OnInterface(r.iface, pkt) && RuleMatches(lib, r, FlowOf(pkt)) then Some(ActionKind(r.action)) else None
  }

  /** The address a probe uses for a rule's address field. */
  function ProbeAddr(lib: Parser, text: string): Addr
  {
    if IsWild(text) || ParseBlock(lib, text).Err? then [0, 0, 0, 0] else ParseBlock(lib, text).value.addr
  }

  /** A packet that meets every condition of the rule's program. */
  function Probe(lib: Parser, r: FirewallRule): Packet
  {
    Packet(if r.iface == [] then [1] else r.iface,
           Zeros(12) + ProbeAddr(lib, r.srcIP) + ProbeAddr(lib, r.dstIP),
           if r.protocol == "udp" then UDP else TCP,
           Zeros(2) + PortBytes(r.port % 65536))
  }

  /**
   * A rule that can be built reaches its verdict on exactly the packets it matches, unless its
   * port does not fit 16 bits; then the truncated port is matched instead.
   */
  lemma RuleProgramExact(lib: Parser, r: FirewallRule)
    requires 0 !in r.iface && RuleExprs(lib, r).Ok?
    ensures (forall pkt | WellFormed(pkt) :: RunRule(RuleExprs(lib, r).value, pkt) == RuleVerdict(lib, r, pkt))
       <==> r.port < 65536
  {
    if r.port < 65536 {
      forall pkt | WellFormed(pkt)
        ensures RunRule(RuleExprs(lib, r).value, pkt) == RuleVerdict(lib, r, pkt)
      {
        RuleProgramRuns(lib, r, pkt);
      }
    } else {
      var pkt := Probe(lib, r);
      RuleProgramRuns(lib, r, pkt);
      assert FlowOf(pkt).src == ProbeAddr(lib, r.srcIP);
      assert FlowOf(pkt).dst == ProbeAddr(lib, r.dstIP);
      assert pkt.transport[2..4] == PortBytes(r.port % 65536);
      assert ProgramMatches(lib, r, pkt) && RuleVerdict(lib, r, pkt) == None;
    }
  }

  // ----- The rule list of ApplyRules -----

  /** The programs of a rule list, or the first error; then nothing is installed. */
  function ChainExprs(lib: Parser, rules: seq<FirewallRule>): Result<seq<Program>, BuildError>
  {
    if rules == [] then Ok([])
    else
      match RuleExprs(lib, rules[0])
      case Err(e) => Err(e)
      case Ok(es) =>
        match ChainExprs(lib, rules[1..])
        case Err(e) => Err(e)
        case Ok(rest) => Ok([es] + rest)
  }

  /** The kernel's chains of the plexd table, as the controller sees them. */
  class NftablesController {
    var chains: map<string, seq<Program>>

    constructor ()
      ensures chains == map[]
    {
      chains := map[];
    }

    /** Rules are queued one by one and reach the kernel only with the final flush. */
    method ApplyRules(lib: Parser, chain: string, rules: seq<FirewallRule>, flushOk: bool) returns (ok: bool)
      modifies this
      ensures ok <==> ChainExprs(lib, rules).Ok? && flushOk
      ensures chains == if ok then old(chains)[chain := ChainExprs(lib, rules).value] else old(chains)
    {
      var queued: seq<Program> := [];
      for i := 0 to |rules|
        invariant chains == old(chains)
        invariant ChainExprs(lib, rules).Ok? <==> ChainExprs(lib, rules[i..]).Ok?
        invariant ChainExprs(lib, rules).Ok? ==>
                    ChainExprs(lib, rules).value == queued + ChainExprs(lib, rules[i..]).value
      {
        assert rules[i..][0] == rules[i] && rules[i..][1..] == rules[i + 1..];
        var exprs := BuildRuleExprs(lib, rules[i]);
        if exprs.Err? {
          return false;
        }
        queued := queued + [exprs.value];
      }
      if !flushOk {
        return false;
      }
      assert queued + [] == queued;
      chains := chains[chain := queued];
      ok := true;
    }
  }

  lemma {:induction false} ChainRunsAsRules(lib: Parser, rules: seq<FirewallRule>, pkt: Packet)
    requires WellFormed(pkt) && ChainExprs(lib, rules).Ok?
    requires forall r | r in rules :: 0 !in r.iface && OnInterface(r.iface, pkt) && r.port < 65536
    ensures RunChain(ChainExprs(lib, rules).value, pkt) ==
            match FirstMatch(lib, rules, FlowOf(pkt))
            case None => None
            case Some(action) => Some(ActionKind(action))
  {
    if rules == [] {
    } else {
      assert rules[0] in rules;
      var es := RuleExprs(lib, rules[0]).value;
      var rest := ChainExprs(lib, rules[1..]).value;
      assert ([es] + rest)[1..] == rest;
      RuleProgramExact(lib, rules[0]);
      assert RunRule(es, pkt) == RuleVerdict(lib, rules[0], pkt);
      ChainRunsAsRules(lib, rules[1..], pkt);
    }
  }

  // ----- From policies to the installed chain -----

  /** The rule concerns the local node; lowering drops all others. */
  predicate Relevant(r: PolicyRule, local: string)
  {
    IsValidProtocol(r.protocol) && (MatchesLocal(r.src, local) || MatchesLocal(r.dst, local))
  }

  predicate Enforceable(lib: Parser, policies: seq<Policy>, local: string, peers: PeerTable)
  {
    forall r | r in AllRules(policies) && Relevant(r, local) :: !Widened(lib, peers, local, r) && r.port < 65536
  }

  lemma {:induction false} LoweredFields(rules: seq<PolicyRule>, local: string, iface: seq<Byte>, peers: PeerTable)
    requires forall r | r in rules && Relevant(r, local) :: r.port < 65536
    ensures forall fr | fr in LowerRules(rules, local, iface, peers) :: fr.iface == iface && fr.port < 65536
  {
    if rules == [] {
    } else {
      assert rules[0] in rules;
      LoweredFields(rules[1..], local, iface, peers);
    }
  }

  /**
   * Once ApplyRules succeeds on the lowered policies, the chain gives every packet that has the
   * local node's address as an endpoint, and enters on the mesh interface, the verdict of the
   * policies. It says nothing of packets that do not pass the chain: the chain sits on the forward
   * hook, and packets that end or start at the node itself do not go through that hook.
   */
  lemma ChainEnforcesPolicies(
    lib: Parser, policies: seq<Policy>, local: string, iface: seq<Byte>, peers: PeerTable, pkt: Packet)
    requires MeshTable(lib, peers, local) && Enforceable(lib, policies, local, peers)
    requires WellFormed(pkt) && 0 !in iface && OnInterface(iface, pkt)
    requires Touches(FlowOf(pkt), LocalAddr(lib, peers, local))
    requires ChainExprs(lib, Lower(policies, local, iface, peers)).Ok?
    ensures RunChain(ChainExprs(lib, Lower(policies, local, iface, peers)).value, pkt)
         == Some(ActionKind(PolicyVerdict(lib, peers, AllRules(policies), FlowOf(pkt))))
  {
    LoweredFields(AllRules(policies), local, iface, peers);
    ChainRunsAsRules(lib, Lower(policies, local, iface, peers), pkt);
    LoweringPreservesVerdict(lib, policies, local, iface, peers, FlowOf(pkt));
  }

  /** The chain accepts exactly what the policies allow, and drops everything else. */
  lemma ChainAccepts(
    lib: Parser, policies: seq<Policy>, local: string, iface: seq<Byte>, peers: PeerTable, pkt: Packet)
    requires MeshTable(lib, peers, local) && Enforceable(lib, policies, local, peers)
    requires WellFormed(pkt) && 0 !in iface && OnInterface(iface, pkt)
    requires Touches(FlowOf(pkt), LocalAddr(lib, peers, local))
    requires ChainExprs(lib, Lower(policies, local, iface, peers)).Ok?
    ensures var verdict := RunChain(ChainExprs(lib, Lower(policies, local, iface, peers)).value, pkt);
            var allowed := PolicyVerdict(lib, peers, AllRules(policies), FlowOf(pkt)) == "allow";
            (verdict == Some(Accept) <==> allowed) && (verdict == Some(Drop) <==> !allowed)
  {
    ChainEnforcesPolicies(lib, policies, local, iface, peers, pkt);
  }

  /** The same by node IDs: a packet between two nodes, one of them local, passes iff their first rule allows it. */
  lemma ChainAcceptsByNodeId(
    lib: Parser, policies: seq<Policy>, local: string, iface: seq<Byte>, peers: PeerTable, pkt: Packet,
    src: string, dst: string)
    requires InjectiveTable(lib, peers) && Resolved(lib, peers, src) && Resolved(lib, peers, dst)
    requires src == local || dst == local
    requires Enforceable(lib, policies, local, peers)
    requires WellFormed(pkt) && 0 !in iface && OnInterface(iface, pkt)
    requires pkt.network[12..16] == Host(lib, peers[src]).value && pkt.network[16..20] == Host(lib, peers[dst]).value
    requires ChainExprs(lib, Lower(policies, local, iface, peers)).Ok?
    ensures var verdict := RunChain(ChainExprs(lib, Lower(policies, local, iface, peers)).value, pkt);
            var f := FlowOf(pkt);
            var allowed := NodeVerdict(AllRules(policies), src, dst, f.proto, f.dport) == "allow";
            (verdict == Some(Accept) <==> allowed) && (verdict == Some(Drop) <==> !allowed)
  {
    var f := FlowOf(pkt);
    assert f == FlowBetween(lib, peers, src, dst, f.proto, f.dport);
    ChainAccepts(lib, policies, local, iface, peers, pkt);
    VerdictByNodeId(lib, peers, AllRules(policies), src, dst, f.proto, f.dport);
  }

  /** No packet between the local node and a hidden peer gets through the installed chain. */
  lemma HiddenPeerIsDropped(
    lib: Parser, policies: seq<Policy>, local: string, iface: seq<Byte>, peers: PeerTable, peer: string, pkt: Packet)
    requires InjectiveTable(lib, peers) && Resolved(lib, peers, local) && Resolved(lib, peers, peer)
    requires Enforceable(lib, policies, local, peers)
    requires WellFormed(pkt) && 0 !in iface && OnInterface(iface, pkt)
    requires ChainExprs(lib, Lower(policies, local, iface, peers)).Ok?
    requires !Connected(policies, local, peer)
    requires var a, b := Host(lib, peers[local]).value, Host(lib, peers[peer]).value;
             (FlowOf(pkt).src == a && FlowOf(pkt).dst == b) || (FlowOf(pkt).src == b && FlowOf(pkt).dst == a)
    ensures RunChain(ChainExprs(lib, Lower(policies, local, iface, peers)).value, pkt) == Some(Drop)
  {
    var f := FlowOf(pkt);
    var (src, dst) := if f.src == Host(lib, peers[local]).value then (local, peer) else (peer, local);
    assert f == FlowBetween(lib, peers, src, dst, f.proto, f.dport);
    HiddenPeerIsUnreachable(lib, policies, local, iface, peers, peer, src, dst, f.proto, f.dport);
    LoweredFields(AllRules(policies), local, iface, peers);
    ChainRunsAsRules(lib, Lower(policies, local, iface, peers), pkt);
    LoweringPreservesVerdict(lib, policies, local, iface, peers, f);
  }

  /** A packet on another interface passes every rule of a chain bound to `iface`, default deny included. */
  lemma {:induction false} OtherInterfacesPass(lib: Parser, rules: seq<FirewallRule>, iface: seq<Byte>, pkt: Packet)
    requires WellFormed(pkt) && 0 !in iface && !OnInterface(iface, pkt)
    requires forall r | r in rules :: r.iface == iface
    requires ChainExprs(lib, rules).Ok?
    ensures RunChain(ChainExprs(lib, rules).value, pkt) == None
  {
    if rules == [] {
    } else {
      assert rules[0] in rules;
      var es := RuleExprs(lib, rules[0]).value;
      assert ([es] + ChainExprs(lib, rules[1..]).value)[1..] == ChainExprs(lib, rules[1..]).value;
      RuleProgramRuns(lib, rules[0], pkt);
      OtherInterfacesPass(lib, rules[1..], iface, pkt);
    }
  }

  lemma {:induction false} ChainBuildsIff(lib: Parser, rules: seq<FirewallRule>)
    ensures ChainExprs(lib, rules).Ok? <==> forall r | r in rules :: RuleExprs(lib, r).Ok?
  {
    if rules == [] {
    } else {
      assert rules == [rules[0]] + rules[1..];
      ChainBuildsIff(lib, rules[1..]);
    }
  }

  /** The address text can be compiled: nothing to match, or an IPv4 address or block. */
  predicate Compiles(lib: Parser, text: string)
  {
    IsWild(text) || ParseBlock(lib, text).Ok?
  }

  /** A rule compiles exactly when its name fits, its addresses compile and its other fields are known. */
  lemma RuleBuildsIff(lib: Parser, r: FirewallRule)
    ensures RuleExprs(lib, r).Ok? <==>
            && |r.iface| < 16 && Compiles(lib, r.srcIP) && Compiles(lib, r.dstIP)
            && (r.protocol == "" || r.protocol == "tcp" || r.protocol == "udp")
            && (r.action == "allow" || r.action == "deny")
  {
  }

  /**
   * The rule's addresses can be compiled and its action is known. The local node's own address is used
   * by every rule except one from any node to any node.
   */
  predicate Installable(lib: Parser, r: PolicyRule, local: string, peers: PeerTable)
  {
    && ((r.src == WILDCARD && r.dst == WILDCARD) || Compiles(lib, Lookup(peers, local)))
    && (MatchesLocal(r.src, local) || Compiles(lib, Lookup(peers, r.src)))
    && (MatchesLocal(r.dst, local) || Compiles(lib, Lookup(peers, r.dst)))
    && (r.action == "allow" || r.action == "deny")
  }

  lemma LoweredRuleBuilds(lib: Parser, r: PolicyRule, local: string, iface: seq<Byte>, peers: PeerTable)
    requires |iface| < IFNAMSIZ && Relevant(r, local)
    ensures RuleExprs(lib, LowerRule(r, local, iface, peers).value).Ok? <==> Installable(lib, r, local, peers)
  {
    RuleBuildsIff(lib, LowerRule(r, local, iface, peers).value);
  }

  lemma {:induction false} LoweredFrom(
    rules: seq<PolicyRule>, local: string, iface: seq<Byte>, peers: PeerTable, fr: FirewallRule)
    ensures fr in LowerRules(rules, local, iface, peers)
       <==> exists r | r in rules :: LowerRule(r, local, iface, peers) == Some(fr)
  {
    if rules == [] {
    } else {
      assert rules == [rules[0]] + rules[1..];
      LoweredFrom(rules[1..], local, iface, peers, fr);
    }
  }

  /**
   * For any table, the lowered policies can be installed exactly when the interface name fits and every
   * rule that concerns the local node has action allow or deny and uses addresses that can be compiled,
   * the local node's own included. One other action, or one malformed or IPv6 mesh address, blocks the
   * whole update.
   */
  lemma PoliciesInstallIff(
    lib: Parser, policies: seq<Policy>, local: string, iface: seq<Byte>, peers: PeerTable)
    ensures ChainExprs(lib, Lower(policies, local, iface, peers)).Ok?
       <==> |iface| < 16 &&
            forall r | r in AllRules(policies) && Relevant(r, local) :: Installable(lib, r, local, peers)
  {
    var rules := AllRules(policies);
    var lowered := LowerRules(rules, local, iface, peers);
    ChainBuildsIff(lib, lowered + [DefaultDeny(iface)]);
    if |iface| >= IFNAMSIZ {
      assert DefaultDeny(iface) in lowered + [DefaultDeny(iface)];
      return;
    }
    forall r | r in rules && Relevant(r, local)
      ensures LowerRule(r, local, iface, peers).value in lowered
      ensures RuleExprs(lib, LowerRule(r, local, iface, peers).value).Ok? <==> Installable(lib, r, local, peers)
    {
      LoweredFrom(rules, local, iface, peers, LowerRule(r, local, iface, peers).value);
      LoweredRuleBuilds(lib, r, local, iface, peers);
    }
    forall fr | fr in lowered
      ensures exists r | r in rules && Relevant(r, local) :: LowerRule(r, local, iface, peers) == Some(fr)
    {
      LoweredFrom(rules, local, iface, peers, fr);
    }
    assert RuleExprs(lib, DefaultDeny(iface)).Ok?;
  }
}
