/** IPv4 addresses, prefixes and the textual addresses carried by firewall rules. */
module Addresses {
  import opened Bytes
  import opened Prelude

  type Ones = n: nat | n <= 32

  /** Bit `i` of an address, counted from the most significant bit of the first byte. */
  function AddrBit(a: Addr, i: nat): nat
    requires i < 32
  {
    Bit(a[i / 8], 7 - i % 8)
  }

  /** `a` lies in the block `net/ones`: the two agree on the leading `ones` bits. */
  predicate InPrefix(a: Addr, net: Addr, ones: Ones)
  {
    forall i: nat | i < ones :: AddrBit(a, i) == AddrBit(net, i)
  }

  /**
   * What Go's `net.ParseCIDR` and `net.ParseIP` return. The two library functions are
   * parameters of the model: nothing is assumed about the texts they accept.
   */
  datatype ParsedCIDR = Net4(addr: Addr, ones: Ones) | Net6

  datatype ParsedIP = V4(addr: Addr) | V6

  datatype Parser = Parser(cidr: string -> Option<ParsedCIDR>, ip: string -> Option<ParsedIP>)

  datatype Block = Block(addr: Addr, ones: Ones)

  datatype AddrError = InvalidAddress | NotIPv4

  /** CIDR notation first, then a bare address as a /32. */
  function ParseBlock(lib: Parser, text: string): Result<Block, AddrError>
  {
    match lib.cidr(text)
    case Some(Net4(addr, ones)) => Ok(Block(addr, ones))
    case Some(Net6) => Err(NotIPv4)
    case None =>
      match lib.ip(text)
      case None => Err(InvalidAddress)
      case Some(V6) => Err(NotIPv4)
      case Some(V4(addr)) => Ok(Block(addr, 32))
  }

  const ANY: string := "0.0.0.0/0"

  /** Whether a rule's address field constrains the packet at all. */
  predicate IsWild(text: string)
  {
    text == "" || text == ANY
  }

  /** The addresses a rule's textual address field stands for. */
  predicate Covers(lib: Parser, text: string, a: Addr)
  {
    IsWild(text) ||
    match ParseBlock(lib, text)
    case Ok(block) => InPrefix(a, block.addr, block.ones)
    case Err(_) => false
  }

  /** The single address a text denotes, if it denotes exactly one. */
  function Host(lib: Parser, text: string): Option<Addr>
  {
    match ParseBlock(lib, text)
    case Ok(block) => if !IsWild(text) && block.ones == 32 then Some(block.addr) else None
    case Err(_) => None
  }

  lemma {:induction false} FullPrefixIsEquality(a: Addr, b: Addr)
    ensures InPrefix(a, b, 32) <==> a == b
  {
    if InPrefix(a, b, 32) {
      forall k | 0 <= k < 4
        ensures a[k] == b[k]
      {
        forall i: nat | i < 8
          ensures Bit(a[k], i) == Bit(b[k], i)
        {
          var at := 8 * k + (7 - i);
          assert AddrBit(a, at) == AddrBit(b, at);
        }
        Pow2Values();
        BitsDetermine(a[k], b[k], 8);
      }
    }
  }

  lemma HostCoversItself(lib: Parser, text: string, a: Addr)
    requires Host(lib, text).Some?
    ensures Covers(lib, text, a) <==> Host(lib, text) == Some(a)
  {
    FullPrefixIsEquality(a, Host(lib, text).value);
  }

  /**
   * What a rule's address text stands for, in terms of the two library functions: anything when it is
   * empty or 0.0.0.0/0; otherwise the addresses that share the leading bits of the CIDR block, or the one
   * address; nothing for IPv6 and for what does not parse.
   */
  predicate StandsFor(lib: Parser, text: string, a: Addr)
  {
    || text == "" || text == "0.0.0.0/0"
    || match lib.cidr(text)
       case Some(Net4(net, ones)) =>
         forall i | 0 <= i < ones :: Bit(a[i / 8], 7 - i % 8) == Bit(net[i / 8], 7 - i % 8)
       case Some(Net6) => false
       case None => lib.ip(text) == Some(V4(a))
  }

  lemma CoversIff(lib: Parser, text: string, a: Addr)
    ensures Covers(lib, text, a) <==> StandsFor(lib, text, a)
  {
    match lib.cidr(text)
    case Some(Net4(net, ones)) =>
      if InPrefix(a, net, ones) {
        forall i | 0 <= i < ones
          ensures Bit(a[i / 8], 7 - i % 8) == Bit(net[i / 8], 7 - i % 8)
        {
          assert AddrBit(a, i) == AddrBit(net, i);
        }
      }
    case Some(Net6) =>
    case None =>
      if lib.ip(text).Some? && lib.ip(text).value.V4? {
        FullPrefixIsEquality(a, lib.ip(text).value.addr);
      }
  }
}
