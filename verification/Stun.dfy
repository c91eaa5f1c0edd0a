/**
 * internal/nat/stun.go: building STUN binding requests and parsing binding responses
 * (sections 6, 15, 15.1 and 15.2 of RFC 5389).
 */
module Stun {
  import opened Prelude
  import opened Bytes

  type TxId = s: seq<Byte> | |s| == 12 witness [0, 0, 0, 0, 0, 0, 0, 0, 0, 0, 0, 0]

  const COOKIE: seq<Byte> := [0x21, 0x12, 0xA4, 0x42]

  /** The upper half of the magic cookie. */
  const COOKIE_HIGH: nat := 0x2112

  const BINDING_REQUEST: nat := 0x0001
  const BINDING_SUCCESS: nat := 0x0101
  const ATTR_MAPPED: nat := 0x0001
  const ATTR_XOR_MAPPED: nat := 0x0020
  const FAMILY_IPV4: Byte := 0x01

  type Port = p: nat | p < 65536

  datatype Mapped = Mapped(ip: Addr, port: Port)

  /** OutOfRange stands for the slice expression that panics in the source. */
  datatype StunError =
    | TooShort | BadCookie | TransactionMismatch | UnexpectedType | BodyTooShort
    | AddressTooShort | UnsupportedFamily | NoAddress | OutOfRange

  type Parsed = Result<Mapped, StunError>

  // ----- Parsing -----

  function CookieXor(bytes: seq<Byte>): (r: Addr)
    requires |bytes| == 4
  {
    seq(4, i requires 0 <= i < 4 => XorByte(bytes[i], COOKIE[i]))
  }

  function PortXor(port: Port): (r: Port)
  {
    Pow2Values();
    XorBound(port, COOKIE_HIGH, 16);
    Xor(port, COOKIE_HIGH)
  }

  function ParseXorMapped(val: seq<Byte>): Parsed
  {
    if |val| < 8 then Err(AddressTooShort)
    else if val[1] != FAMILY_IPV4 then Err(UnsupportedFamily)
    else Ok(Mapped(CookieXor(val[4..8]), PortXor(Uint16(val[2..4]))))
  }

  function ParseMapped(val: seq<Byte>): Parsed
  {
    if |val| < 8 then Err(AddressTooShort)
    else if val[1] != FAMILY_IPV4 then Err(UnsupportedFamily)
    else Ok(Mapped(val[4..8], Uint16(val[2..4])))
  }

  /** The padding that follows a value of length n. */
  function PadLen(n: nat): (p: nat)
    ensures p < 4 && (n + p) % 4 == 0
  {
    if n % 4 == 0 then 0 else 4 - n % 4
  }

  function Finish(mapped: Option<Mapped>): Parsed
  {
    match mapped
    case Some(a) => Ok(a)
    case None => Err(NoAddress)
  }

  /** One attribute: either the answer is known, or the fallback address is carried on. */
  datatype Verdict = Answer(parsed: Parsed) | Carry(mapped: Option<Mapped>)

  function Inspect(typ: nat, val: seq<Byte>, mapped: Option<Mapped>): Verdict
  {
    if typ == ATTR_XOR_MAPPED then Answer(ParseXorMapped(val))
    else if typ == ATTR_MAPPED then
      match ParseMapped(val)
      case Err(e) => Answer(Err(e))
      case Ok(a) => Carry(Some(a))
    else Carry(mapped)
  }

  function Walk(attrs: seq<Byte>, mapped: Option<Mapped>): Parsed
    decreases |attrs|
  {
    if |attrs| < 4 then Finish(mapped)
    else
      var len := Uint16(attrs[2..4]);
      if len > |attrs| - 4 then Finish(mapped)
      else
        var verdict := Inspect(Uint16(attrs[0..2]), attrs[4..4 + len], mapped);
        var next := 4 + len + PadLen(len);
        if verdict.Answer? then verdict.parsed
        else if next > |attrs| then Err(OutOfRange)
        else Walk(attrs[next..], verdict.mapped)
  }

  function Parse(data: seq<Byte>, tx: TxId): Parsed
  {
    if |data| < 20 then Err(TooShort)
    else
      var msgLen := Uint16(data[2..4]);
      if data[4..8] != COOKIE then Err(BadCookie)
      else if data[8..20] != tx then Err(TransactionMismatch)
      else if Uint16(data[0..2]) != BINDING_SUCCESS then Err(UnexpectedType)
      else if msgLen > |data| - 20 then Err(BodyTooShort)
      else Walk(data[20..20 + msgLen], None)
  }

  /**
   * The loop of parseBindingResponse. The value's end is computed in 16 bits, as in the source;
   * it cannot wrap because the body is at most 65535 bytes long.
   */
  method ParseBindingResponse(data: seq<Byte>, tx: TxId) returns (res: Parsed)
    ensures res == Parse(data, tx)
  {
    if |data| < 20 {
      return Err(TooShort);
    }
    var msgType, msgLen, cookie := Uint16(data[0..2]), Uint16(data[2..4]), data[4..8];
    if cookie != COOKIE {
      return Err(BadCookie);
    }
    if data[8..20] != tx {
      return Err(TransactionMismatch);
    }
    if msgType != BINDING_SUCCESS {
      return Err(UnexpectedType);
    }
    var attrs := data[20..];
    if msgLen > |attrs| {
      return Err(BodyTooShort);
    }
    assert attrs[..msgLen] == data[20..20 + msgLen];
    res := WalkAttributes(attrs[..msgLen]);
  }

  /** A length rounded up to a multiple of four. */
  method Padded(len: nat) returns (padded: nat)
    ensures padded == len + PadLen(len) && padded % 4 == 0 && padded < len + 4
  {
    padded := len;
    if padded % 4 != 0 {
      padded := padded + (4 - padded % 4);
    }
  }

  /** The attribute loop. */
  method WalkAttributes(body: seq<Byte>) returns (res: Parsed)
    requires |body| < 65536
    ensures res == Walk(body, None)
  {
    var attrs := body;
    var mapped: Option<Mapped> := None;
    while |attrs| >= 4
      invariant |attrs| < 65536
      invariant Walk(attrs, mapped) == Walk(body, None)
      decreases |attrs|
    {
      var attrType, attrLen := Uint16(attrs[0..2]), Uint16(attrs[2..4]);
      if attrLen > |attrs| - 4 {
        break;
      }
      var end := (4 + attrLen) % 65536;
      assert end == 4 + attrLen;
      var attrVal := attrs[4..end];
      if attrType == ATTR_XOR_MAPPED {
        return ParseXorMapped(attrVal);
      } else if attrType == ATTR_MAPPED {
        var addr := ParseMapped(attrVal);
        if addr.Err? {
          return addr;
        }
        mapped := Some(addr.value);
      }
      var padded := Padded(attrLen);
      if 4 + padded > |attrs| {
        return Err(OutOfRange);
      }
      attrs := attrs[4 + padded..];
    }
    res := if mapped.Some? then Ok(mapped.value) else Err(NoAddress);
  }

  // ----- Encoding -----

  /** An attribute with the padding bytes that follow it on the wire. */
  datatype Attr = Attr(typ: nat, value: seq<Byte>, pad: seq<Byte>)

  predicate WellFormedAttr(a: Attr)
  {
    a.typ < 65536 && |a.value| < 65536 && |a.pad| == PadLen(|a.value|)
  }

  predicate WellFormed(attrs: seq<Attr>)
  {
    forall i | 0 <= i < |attrs| :: WellFormedAttr(attrs[i])
  }

  function AttrHeader(typ: nat, len: nat): (r: seq<Byte>)
    requires typ < 65536 && len < 65536
    ensures |r| == 4
  {
    PutUint16(typ) + PutUint16(len)
  }

  function EncodeAttr(a: Attr): seq<Byte>
    requires WellFormedAttr(a)
  {
    AttrHeader(a.typ, |a.value|) + a.value + a.pad
  }

  function EncodeAttrs(attrs: seq<Attr>): seq<Byte>
    requires WellFormed(attrs)
  {
    if attrs == [] then [] else EncodeAttr(attrs[0]) + EncodeAttrs(attrs[1..])
  }

  function EncodeHeader(typ: nat, len: nat, tx: TxId): (r: seq<Byte>)
    requires typ < 65536 && len < 65536
    ensures |r| == 20
  {
    PutUint16(typ) + PutUint16(len) + COOKIE + tx
  }

  function BuildBindingRequest(tx: TxId): seq<Byte>
  {
    EncodeHeader(BINDING_REQUEST, 0, tx)
  }

  /** What the attributes say, read as a list: no bytes, no lengths, no padding. */
  function Pick(attrs: seq<Attr>, mapped: Option<Mapped>): Parsed
  {
    if attrs == [] then Finish(mapped)
    else
      var verdict := Inspect(attrs[0].typ, attrs[0].value, mapped);
      if verdict.Answer? then verdict.parsed else Pick(attrs[1..], verdict.mapped)
  }

  /** Walking over an encoded attribute inspects exactly its value and lands right behind it. */
  lemma WalkOverAttr(a: Attr, rest: seq<Byte>, mapped: Option<Mapped>)
    requires WellFormedAttr(a)
    ensures var verdict := Inspect(a.typ, a.value, mapped);
            Walk(EncodeAttr(a) + rest, mapped)
            == if verdict.Answer? then verdict.parsed else Walk(rest, verdict.mapped)
  {
    var bytes := EncodeAttr(a) + rest;
    assert bytes[0..2] == PutUint16(a.typ);
    assert bytes[2..4] == PutUint16(|a.value|);
    assert bytes[4..4 + |a.value|] == a.value;
    assert bytes[4 + |a.value| + |a.pad|..] == rest;
  }

  lemma {:induction false} WalkIsPick(attrs: seq<Attr>, mapped: Option<Mapped>)
    requires WellFormed(attrs)
    ensures Walk(EncodeAttrs(attrs), mapped) == Pick(attrs, mapped)
    decreases |attrs|
  {
    if attrs == [] {
    } else {
      WalkOverAttr(attrs[0], EncodeAttrs(attrs[1..]), mapped);
      var verdict := Inspect(attrs[0].typ, attrs[0].value, mapped);
      if verdict.Carry? {
        WalkIsPick(attrs[1..], verdict.mapped);
      }
    }
  }

  /** Parsing an encoded success response, whatever its attributes and whatever follows the message. */
  lemma ParseEncodedResponse(tx: TxId, attrs: seq<Attr>, trailing: seq<Byte>)
    requires WellFormed(attrs) && |EncodeAttrs(attrs)| < 65536
    ensures Parse(EncodeHeader(BINDING_SUCCESS, |EncodeAttrs(attrs)|, tx) + EncodeAttrs(attrs) + trailing, tx)
         == Pick(attrs, None)
  {
    var body := EncodeAttrs(attrs);
    var data := EncodeHeader(BINDING_SUCCESS, |body|, tx) + body + trailing;
    assert data[0..2] == PutUint16(BINDING_SUCCESS);
    assert data[2..4] == PutUint16(|body|);
    assert data[4..8] == COOKIE;
    assert data[8..20] == tx;
    assert data[20..20 + |body|] == body;
    WalkIsPick(attrs, None);
  }

  // ----- Addresses on the wire -----

  datatype Item = XorAddress(addr: Mapped) | PlainAddress(addr: Mapped) | Other(typ: nat, value: seq<Byte>)

  predicate ValidItem(it: Item)
  {
    it.Other? ==> it.typ < 65536 && it.typ != ATTR_MAPPED && it.typ != ATTR_XOR_MAPPED && |it.value| < 65536
  }

  function AddressValue(ip: Addr, port: Port): (v: seq<Byte>)
    ensures |v| == 8
  {
    [0, FAMILY_IPV4] + PutUint16(port) + ip
  }

  function ItemAttr(it: Item, pad: seq<Byte>): Attr
  {
    match it
    case XorAddress(a) => Attr(ATTR_XOR_MAPPED, AddressValue(CookieXor(a.ip), PortXor(a.port)), pad)
    case PlainAddress(a) => Attr(ATTR_MAPPED, AddressValue(a.ip, a.port), pad)
    case Other(typ, value) => Attr(typ, value, pad)
  }

  lemma XorTwice(a: Mapped)
    ensures CookieXor(CookieXor(a.ip)) == a.ip
    ensures PortXor(PortXor(a.port)) == a.port
  {
    forall i | 0 <= i < 4
      ensures CookieXor(CookieXor(a.ip))[i] == a.ip[i]
    {
      XorInvolutive(a.ip[i], COOKIE[i]);
    }
    XorInvolutive(a.port, COOKIE_HIGH);
  }

  /** XOR decoding inverts XOR encoding, and plain decoding plain encoding, for every address and port. */
  lemma DecodeInvertsEncode(a: Mapped)
    ensures ParseXorMapped(AddressValue(CookieXor(a.ip), PortXor(a.port))) == Ok(a)
    ensures ParseMapped(AddressValue(a.ip, a.port)) == Ok(a)
  {
    XorTwice(a);
    var x, v := AddressValue(CookieXor(a.ip), PortXor(a.port)), AddressValue(a.ip, a.port);
    assert x[2..4] == PutUint16(PortXor(a.port)) && x[4..8] == CookieXor(a.ip);
    assert v[2..4] == PutUint16(a.port) && v[4..8] == a.ip;
  }

  // ----- The wire format, bit by bit -----

  lemma {:induction false} XorBit(a: nat, b: nat, i: nat)
    ensures Bit(Xor(a, b), i) == 1 <==> Bit(a, i) != Bit(b, i)
    decreases i
  {
    XorStep(a, b);
    if i == 0 {
    } else {
      assert Bit(Xor(a, b), i) == Bit(Xor(a / 2, b / 2), i - 1);
      XorBit(a / 2, b / 2, i - 1);
    }
  }

  lemma {:induction false} BitIsBinary(a: nat, i: nat)
    ensures Bit(a, i) == 0 || Bit(a, i) == 1
  {
    if i == 0 {
    } else {
      BitIsBinary(a / 2, i - 1);
    }
  }

  lemma FlippedBit(a: nat, b: nat, i: nat)
    ensures Bit(Xor(a, b), i) != Bit(a, i) <==> Bit(b, i) == 1
  {
    XorBit(a, b, i);
    BitIsBinary(a, i);
    BitIsBinary(b, i);
    BitIsBinary(Xor(a, b), i);
  }

  /** The bytes of the magic cookie 0x2112A442. */
  function CookieByte(k: nat): Byte
    requires k < 4
  {
    if k == 0 then 0x21 else if k == 1 then 0x12 else if k == 2 then 0xA4 else 0x42
  }

  lemma AddressBit(val: seq<Byte>, a: Mapped, k: nat, i: nat)
    requires ParseXorMapped(val) == Ok(a) && k < 4 && i < 8
    ensures Bit(a.ip[k], i) != Bit(val[4 + k], i) <==> Bit(CookieByte(k), i) == 1
  {
    FlippedBit(val[4 + k], CookieByte(k), i);
  }

  lemma PortBit(wire: Port, port: Port, i: nat)
    requires port == PortXor(wire)
    ensures Bit(port, i) != Bit(wire, i) <==> Bit(0x2112, i) == 1
  {
    FlippedBit(wire, 0x2112, i);
  }

  /**
   * A decoded XOR-MAPPED-ADDRESS differs from the bytes on the wire in exactly the bits that are set in
   * the cookie: four address bytes against 0x2112A442, and the big-endian port against 0x2112.
   */
  lemma XorMappedBits(val: seq<Byte>, a: Mapped)
    requires ParseXorMapped(val) == Ok(a)
    ensures |val| >= 8 && val[1] == 1
    ensures forall k: nat, i: nat | k < 4 && i < 8 ::
              Bit(a.ip[k], i) != Bit(val[4 + k], i) <==> Bit(CookieByte(k), i) == 1
    ensures var wire := (val[2] as int) * 256 + val[3] as int;
            forall i: nat | i < 16 :: Bit(a.port, i) != Bit(wire, i) <==> Bit(0x2112, i) == 1
  {
    forall k: nat, i: nat | k < 4 && i < 8
      ensures Bit(a.ip[k], i) != Bit(val[4 + k], i) <==> Bit(CookieByte(k), i) == 1
    {
      AddressBit(val, a, k, i);
    }
    var wire := (val[2] as int) * 256 + val[3] as int;
    forall i: nat | i < 16
      ensures Bit(a.port, i) != Bit(wire, i) <==> Bit(0x2112, i) == 1
    {
      PortBit(wire, a.port, i);
    }
  }

  /** Exactly the values of at least eight bytes with family 1 are decoded, for both attributes. */
  lemma AddressValuesIff(val: seq<Byte>)
    ensures ParseXorMapped(val).Ok? <==> |val| >= 8 && val[1] == 1
    ensures ParseMapped(val) == (if |val| < 8 then Err(AddressTooShort)
                                 else if val[1] != 1 then Err(UnsupportedFamily)
                                 else Ok(Mapped(val[4..8], (val[2] as int) * 256 + val[3] as int)))
    ensures ParseXorMapped(val).Err? ==> ParseXorMapped(val) == ParseMapped(val)
  {
  }

  lemma WalkOne(typ: nat, val: seq<Byte>)
    requires |val| == 8 && typ < 256
    ensures Walk([0x00, typ, 0x00, 0x08] + val, None) == if typ == 0x20 then ParseXorMapped(val)
                                                         else if typ == 0x01 then ParseMapped(val)
                                                         else Err(NoAddress)
  {
    var a := Attr(typ, val, []);
    assert EncodeAttr(a) + [] == [0x00, typ, 0x00, 0x08] + val;
    WalkOverAttr(a, [], None);
  }

  /** One response byte by byte: a success header with the cookie and the transaction ID, then one attribute. */
  lemma WireFormat(tx: TxId, typ: nat, val: seq<Byte>)
    requires |val| == 8 && typ < 256
    ensures var data := [0x01, 0x01, 0x00, 0x0C, 0x21, 0x12, 0xA4, 0x42] + tx + [0x00, typ, 0x00, 0x08] + val;
            Parse(data, tx) == if typ == 0x20 then ParseXorMapped(val)
                               else if typ == 0x01 then ParseMapped(val)
                               else Err(NoAddress)
  {
    var head, attr := [0x01, 0x01, 0x00, 0x0C, 0x21, 0x12, 0xA4, 0x42], [0x00, typ, 0x00, 0x08];
    var data := head + tx + attr + val;
    var body := attr + val;
    assert data[0..2] == [0x01, 0x01] && data[2..4] == [0x00, 0x0C];
    assert data[4..8] == COOKIE && data[8..20] == tx && data[20..32] == body;
    assert Uint16(data[0..2]) == 257 && Uint16(data[2..4]) == 12;
    WalkOne(typ, val);
  }

  /** The request on the wire: type 1, no attributes, the cookie, the transaction ID. */
  lemma RequestFormat(tx: TxId)
    ensures BuildBindingRequest(tx) == [0x00, 0x01, 0x00, 0x00, 0x21, 0x12, 0xA4, 0x42] + tx
  {
  }

  /** What is wrong with a header, in the order of the checks. */
  lemma HeaderErrors(data: seq<Byte>, tx: TxId)
    ensures Parse(data, tx) == Err(TooShort) <==> |data| < 20
    ensures |data| >= 20 ==>
              var cookieOk, txOk := data[4..8] == [0x21, 0x12, 0xA4, 0x42], data[8..20] == tx;
              var typeOk, len := data[0] == 0x01 && data[1] == 0x01, (data[2] as int) * 256 + data[3] as int;
              && (Parse(data, tx) == Err(BadCookie) <==> !cookieOk)
              && (Parse(data, tx) == Err(TransactionMismatch) <==> cookieOk && !txOk)
              && (Parse(data, tx) == Err(UnexpectedType) <==> cookieOk && txOk && !typeOk)
              && (Parse(data, tx) == Err(BodyTooShort) <==> cookieOk && txOk && typeOk && 20 + len > |data|)
  {
    if |data| >= 20 && Uint16(data[2..4]) <= |data| - 20 {
      WalkErrors(data[20..20 + Uint16(data[2..4])], None);
    }
  }

  lemma {:induction false} WalkErrors(attrs: seq<Byte>, mapped: Option<Mapped>)
    ensures Walk(attrs, mapped).Err? ==>
              Walk(attrs, mapped).error in {AddressTooShort, UnsupportedFamily, NoAddress, OutOfRange}
    decreases |attrs|
  {
    if |attrs| < 4 || Uint16(attrs[2..4]) > |attrs| - 4 {
    } else {
      var len := Uint16(attrs[2..4]);
      var verdict := Inspect(Uint16(attrs[0..2]), attrs[4..4 + len], mapped);
      var next := 4 + len + PadLen(len);
      if verdict.Carry? && next <= |attrs| {
        WalkErrors(attrs[next..], verdict.mapped);
      }
    }
  }

  // ----- Which attribute is returned -----

  function FirstXor(items: seq<Item>): Option<Mapped>
  {
    if items == [] then None
    else if items[0].XorAddress? then Some(items[0].addr)
    else FirstXor(items[1..])
  }

  function LastPlain(items: seq<Item>): Option<Mapped>
  {
    if items == [] then None
    else if items[|items| - 1].PlainAddress? then Some(items[|items| - 1].addr)
    else LastPlain(items[..|items| - 1])
  }

  function ItemAttrs(items: seq<Item>, pads: seq<seq<Byte>>): seq<Attr>
    requires |items| == |pads|
  {
    seq(|items|, i requires 0 <= i < |items| => ItemAttr(items[i], pads[i]))
  }

  lemma {:induction false} LastPlainCons(items: seq<Item>)
    requires items != []
    ensures LastPlain(items) ==
            if LastPlain(items[1..]).Some? then LastPlain(items[1..])
            else if items[0].PlainAddress? then Some(items[0].addr) else None
    decreases |items|
  {
    if |items| == 1 {
    } else {
      var front := items[..|items| - 1];
      assert front[1..] == items[1..][..|items| - 2];
      if !items[|items| - 1].PlainAddress? {
        LastPlainCons(front);
      }
    }
  }

  lemma {:induction false} PickItems(items: seq<Item>, pads: seq<seq<Byte>>, mapped: Option<Mapped>)
    requires |items| == |pads| && forall i | 0 <= i < |items| :: ValidItem(items[i])
    ensures Pick(ItemAttrs(items, pads), mapped) ==
            match FirstXor(items)
            case Some(a) => Ok(a)
            case None => Finish(if LastPlain(items).Some? then LastPlain(items) else mapped)
    decreases |items|
  {
    if items == [] {
    } else {
      var attrs := ItemAttrs(items, pads);
      assert attrs[1..] == ItemAttrs(items[1..], pads[1..]);
      LastPlainCons(items);
      if !items[0].Other? {
        DecodeInvertsEncode(items[0].addr);
      }
      PickItems(items[1..], pads[1..], if items[0].PlainAddress? then Some(items[0].addr) else mapped);
    }
  }

  /**
   * Any mix of address and other attributes, in any order and with any padding bytes: the first
   * XOR-MAPPED-ADDRESS is returned wherever it stands, otherwise the last MAPPED-ADDRESS.
   */
  lemma ResponseRoundTrip(tx: TxId, items: seq<Item>, pads: seq<seq<Byte>>, trailing: seq<Byte>)
    requires |items| == |pads| && forall i | 0 <= i < |items| :: ValidItem(items[i])
    requires WellFormed(ItemAttrs(items, pads)) && |EncodeAttrs(ItemAttrs(items, pads))| < 65536
    ensures var body := EncodeAttrs(ItemAttrs(items, pads));
            // the server echoes the cookie and transaction ID of the request
            Parse(PutUint16(BINDING_SUCCESS) + PutUint16(|body|) + BuildBindingRequest(tx)[4..] + body + trailing, tx)
            ==
            match FirstXor(items)
            case Some(a) => Ok(a)
            case None => Finish(LastPlain(items))
  {
    var attrs := ItemAttrs(items, pads);
    var body := EncodeAttrs(attrs);
    assert BuildBindingRequest(tx)[4..] == COOKIE + tx;
    assert PutUint16(BINDING_SUCCESS) + PutUint16(|body|) + BuildBindingRequest(tx)[4..]
        == EncodeHeader(BINDING_SUCCESS, |body|, tx);
    ParseEncodedResponse(tx, attrs, trailing);
    PickItems(items, pads, None);
  }

  // ----- When the attribute loop runs out of its slice -----

  lemma {:induction false} AlignedWalkInRange(attrs: seq<Byte>, mapped: Option<Mapped>)
    requires |attrs| % 4 == 0
    ensures Walk(attrs, mapped) != Err(OutOfRange)
    decreases |attrs|
  {
    if |attrs| >= 4 {
      var len := Uint16(attrs[2..4]);
      if len <= |attrs| - 4 {
        var verdict := Inspect(Uint16(attrs[0..2]), attrs[4..4 + len], mapped);
        assert 4 + len + PadLen(len) <= |attrs|;
        if verdict.Carry? {
          AlignedWalkInRange(attrs[4 + len + PadLen(len)..], verdict.mapped);
        }
      }
    }
  }

  /** A message length that is a multiple of four, as section 6 of RFC 5389 demands, keeps all slices in range. */
  lemma AlignedMessageInRange(data: seq<Byte>, tx: TxId)
    requires |data| >= 20 ==> Uint16(data[2..4]) % 4 == 0
    ensures Parse(data, tx) != Err(OutOfRange)
  {
    if |data| >= 20 && Uint16(data[2..4]) <= |data| - 20 {
      AlignedWalkInRange(data[20..20 + Uint16(data[2..4])], None);
    }
  }

  predicate Passed(a: Attr)
  {
    WellFormedAttr(a) && Inspect(a.typ, a.value, None).Carry?
  }

  /**
   * The bytes are attributes that carry the walk on, then one whose value is complete but whose
   * padding is cut off by the end of the body.
   */
  predicate CutPadding(bytes: seq<Byte>, before: seq<Attr>, last: Attr, kept: nat)
  {
    && (forall i | 0 <= i < |before| :: Passed(before[i]))
    && Passed(last) && kept < |last.pad|
    && bytes == EncodeAttrs(before) + AttrHeader(last.typ, |last.value|) + last.value + last.pad[..kept]
  }

  lemma {:induction false} CutPaddingOverruns(
    bytes: seq<Byte>, before: seq<Attr>, last: Attr, kept: nat, mapped: Option<Mapped>)
    requires CutPadding(bytes, before, last, kept)
    ensures Walk(bytes, mapped) == Err(OutOfRange)
    decreases |before|
  {
    if before == [] {
      assert bytes[0..2] == PutUint16(last.typ);
      assert bytes[2..4] == PutUint16(|last.value|);
      assert bytes[4..4 + |last.value|] == last.value;
    } else {
      var rest := EncodeAttrs(before[1..]) + AttrHeader(last.typ, |last.value|) + last.value + last.pad[..kept];
      assert bytes == EncodeAttr(before[0]) + rest;
      WalkOverAttr(before[0], rest, mapped);
      assert Passed(before[0]);
      CutPaddingOverruns(rest, before[1..], last, kept, Inspect(before[0].typ, before[0].value, mapped).mapped);
    }
  }

  lemma HeaderBytes(bytes: seq<Byte>)
    requires |bytes| >= 4
    ensures bytes[..4] == AttrHeader(Uint16(bytes[0..2]), Uint16(bytes[2..4]))
  {
  }

  /** The attribute at the front of the bytes, when it is complete. */
  lemma SplitAttr(bytes: seq<Byte>, len: nat)
    requires |bytes| >= 4 && len == Uint16(bytes[2..4]) && 4 + len + PadLen(len) <= |bytes|
    ensures var next := 4 + len + PadLen(len);
            var first := Attr(Uint16(bytes[0..2]), bytes[4..4 + len], bytes[4 + len..next]);
            WellFormedAttr(first) && bytes == EncodeAttr(first) + bytes[next..]
  {
  }

  lemma CutPaddingHere(bytes: seq<Byte>, len: nat, last: Attr)
    requires |bytes| >= 4 && len == Uint16(bytes[2..4]) && 4 + len <= |bytes| < 4 + len + PadLen(len)
    requires last.typ == Uint16(bytes[0..2]) && last.value == bytes[4..4 + len]
    requires last.pad == bytes[4 + len..] + Zeros(4 + len + PadLen(len) - |bytes|)
    requires Passed(last)
    ensures CutPadding(bytes, [], last, |bytes| - 4 - len)
  {
    HeaderBytes(bytes);
    assert last.pad[..|bytes| - 4 - len] == bytes[4 + len..];
    assert bytes == bytes[..4] + bytes[4..4 + len] + bytes[4 + len..];
    assert EncodeAttrs([]) + bytes[..4] == bytes[..4];
  }

  lemma CutPaddingCons(first: Attr, bytes: seq<Byte>, before: seq<Attr>, last: Attr, kept: nat)
    requires Passed(first) && CutPadding(bytes, before, last, kept)
    ensures CutPadding(EncodeAttr(first) + bytes, [first] + before, last, kept)
  {
  }

  lemma {:induction false} OverrunHasCutPadding(bytes: seq<Byte>, mapped: Option<Mapped>)
    returns (before: seq<Attr>, last: Attr, kept: nat)
    requires Walk(bytes, mapped) == Err(OutOfRange)
    ensures CutPadding(bytes, before, last, kept)
    decreases |bytes|
  {
    var typ, len := Uint16(bytes[0..2]), Uint16(bytes[2..4]);
    var val, next := bytes[4..4 + len], 4 + len + PadLen(len);
    if next > |bytes| {
      last := Attr(typ, val, bytes[4 + len..] + Zeros(next - |bytes|));
      before, kept := [], |bytes| - 4 - len;
      CutPaddingHere(bytes, len, last);
    } else {
      var first := Attr(typ, val, bytes[4 + len..next]);
      SplitAttr(bytes, len);
      before, last, kept := OverrunHasCutPadding(bytes[next..], Inspect(typ, val, mapped).mapped);
      CutPaddingCons(first, bytes[next..], before, last, kept);
      before := [first] + before;
    }
  }

  ghost predicate PaddingCutOff(bytes: seq<Byte>)
  {
    exists before, last, kept :: CutPadding(bytes, before, last, kept)
  }

  lemma WalkOverrunsIff(bytes: seq<Byte>)
    ensures Walk(bytes, None) == Err(OutOfRange) <==> PaddingCutOff(bytes)
  {
    if Walk(bytes, None) == Err(OutOfRange) {
      var before, last, kept := OverrunHasCutPadding(bytes, None);
    }
    if before, last, kept :| CutPadding(bytes, before, last, kept) {
      CutPaddingOverruns(bytes, before, last, kept, None);
    }
  }

  /** The checks before the attribute loop pass: a success response to this request, with a complete body. */
  predicate HeaderOk(data: seq<Byte>, tx: TxId)
  {
    && |data| >= 20 && data[4..8] == COOKIE && data[8..20] == tx
    && Uint16(data[0..2]) == BINDING_SUCCESS && Uint16(data[2..4]) <= |data| - 20
  }

  /** Exactly the responses with a fine header and cut-off padding at the end drive the loop out of its slice. */
  lemma OutOfRangeIff(data: seq<Byte>, tx: TxId)
    ensures Parse(data, tx) == Err(OutOfRange)
       <==> HeaderOk(data, tx) && PaddingCutOff(data[20..20 + Uint16(data[2..4])])
  {
    if HeaderOk(data, tx) {
      WalkOverrunsIff(data[20..20 + Uint16(data[2..4])]);
    }
  }

  /** One such datagram: a success header with length 5, and a SOFTWARE attribute of one byte without its padding. */
  lemma ShortestOverrun(tx: TxId, b: Byte)
    ensures var data := PutUint16(BINDING_SUCCESS) + PutUint16(5) + COOKIE + tx + AttrHeader(0x8022, 1) + [b];
            |data| == 25 && Parse(data, tx) == Err(OutOfRange)
  {
    var body := AttrHeader(0x8022, 1) + [b];
    var data := PutUint16(BINDING_SUCCESS) + PutUint16(5) + COOKIE + tx + body;
    assert data == PutUint16(BINDING_SUCCESS) + PutUint16(5) + COOKIE + tx + AttrHeader(0x8022, 1) + [b];
    assert data[0..2] == PutUint16(BINDING_SUCCESS) && data[2..4] == PutUint16(5);
    assert data[4..8] == COOKIE && data[8..20] == tx && data[20..25] == body;
    assert body[0..2] == PutUint16(0x8022) && body[2..4] == PutUint16(1);
  }
}
