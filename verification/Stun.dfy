/**
 * The STUN binding exchange of internal/network: the server's response builder (stun_server.go) and the
 * client's parser (stun.go), in the message format of sections 6 and 15 of RFC 5389.
 */
module Stun {
  import opened Bytes

  const COOKIE := 0x2112A442
  const COOKIE_BYTES: bytes := [0x21, 0x12, 0xA4, 0x42]
  const BINDING_REQUEST := 0x0001
  const BINDING_SUCCESS := 0x0101
  const MAPPED_ADDRESS := 0x0001
  const XOR_MAPPED_ADDRESS := 0x0020

  lemma CookieIsPut()
    ensures Put(0x2112, 2) == [0x21, 0x12] && Put(0x2112A442, 4) == [0x21, 0x12, 0xA4, 0x42]
  {
  }

  lemma CookieFacts()
    ensures Put(COOKIE, 4) == COOKIE_BYTES && Get(COOKIE_BYTES) == COOKIE
    ensures Get(COOKIE_BYTES[0..2]) == 0x2112
  {
    CookieIsPut();
    SpanValues();
    GetPut(COOKIE, 4);
    GetPut(0x2112, 2);
    assert COOKIE_BYTES[0..2] == [0x21, 0x12];
  }

  function Zeros(n: nat): (z: bytes)
    ensures |z| == n
  {
    seq(n, _ => 0)
  }

  // ---- Addresses ----

  /** `net.IP.To4`: four bytes, or the last four of an IPv4-mapped sixteen. */
  function To4(ip: bytes): (v4: Option<bytes>)
    ensures v4.Some? ==> |v4.value| == 4
  {
    if |ip| == 4 then Some(ip)
    else if |ip| == 16 && ip[..10] == Zeros(10) && ip[10] == 255 && ip[11] == 255 then Some(ip[12..])
    else None
  }

  predicate IsIP(ip: bytes) { |ip| == 4 || |ip| == 16 }

  /** The address as it comes back: IPv4-mapped addresses collapse to IPv4. */
  function Collapsed(ip: bytes): bytes {
    if To4(ip).Some? then To4(ip).value else ip
  }

  function XorAll(a: bytes, key: bytes): (x: bytes)
    requires |a| <= |key|
    ensures |x| == |a|
  {
    seq(|a|, i requires 0 <= i < |a| => XorByte(a[i], key[i]))
  }

  lemma XorAllCancels(a: bytes, key: bytes)
    requires |a| <= |key|
    ensures XorAll(XorAll(a, key), key) == a
  {
  }

  /** The key both sides use: the cookie, then zeros where section 15.2 of RFC 5389 has the transaction id. */
  function RepoKey(): (k: bytes)
    ensures |k| == 16
  {
    COOKIE_BYTES + Zeros(12)
  }

  // ---- Building ----

  function AddressValue(family: byte, port: int, key: bytes, ip: bytes): (v: bytes)
    requires |ip| <= |key|
    ensures |v| == 4 + |ip|
  {
    [0, family] + Put(Xor16(port % 65536, 0x2112), 2) + XorAll(ip, key)
  }

  function Attribute(kind: nat, value: bytes): (a: bytes)
    ensures |a| == 4 + |value|
  {
    Put(kind, 2) + Put(|value|, 2) + value
  }

  function AddressAttribute(ip: bytes, port: int): (a: bytes)
    requires IsIP(ip)
    ensures |a| == 4 + 4 + |Collapsed(ip)|
  {
    var a := Collapsed(ip);
    Attribute(XOR_MAPPED_ADDRESS, AddressValue(if |a| == 4 then 1 else 2, port, RepoKey(), a))
  }

  function Message(kind: nat, txID: bytes, attrs: bytes): bytes {
    Put(kind, 2) + Put(|attrs|, 2) + Put(COOKIE, 4) + txID + attrs
  }

  function BindingResponse(txID: bytes, ip: bytes, port: int): bytes
    requires IsIP(ip)
  {
    Message(BINDING_SUCCESS, txID, AddressAttribute(ip, port))
  }

  /** `buildXorMappedAddrAttr`. */
  method BuildXorMappedAddrAttr(ip: bytes, port: int) returns (attr: bytes)
    requires IsIP(ip)
    ensures attr == AddressAttribute(ip, port)
  {
    var v4 := To4(ip);
    var address := if v4.Some? then v4.value else ip;
    var n := |address|;
    var key := RepoKey();
    var value := new byte[4 + n](_ => 0);
    value[1] := if v4.Some? then 1 else 2;
    PutBigEndian(value, 2, 2, Xor16(port % 65536, 0x2112));
    assert value[..4] == [0, if n == 4 then 1 else 2] + Put(Xor16(port % 65536, 0x2112), 2);
    MaskInto(value, address, key);
    attr := Put(XOR_MAPPED_ADDRESS, 2) + Put(4 + n, 2) + value[..];
  }

  /** The masking loop: fills `value` from its fifth byte on. */
  method MaskInto(value: array<byte>, address: bytes, key: bytes)
    requires value.Length == 4 + |address| && |address| <= |key|
    modifies value
    ensures value[..] == old(value[..4]) + XorAll(address, key)
  {
    for i := 0 to |address|
      invariant value[..4] == old(value[..4])
      invariant forall k | 0 <= k < i :: value[4 + k] == XorByte(address[k], key[k])
    {
      value[4 + i] := XorByte(address[i], key[i]);
    }
    assert value[4..] == XorAll(address, key);
    assert value[..] == value[..4] + value[4..];
  }

  /** `buildBindingResponse`. */
  method BuildBindingResponse(txID: bytes, ip: bytes, port: int) returns (resp: bytes)
    requires IsIP(ip) && |txID| == 12
    ensures resp == BindingResponse(txID, ip, port)
  {
    var attr := BuildXorMappedAddrAttr(ip, port);
    var header := ResponseHeader(|attr|);
    resp := header + txID + attr;
  }

  method ResponseHeader(length: nat) returns (header: bytes)
    ensures header == Put(BINDING_SUCCESS, 2) + Put(length, 2) + Put(COOKIE, 4)
  {
    var buffer := new byte[8](_ => 0);
    PutBigEndian(buffer, 0, 2, BINDING_SUCCESS);
    PutBigEndian(buffer, 2, 2, length);
    assert buffer[..4] == Put(BINDING_SUCCESS, 2) + Put(length, 2);
    PutBigEndian(buffer, 4, 4, COOKIE);
    header := buffer[..];
  }

  // ---- Parsing ----

  datatype ParseError = TooShort | WrongType | WrongCookie | Truncated | NoAddress | AttributeTooShort | UnsupportedFamily
  datatype Parsed = Mapped(ip: bytes, port: nat) | Failed(error: ParseError)

  datatype Attr = Attr(kind: nat, value: bytes)

  predicate IsAddress(kind: nat) { kind == XOR_MAPPED_ADDRESS || kind == MAPPED_ADDRESS }

  lemma GetTwo(b: bytes)
    requires |b| == 2
    ensures Get(b) < 65536
  {
    PutGet(b);
    SpanValues();
  }

  /** `decodeAddressAttribute`, with the port and address left as numbers. */
  function DecodeAddress(a: Attr, cookie: bytes): Parsed
    requires |cookie| == 4
  {
    var v := a.value;
    if |v| < 5 then Failed(AttributeTooShort)
    else
      GetTwo(v[2..4]);
      GetTwo(cookie[0..2]);
      var xored := a.kind == XOR_MAPPED_ADDRESS;
      var port := if xored then Xor16(Get(v[2..4]), Get(cookie[0..2])) else Get(v[2..4]);
      if v[1] == 1 && |v| >= 8 then
        Mapped(if xored then XorAll(v[4..8], cookie) else v[4..8], port)
      else if v[1] == 2 && |v| >= 20 then
        Mapped(if xored then XorAll(v[4..20], cookie + Zeros(12)) else v[4..20], port)
      else Failed(UnsupportedFamily)
  }

  /** A length rounded up to a multiple of four. */
  function Padded(n: nat): (p: nat)
    ensures n <= p < n + 4 && p % 4 == 0
  {
    if n % 4 != 0 then n + (4 - n % 4) else n
  }

  function KindAt(b: bytes, pos: nat): nat
    requires pos + 4 <= |b|
  {
    Get(b[pos..pos + 2])
  }

  function LengthAt(b: bytes, pos: nat): nat
    requires pos + 4 <= |b|
  {
    Get(b[pos + 2..pos + 4])
  }

  /** The item at `pos`, unless it does not fit. */
  function ItemAt(b: bytes, pos: nat): Option<Attr> {
    if pos + 4 > |b| || pos + 4 + LengthAt(b, pos) > |b| then None
    else Some(Attr(KindAt(b, pos), b[pos + 4..pos + 4 + LengthAt(b, pos)]))
  }

  /** The padded type-length-value sequence of section 15 of RFC 5389 from `pos`, up to the first item that does not fit. */
  function Walk(b: bytes, pos: nat): seq<Attr>
    decreases |b| - pos
  {
    var item := ItemAt(b, pos);
    if item.None? then [] else [item.value] + Walk(b, pos + 4 + Padded(|item.value.value|))
  }

  /** The first address attribute of a sequence. */
  function FindAddress(attrs: seq<Attr>): (found: Option<Attr>) {
    if attrs == [] then None
    else if IsAddress(attrs[0].kind) then Some(attrs[0])
    else FindAddress(attrs[1..])
  }

  function DecodeFound(found: Option<Attr>, cookie: bytes): Parsed
    requires |cookie| == 4
  {
    if found.None? then Failed(NoAddress) else DecodeAddress(found.value, cookie)
  }

  function Parse(data: bytes): Parsed {
    if |data| < 20 then Failed(TooShort)
    else if Get(data[0..2]) != BINDING_SUCCESS then Failed(WrongType)
    else if Get(data[4..8]) != COOKIE then Failed(WrongCookie)
    else ParseAttributes(data)
  }

  function ParseAttributes(data: bytes): Parsed
    requires |data| >= 20
  {
    if |data| < 20 + Get(data[2..4]) then Failed(Truncated)
    else DecodeFound(FindAddress(Walk(data[20..20 + Get(data[2..4])], 0)), data[4..8])
  }

  /** The first address attribute met from `pos` on. */
  function FindFrom(b: bytes, pos: nat): (found: Option<Attr>)
    ensures found == FindAddress(Walk(b, pos))
    decreases |b| - pos
  {
    var item := ItemAt(b, pos);
    if item.None? || IsAddress(item.value.kind) then item
    else
      var next := pos + 4 + Padded(|item.value.value|);
      assert ([item.value] + Walk(b, next))[1..] == Walk(b, next);
      FindFrom(b, next)
  }

  /** `getMappedFromResponse`: the attribute walk with its advancing position. */
  method GetMappedFromResponse(resp: bytes) returns (r: Parsed)
    requires |resp| >= 20
    ensures r == ParseAttributes(resp)
  {
    var msgLen := Get(resp[2..4]);
    if |resp| < 20 + msgLen {
      return Failed(Truncated);
    }
    var attrs := resp[20..20 + msgLen];
    var found := FindLoop(attrs);
    if found.None? {
      return Failed(NoAddress);
    }
    r := DecodeAddressAttribute(found.value.value, found.value.kind, resp[4..8]);
  }

  method DecodeAddressAttribute(attrData: bytes, attrType: nat, magicCookie: bytes) returns (r: Parsed)
    requires |magicCookie| == 4
    ensures r == DecodeAddress(Attr(attrType, attrData), magicCookie)
  {
    if |attrData| < 5 {
      return Failed(AttributeTooShort);
    }
    GetTwo(attrData[2..4]);
    GetTwo(magicCookie[0..2]);
    var port := Get(attrData[2..4]);
    if attrType == XOR_MAPPED_ADDRESS {
      port := Xor16(port, Get(magicCookie[0..2]));
    }
    var n := if attrData[1] == 1 then 4 else 16;
    if (attrData[1] != 1 && attrData[1] != 2) || |attrData| < 4 + n {
      return Failed(UnsupportedFamily);
    }
    var ip := attrData[4..4 + n];
    if attrType == XOR_MAPPED_ADDRESS {
      ip := Unmask(ip, if n == 4 then magicCookie else magicCookie + Zeros(12));
    }
    return Mapped(ip, port);
  }

  /** The unmasking loops of the two families. */
  method Unmask(data: bytes, key: bytes) returns (ip: bytes)
    requires |data| <= |key|
    ensures ip == XorAll(data, key)
  {
    var a := new byte[|data|](_ => 0);
    for i := 0 to |data|
      invariant forall k | 0 <= k < i :: a[k] == XorByte(data[k], key[k])
    {
      a[i] := XorByte(data[i], key[i]);
    }
    ip := a[..];
  }

  method FindLoop(attrs: bytes) returns (found: Option<Attr>)
    ensures found == FindAddress(Walk(attrs, 0))
  {
    var pos: nat := 0;
    ghost var answer := FindAddress(Walk(attrs, 0));
    while pos + 4 <= |attrs|
      invariant FindFrom(attrs, pos) == answer
      decreases |attrs| - pos
    {
      var item := ItemAt(attrs, pos);
      if item.None? {
        return None;
      }
      if IsAddress(item.value.kind) {
        return item;
      }
      pos := pos + 4 + Padded(|item.value.value|);
    }
    return None;
  }

  method ParseXorMappedAddress(data: bytes) returns (r: Parsed)
    ensures r == Parse(data)
  {
    if |data| < 20 {
      return Failed(TooShort);
    }
    if Get(data[0..2]) != BINDING_SUCCESS {
      return Failed(WrongType);
    }
    if Get(data[4..8]) != COOKIE {
      return Failed(WrongCookie);
    }
    r := GetMappedFromResponse(data);
  }

  /** The parser decodes the first address attribute of the sequence, of type 0x0001 or 0x0020, and reports none exactly when there is none. */
  lemma {:induction false} FindAddressIsFirst(attrs: seq<Attr>)
    ensures FindAddress(attrs).None? ==> forall j | 0 <= j < |attrs| :: attrs[j].kind !in {0x0001, 0x0020}
    ensures FindAddress(attrs).Some? ==>
              exists i | 0 <= i < |attrs| :: FindAddress(attrs) == Some(attrs[i]) && attrs[i].kind in {0x0001, 0x0020}
                && forall j | 0 <= j < i :: attrs[j].kind !in {0x0001, 0x0020}
  {
    if attrs != [] && !IsAddress(attrs[0].kind) {
      var rest := attrs[1..];
      FindAddressIsFirst(rest);
      assert forall j | 1 <= j < |attrs| :: attrs[j] == rest[j - 1];
      if FindAddress(rest).Some? {
        var i :| 0 <= i < |rest| && FindAddress(rest) == Some(rest[i]) && IsAddress(rest[i].kind)
                 && forall j | 0 <= j < i :: !IsAddress(rest[j].kind);
        assert attrs[i + 1] == rest[i];
      }
    }
  }

  // ---- Round trips ----

  /** An attribute as transmitted, with whatever bytes pad it to a multiple of four. */
  datatype Tlv = Tlv(kind: nat, value: bytes, pad: bytes) {
    predicate Valid() { kind < 65536 && |value| < 65536 && (|value| + |pad|) % 4 == 0 && |pad| < 4 }
    predicate IsForeign() { kind != 0x0001 && kind != 0x0020 }
    function Wire(): (w: bytes)
      ensures |w| >= 4
    {
      Attribute(kind, value) + pad
    }
  }

  function WireAll(ts: seq<Tlv>): bytes {
    if ts == [] then [] else ts[0].Wire() + WireAll(ts[1..])
  }

  /** A byte string behind another is walked as on its own. */
  lemma {:induction false} WalkBehind(front: bytes, b: bytes, pos: nat)
    ensures Walk(front + b, |front| + pos) == Walk(b, pos)
    decreases |b| - pos
  {
    ItemBehind(front, b, pos);
    var item := ItemAt(b, pos);
    if item.Some? {
      WalkBehind(front, b, pos + 4 + Padded(|item.value.value|));
    }
  }

  lemma ItemBehind(front: bytes, b: bytes, pos: nat)
    ensures ItemAt(front + b, |front| + pos) == ItemAt(b, pos)
  {
    var s, at := front + b, |front| + pos;
    if pos + 4 <= |b| {
      assert s[at..at + 2] == b[pos..pos + 2];
      assert s[at + 2..at + 4] == b[pos + 2..pos + 4];
      var n := LengthAt(b, pos);
      if pos + 4 + n <= |b| {
        assert s[at + 4..at + 4 + n] == b[pos + 4..pos + 4 + n];
      }
    }
  }

  lemma AttributeItem(kind: nat, value: bytes, tail: bytes)
    requires kind < 65536 && |value| < 65536
    ensures ItemAt(Attribute(kind, value) + tail, 0) == Some(Attr(kind, value))
  {
    SpanValues();
    GetPut(kind, 2);
    GetPut(|value|, 2);
    var b := Attribute(kind, value) + tail;
    assert b[0..2] == Put(kind, 2);
    assert b[2..4] == Put(|value|, 2);
    assert b[4..4 + |value|] == value;
  }

  lemma PaddedIs(n: nat, p: nat)
    requires n <= p < n + 4 && p % 4 == 0
    ensures Padded(n) == p
  {
  }

  /** Walking over a padded attribute yields it and continues right behind its padding. */
  lemma WalkStep(t: Tlv, tail: bytes)
    requires t.Valid()
    ensures Walk(t.Wire() + tail, 0) == [Attr(t.kind, t.value)] + Walk(tail, 0)
  {
    var b, next := t.Wire() + tail, |t.Wire()|;
    AttributeItem(t.kind, t.value, t.pad + tail);
    Assoc(Attribute(t.kind, t.value), t.pad, tail);
    PaddedIs(|t.value|, |t.value| + |t.pad|);
    assert ItemAt(b, 0) == Some(Attr(t.kind, t.value)) && 4 + Padded(|t.value|) == next;
    assert Walk(b, 0) == [Attr(t.kind, t.value)] + Walk(b, next);
    WalkBehind(t.Wire(), tail, 0);
  }

  /** The walk recovers any transmitted attribute list. */
  lemma {:induction false} WalkRoundTrip(ts: seq<Tlv>)
    requires forall t | t in ts :: t.Valid()
    ensures |Walk(WireAll(ts), 0)| == |ts|
    ensures forall i | 0 <= i < |ts| :: Walk(WireAll(ts), 0)[i] == Attr(ts[i].kind, ts[i].value)
  {
    if ts != [] {
      WalkStep(ts[0], WireAll(ts[1..]));
      WalkRoundTrip(ts[1..]);
    }
  }

  /** Attributes of other types in front of the rest do not change what is found. */
  lemma {:induction false} SkipOthers(ts: seq<Tlv>, tail: bytes)
    requires forall t | t in ts :: t.Valid() && t.IsForeign()
    ensures FindAddress(Walk(WireAll(ts) + tail, 0)) == FindAddress(Walk(tail, 0))
  {
    if ts == [] {
      assert WireAll(ts) + tail == tail;
    } else {
      var more := WireAll(ts[1..]) + tail;
      SkipOthers(ts[1..], tail);
      WalkStep(ts[0], more);
      Assoc(ts[0].Wire(), WireAll(ts[1..]), tail);
      assert ([Attr(ts[0].kind, ts[0].value)] + Walk(more, 0))[1..] == Walk(more, 0);
    }
  }

  lemma Pieces(a: bytes, b: bytes, c: bytes, d: bytes, e: bytes, f: bytes)
    requires |a| == 2 && |b| == 2 && |c| == 4 && |d| == 12
    ensures var m := a + b + c + d + e + f;
            && |m| == 20 + |e| + |f| && m[0..2] == a && m[2..4] == b && m[4..8] == c && m[8..20] == d
            && m[20..20 + |e|] == e
  {
  }

  lemma MessageFields(kind: nat, txID: bytes, attrs: bytes, trailing: bytes)
    requires kind < 65536 && |txID| == 12 && |attrs| < 65536
    ensures var m := Message(kind, txID, attrs) + trailing;
            && |m| == 20 + |attrs| + |trailing| && Get(m[0..2]) == kind && Get(m[2..4]) == |attrs|
            && m[4..8] == COOKIE_BYTES && Get(m[4..8]) == COOKIE && m[8..20] == txID && m[20..20 + |attrs|] == attrs
  {
    SpanValues();
    GetPut(kind, 2);
    GetPut(|attrs|, 2);
    CookieFacts();
    Pieces(Put(kind, 2), Put(|attrs|, 2), Put(COOKIE, 4), txID, attrs, trailing);
  }

  function FamilyOf(ip: bytes): byte { if |ip| == 4 then 1 else 2 }

  /** The parser reads a masked address back through its own key, whichever key masked it. */
  lemma DecodeOfValue(port: int, key: bytes, ip: bytes)
    requires IsIP(ip) && |key| == 16
    ensures DecodeAddress(Attr(XOR_MAPPED_ADDRESS, AddressValue(FamilyOf(ip), port, key, ip)), COOKIE_BYTES)
            == Mapped(XorAll(XorAll(ip, key), RepoKey()), port % 65536)
  {
    var x := Xor16(port % 65536, 0x2112);
    var v := AddressValue(FamilyOf(ip), port, key, ip);
    SpanValues();
    GetPut(x, 2);
    CookieFacts();
    assert v[2..4] == Put(x, 2);
    assert v[4..4 + |ip|] == XorAll(ip, key);
    if |ip| == 4 {
      assert XorAll(XorAll(ip, key), COOKIE_BYTES) == XorAll(XorAll(ip, key), RepoKey());
    }
  }

  function AddressItem(ip: bytes, port: int): Attr
    requires IsIP(ip)
  {
    Attr(XOR_MAPPED_ADDRESS, AddressValue(FamilyOf(Collapsed(ip)), port, RepoKey(), Collapsed(ip)))
  }

  lemma AttributeIsFound(value: bytes)
    requires |value| < 65536
    ensures FindAddress(Walk(Attribute(XOR_MAPPED_ADDRESS, value), 0)) == Some(Attr(XOR_MAPPED_ADDRESS, value))
  {
    var b := Attribute(XOR_MAPPED_ADDRESS, value);
    AttributeItem(XOR_MAPPED_ADDRESS, value, []);
    assert b + [] == b;
    assert FindFrom(b, 0) == Some(Attr(XOR_MAPPED_ADDRESS, value));
  }

  lemma AddressIsFound(ip: bytes, port: int)
    requires IsIP(ip)
    ensures FindAddress(Walk(AddressAttribute(ip, port), 0)) == Some(AddressItem(ip, port))
  {
    AttributeIsFound(AddressItem(ip, port).value);
  }

  /**
   * Parsing a response gives back the client's address and port, whatever the transaction id, whatever
   * well-padded attributes of other types come first, and whatever bytes follow the message.
   */
  lemma ResponseRoundTrip(txID: bytes, ip: bytes, port: int, others: seq<Tlv>, trailing: bytes)
    requires |txID| == 12 && IsIP(ip)
    requires forall t | t in others :: t.Valid() && t.IsForeign()
    requires |WireAll(others)| + |AddressAttribute(ip, port)| < 65536
    ensures Parse(Message(BINDING_SUCCESS, txID, WireAll(others) + AddressAttribute(ip, port)) + trailing)
            == Mapped(Collapsed(ip), port % 65536)
  {
    var attrs := WireAll(others) + AddressAttribute(ip, port);
    MessageFields(BINDING_SUCCESS, txID, attrs, trailing);
    SkipOthers(others, AddressAttribute(ip, port));
    AddressIsFound(ip, port);
    DecodeOfValue(port, RepoKey(), Collapsed(ip));
    XorAllCancels(Collapsed(ip), RepoKey());
  }

  // ---- Address attributes of every form ----

  /** What the parser makes of a message whose first address attribute has this type and value. */
  lemma AttributeIsParsed(kind: nat, value: bytes, txID: bytes, others: seq<Tlv>, pad: bytes, more: bytes, trailing: bytes)
    requires |txID| == 12 && kind in {0x0001, 0x0020} && |value| < 65536
    requires forall t | t in others :: t.Valid() && t.IsForeign()
    requires |WireAll(others) + (Attribute(kind, value) + (pad + more))| < 65536
    ensures Parse(Message(0x0101, txID, WireAll(others) + (Attribute(kind, value) + (pad + more))) + trailing)
            == DecodeAddress(Attr(kind, value), [0x21, 0x12, 0xA4, 0x42])
  {
    var rest := Attribute(kind, value) + (pad + more);
    MessageFields(BINDING_SUCCESS, txID, WireAll(others) + rest, trailing);
    SkipOthers(others, rest);
    AttributeItem(kind, value, pad + more);
    assert FindFrom(rest, 0) == Some(Attr(kind, value));
  }

  /** A plain address attribute yields its port and its address bytes as they are, whatever is behind them. */
  lemma PlainAddressIsRead(first: byte, family: byte, high: byte, low: byte, ip: bytes, more: bytes)
    requires (family == 1 && |ip| == 4) || (family == 2 && |ip| == 16)
    ensures DecodeAddress(Attr(0x0001, [first, family, high, low] + ip + more), COOKIE_BYTES) == Mapped(ip, high * 256 + low)
  {
    var v := [first, family, high, low] + ip + more;
    GetOfTwo(high, low);
    assert v[2..4] == [high, low];
    assert v[4..4 + |ip|] == ip;
  }

  lemma GetOfTwo(high: byte, low: byte)
    ensures Get([high, low]) == high * 256 + low
  {
    assert [high, low][..1] == [high] && [high][..0] == [];
    assert Get([high]) == high;
  }

  /** Every other form is malformed: too short, of another family, or shorter than its family needs. */
  lemma MalformedAddressIff(a: Attr)
    ensures DecodeAddress(a, COOKIE_BYTES) == Failed(AttributeTooShort) <==> |a.value| < 5
    ensures DecodeAddress(a, COOKIE_BYTES).Mapped?
            <==> |a.value| >= 8 && (a.value[1] == 1 || (a.value[1] == 2 && |a.value| >= 20))
    ensures DecodeAddress(a, COOKIE_BYTES).Failed? && |a.value| >= 5 ==>
              DecodeAddress(a, COOKIE_BYTES) == Failed(UnsupportedFamily)
  {
  }

  /** An address of an IPv4 client comes back as four bytes, also when the socket gives it in the IPv4-mapped form. */
  lemma MappedFormComesBackAsIPv4(txID: bytes, v4: bytes, port: int)
    requires |txID| == 12 && |v4| == 4
    ensures Parse(BindingResponse(txID, v4, port)) == Mapped(v4, port % 65536)
    ensures Parse(BindingResponse(txID, [0, 0, 0, 0, 0, 0, 0, 0, 0, 0, 255, 255] + v4, port)) == Mapped(v4, port % 65536)
  {
    var ip := [0, 0, 0, 0, 0, 0, 0, 0, 0, 0, 255, 255] + v4;
    assert ip[..10] == Zeros(10) && ip[12..] == v4;
    BareResponseRoundTrip(txID, v4, port);
    BareResponseRoundTrip(txID, ip, port);
  }

  /** Any other sixteen bytes come back as they are. */
  lemma OtherFormComesBackWhole(txID: bytes, ip: bytes, port: int)
    requires |txID| == 12 && |ip| == 16 && ip[..12] != [0, 0, 0, 0, 0, 0, 0, 0, 0, 0, 255, 255]
    ensures Parse(BindingResponse(txID, ip, port)) == Mapped(ip, port % 65536)
  {
    assert ip[..10] == Zeros(10) && ip[10] == 255 && ip[11] == 255 ==> ip[..12] == ip[..10] + [ip[10], ip[11]];
    BareResponseRoundTrip(txID, ip, port);
  }

  // ---- The exchange ----

  /** `handleBindingRequest`: the transaction id the server answers with, if it answers. */
  function Accepts(request: bytes): Option<bytes> {
    if |request| < 20 || Get(request[0..2]) != BINDING_REQUEST || Get(request[4..8]) != COOKIE then None
    else Some(request[8..20])
  }

  /** A request is answered exactly when it has a header with the binding type and the cookie; its transaction id is echoed. */
  lemma AcceptsIff(request: bytes, txID: bytes)
    ensures Accepts(request) == Some(txID)
            <==> |request| >= 20 && request[0..2] == [0x00, 0x01] && request[4..8] == [0x21, 0x12, 0xA4, 0x42] && txID == request[8..20]
  {
    if |request| >= 20 {
      CookieFacts();
      GetOfTwo(request[0], request[1]);
      assert request[0..2] == [request[0], request[1]];
      PutGet(request[4..8]);
    }
  }

  /** `handleBindingRequest`: the response it sends to the client at `ip` and `port`, if any. */
  method HandleBindingRequest(data: bytes, ip: bytes, port: int) returns (resp: Option<bytes>)
    requires IsIP(ip)
    ensures resp == match Accepts(data) { case Some(txID) => Some(BindingResponse(txID, ip, port)) case None => None }
  {
    if |data| < 20 {
      return None;
    }
    if Get(data[0..2]) != BINDING_REQUEST {
      return None;
    }
    if Get(data[4..8]) != COOKIE {
      return None;
    }
    var response := BuildBindingResponse(data[8..20], ip, port);
    return Some(response);
  }

  lemma RequestIsAccepted(txID: bytes)
    requires |txID| == 12
    ensures Accepts(Message(BINDING_REQUEST, txID, [])) == Some(txID)
  {
    MessageFields(BINDING_REQUEST, txID, [], []);
    var request := Message(BINDING_REQUEST, txID, []);
    assert request + [] == request;
  }

  lemma BareResponseRoundTrip(txID: bytes, ip: bytes, port: int)
    requires |txID| == 12 && IsIP(ip)
    ensures Parse(BindingResponse(txID, ip, port)) == Mapped(Collapsed(ip), port % 65536)
  {
    var attr := AddressAttribute(ip, port);
    ResponseRoundTrip(txID, ip, port, [], []);
    assert WireAll([]) + attr == attr;
    var response := Message(BINDING_SUCCESS, txID, attr);
    assert response + [] == response;
  }

  /** A client that sends a binding request is answered, and learns the address and port the server saw it under. */
  lemma ClientLearnsItsAddress(txID: bytes, ip: bytes, port: int, answered: Option<bytes>)
    requires |txID| == 12 && IsIP(ip) && answered == Accepts(Message(BINDING_REQUEST, txID, []))
    ensures answered.Some? && Parse(BindingResponse(answered.value, ip, port)) == Mapped(Collapsed(ip), port % 65536)
  {
    RequestIsAccepted(txID);
    BareResponseRoundTrip(answered.value, ip, port);
  }

  // ---- Distance from the standard for IPv6 ----

  /** One value exclusive-ored with two keys gives the same result only for equal keys. */
  lemma XorKeyUnique(c: nat, k: nat, l: nat)
    requires Xor(c, k) == Xor(c, l)
    ensures k == l
  {
  }

  lemma StandardAttributeIsReadIff(txID: bytes, ip: bytes, port: int)
    requires |txID| == 12 && |ip| == 16
    ensures (DecodeAddress(Attr(XOR_MAPPED_ADDRESS, StandardValue(txID, ip, port)), COOKIE_BYTES) == Mapped(ip, port % 65536))
            <==> txID == Zeros(12)
  {
    DecodeOfValue(port, COOKIE_BYTES + txID, ip);
    MaskedTwiceIff(txID, ip);
  }

  /** The value of an address attribute for IPv6 as section 15.2 of RFC 5389 has it, masked with cookie and transaction id. */
  function StandardValue(txID: bytes, ip: bytes, port: int): (v: bytes)
    requires |txID| == 12 && |ip| == 16
    ensures |v| == 20
  {
    AddressValue(2, port, COOKIE_BYTES + txID, ip)
  }

  /**
   * The response of a server that follows section 15.2 of RFC 5389 for an IPv6 address is understood by this parser
   * exactly when the transaction id is all zeros.
   */
  lemma StandardIPv6IsReadIff(txID: bytes, ip: bytes, port: int, trailing: bytes)
    requires |txID| == 12 && |ip| == 16
    ensures (Parse(Message(BINDING_SUCCESS, txID, Attribute(XOR_MAPPED_ADDRESS, StandardValue(txID, ip, port))) + trailing)
             == Mapped(ip, port % 65536))
            <==> txID == Zeros(12)
  {
    var value := StandardValue(txID, ip, port);
    MessageFields(BINDING_SUCCESS, txID, Attribute(XOR_MAPPED_ADDRESS, value), trailing);
    AttributeIsFound(value);
    StandardAttributeIsReadIff(txID, ip, port);
  }

  lemma MaskedTwiceIff(txID: bytes, ip: bytes)
    requires |txID| == 12 && |ip| == 16
    ensures XorAll(XorAll(ip, COOKIE_BYTES + txID), RepoKey()) == ip <==> txID == Zeros(12)
  {
    var key := COOKIE_BYTES + txID;
    var twice := XorAll(XorAll(ip, key), RepoKey());
    if txID == Zeros(12) {
      XorAllCancels(ip, key);
    }
    if twice == ip {
      forall i | 0 <= i < 12 ensures txID[i] == 0 {
        var c := XorByte(ip[4 + i], key[4 + i]);
        assert twice[4 + i] == XorByte(c, 0);
        XorKeyUnique(c, txID[i], 0);
      }
    }
  }
}
