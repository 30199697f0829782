/**
 STUN Binding replies (sections 6, 15, 15.1 and 15.2 of RFC 5389), IPv4 only: the attribute parser,
 and the reply the in-process server builds.
 */
module Stun {
  import opened Basics

  type Bytes = seq<byte>

  const HEADER_LEN := 20
  const TXID_LEN := 12
  const ATTR_MAPPED: nat := 0x0001
  const ATTR_XOR: nat := 0x0020
  const MAGIC: Bytes := [0x21, 0x12, 0xA4, 0x42]
  const MAGIC_HIGH: nat := 0x2112
  const BINDING_OK: Bytes := [0x01, 0x01]

  // ----- Words and exclusive or

  function U16(hi: byte, lo: byte): (n: nat)
    ensures n < 0x1_0000
  {
    hi as nat * 256 + lo as nat
  }

  function Put16(n: nat): (s: Bytes)
    requires n < 0x1_0000
    ensures |s| == 2 && U16(s[0], s[1]) == n
  {
    [(n / 256) as byte, (n % 256) as byte]
  }

  /** Exclusive or, bit by bit. */
  function Xor(a: nat, b: nat): nat
    decreases a + b
  {
    if a == 0 && b == 0 then 0 else (a % 2 + b % 2) % 2 + 2 * Xor(a / 2, b / 2)
  }

  lemma XorBits(a: nat, b: nat)
    ensures Xor(a, b) % 2 == (a % 2 + b % 2) % 2 && Xor(a, b) / 2 == Xor(a / 2, b / 2)
  {
  }

  lemma {:induction false} XorInvolutive(a: nat, b: nat)
    ensures Xor(Xor(a, b), b) == a
    decreases a + b
  {
    if a != 0 || b != 0 {
      var x := Xor(a, b);
      XorInvolutive(a / 2, b / 2);
      XorBits(a, b);
      XorBits(x, b);
      SameBits(a, b, x, Xor(x, b));
    }
  }

  /** Twice the same bit gives the number back. */
  lemma SameBits(a: nat, b: nat, x: nat, y: nat)
    requires x % 2 == (a % 2 + b % 2) % 2 && y % 2 == (x % 2 + b % 2) % 2 && y / 2 == a / 2
    ensures y == a
  {
  }

  lemma {:induction false} XorBelow(a: nat, b: nat, n: nat)
    requires a < Pow2(n) && b < Pow2(n)
    ensures Xor(a, b) < Pow2(n)
  {
    if n > 0 && (a != 0 || b != 0) {
      XorBelow(a / 2, b / 2, n - 1);
    }
  }

  function XorByte(a: byte, b: byte): (r: byte)
    ensures r as nat == Xor(a as nat, b as nat)
  {
    assert Pow2(8) == 256;
    XorBelow(a as nat, b as nat, 8);
    Xor(a as nat, b as nat) as byte
  }

  function Xor16(a: nat, b: nat): (r: nat)
    requires a < 0x1_0000 && b < 0x1_0000
    ensures r == Xor(a, b) && r < 0x1_0000
  {
    assert Pow2(8) == 256 && Pow2(12) == 4096;
    assert Pow2(16) == 0x1_0000;
    XorBelow(a, b, 16);
    Xor(a, b)
  }

  /** Four address bytes under the magic cookie. */
  function Mask(ip: Bytes): (r: Bytes)
    requires |ip| == 4
    ensures |r| == 4
  {
    seq(4, i requires 0 <= i < 4 => XorByte(ip[i], MAGIC[i]))
  }

  lemma MaskInvolutive(ip: Bytes)
    requires |ip| == 4
    ensures Mask(Mask(ip)) == ip
  {
    forall i | 0 <= i < 4 ensures Mask(Mask(ip))[i] == ip[i] {
      XorInvolutive(ip[i] as nat, MAGIC[i] as nat);
    }
  }

  // ----- Addresses

  datatype Mapped = Mapped(ip: Bytes, port: nat)

  datatype Attr = Attr(typ: nat, val: Bytes)

  /** The IPv4 address in an attribute value; None if it is short or of another family. */
  function Address(val: Bytes, xor: bool): Option<Mapped> {
    if |val| < 8 || val[1] != 1 then None
    else
      var port := U16(val[2], val[3]);
      if xor then Some(Mapped(Mask(val[4..8]), Xor16(port, MAGIC_HIGH)))
      else Some(Mapped(val[4..8], port))
  }

  /** Which values hold an address, and which address. */
  lemma AddressExact(val: Bytes, xor: bool)
    ensures Address(val, xor).Some? <==> |val| >= 8 && val[1] == 1
    ensures Address(val, xor).Some? ==>
      var m := Address(val, xor).value;
      && |m.ip| == 4
      && (forall i :: 0 <= i < 4 ==> m.ip[i] as nat == if xor then Xor(val[4 + i] as nat, MAGIC[i] as nat) else val[4 + i] as nat)
      && m.port == if xor then Xor(256 * val[2] as nat + val[3] as nat, 256 * MAGIC[0] as nat + MAGIC[1] as nat)
                   else 256 * val[2] as nat + val[3] as nat
  {
  }

  method ParseAddr(val: Bytes, xor: bool) returns (r: Option<Mapped>)
    ensures r == Address(val, xor)
  {
    if |val| < 8 {
      return None;
    }
    var port := U16(val[2], val[3]);
    if xor {
      port := Xor16(port, MAGIC_HIGH);
    }
    if val[1] != 1 {
      return None;
    }
    var ip := new byte[4](i requires 0 <= i < 4 => val[4 + i]);
    assert ip[..] == val[4..8];
    if xor {
      for i := 0 to 4
        invariant forall k :: 0 <= k < i ==> ip[k] == Mask(val[4..8])[k]
        invariant forall k :: i <= k < 4 ==> ip[k] == val[4 + k]
      {
        ip[i] := XorByte(ip[i], MAGIC[i]);
      }
      assert ip[..] == Mask(val[4..8]);
    }
    return Some(Mapped(ip[..], port));
  }

  // ----- Attribute lists

  function Pad(n: nat): nat {
    (4 - n % 4) % 4
  }

  /** Padding is the least number that completes a multiple of four. */
  lemma PadExact(n: nat, k: nat)
    ensures (n + Pad(n)) % 4 == 0
    ensures (n + k) % 4 == 0 ==> Pad(n) <= k
  {
  }

  /** The attributes in a message body; a truncated attribute ends the list. */
  function Attributes(body: Bytes): seq<Attr> {
    if |body| < 4 then []
    else
      var n, rest := U16(body[2], body[3]), body[4..];
      if n > |rest| then []
      else
        [Attr(U16(body[0], body[1]), rest[..n])] +
        (if n + Pad(n) > |rest| then [] else Attributes(rest[n + Pad(n)..]))
  }

  function AddressOf(a: Attr, typ: nat): Option<Mapped> {
    if a.typ == typ then Address(a.val, typ == ATTR_XOR) else None
  }

  /** The last attribute of a type that holds an IPv4 address. */
  function LastAddress(attrs: seq<Attr>, typ: nat): Option<Mapped> {
    if attrs == [] then None
    else
      var a := AddressOf(attrs[|attrs| - 1], typ);
      if a.Some? then a else LastAddress(attrs[..|attrs| - 1], typ)
  }

  ghost predicate IsLastAt(attrs: seq<Attr>, typ: nat, i: nat, m: Mapped)
    requires i < |attrs|
  {
    AddressOf(attrs[i], typ) == Some(m) && forall j :: i < j < |attrs| ==> AddressOf(attrs[j], typ) == None
  }

  /** `LastAddress` is the last one indeed. */
  lemma {:induction false} LastAddressIsLast(attrs: seq<Attr>, typ: nat)
    ensures LastAddress(attrs, typ) == None ==> forall i :: 0 <= i < |attrs| ==> AddressOf(attrs[i], typ) == None
    ensures LastAddress(attrs, typ).Some? ==>
      exists i: nat :: i < |attrs| && IsLastAt(attrs, typ, i, LastAddress(attrs, typ).value)
  {
    if attrs != [] {
      var n := |attrs| - 1;
      var init := attrs[..n];
      match AddressOf(attrs[n], typ)
      case Some(m) =>
        assert IsLastAt(attrs, typ, n, m);
      case None =>
        LastAddressIsLast(init, typ);
        assert forall j :: 0 <= j < n ==> init[j] == attrs[j];
        if LastAddress(init, typ).Some? {
          var m := LastAddress(init, typ).value;
          var i: nat :| i < |init| && IsLastAt(init, typ, i, m);
          assert LastAddress(attrs, typ) == Some(m) && IsLastAt(attrs, typ, i, m);
        }
    }
  }

  datatype Result = Address(mapped: Mapped) | Short | BadType | BadCookie | BadTransaction | NoAddress

  /** XOR-MAPPED-ADDRESS is preferred to MAPPED-ADDRESS; the last of each counts. */
  function Select(attrs: seq<Attr>): Result {
    match LastAddress(attrs, ATTR_XOR)
    case Some(m) => Result.Address(m)
    case None =>
      match LastAddress(attrs, ATTR_MAPPED)
      case Some(m) => Result.Address(m)
      case None => NoAddress
  }

  ghost predicate HasLast(attrs: seq<Attr>, typ: nat, m: Mapped) {
    exists i: nat :: i < |attrs| && IsLastAt(attrs, typ, i, m)
  }

  ghost predicate HasNone(attrs: seq<Attr>, typ: nat) {
    forall i :: 0 <= i < |attrs| ==> AddressOf(attrs[i], typ) == None
  }

  /** An XOR-MAPPED-ADDRESS wins wherever it stands; an error means that no attribute holds an address. */
  lemma SelectExact(attrs: seq<Attr>)
    ensures match Select(attrs)
      case Address(m) => HasLast(attrs, ATTR_XOR, m) || (HasNone(attrs, ATTR_XOR) && HasLast(attrs, ATTR_MAPPED, m))
      case r => r == NoAddress && HasNone(attrs, ATTR_XOR) && HasNone(attrs, ATTR_MAPPED)
  {
    LastAddressIsLast(attrs, ATTR_XOR);
    LastAddressIsLast(attrs, ATTR_MAPPED);
  }

  /** The body as the header delimits it, or what there is of it. */
  function Body(msg: Bytes): Bytes
    requires |msg| >= HEADER_LEN
  {
    var n := U16(msg[2], msg[3]);
    if n > |msg| - HEADER_LEN then msg[HEADER_LEN..] else msg[HEADER_LEN..HEADER_LEN + n]
  }

  function Parse(msg: Bytes, txid: Bytes): Result {
    if |msg| < HEADER_LEN then Short
    else if msg[0..2] != BINDING_OK then BadType
    else if msg[4..8] != MAGIC then BadCookie
    else if msg[8..20] != txid then BadTransaction
    else Select(Attributes(Body(msg)))
  }

  /** A complete header of a success reply. */
  predicate HeaderOk(msg: Bytes) {
    |msg| >= 20 && msg[0] == 1 && msg[1] == 1 && msg[4..8] == [0x21, 0x12, 0xA4, 0x42]
  }

  /** The body starts behind the header and is as long as the header says, or as there are bytes. */
  lemma BodyExact(msg: Bytes)
    requires |msg| >= 20
    ensures Body(msg) <= msg[20..]
    ensures |Body(msg)| == Min(256 * msg[2] as nat + msg[3] as nat, |msg| - 20)
  {
  }

  /**
   Which replies are rejected, and why: a reply is searched for an address exactly when its header is
   complete and right and it answers the transaction that was asked for.
   */
  lemma ParseExact(msg: Bytes, txid: Bytes)
    ensures var r := Parse(msg, txid);
      && (r.Short? <==> |msg| < 20)
      && (r.BadType? <==> |msg| >= 20 && (msg[0] != 1 || msg[1] != 1))
      && (r.BadCookie? <==> |msg| >= 20 && msg[0] == 1 && msg[1] == 1 && msg[4..8] != [0x21, 0x12, 0xA4, 0x42])
      && (r.BadTransaction? <==> HeaderOk(msg) && msg[8..20] != txid)
      && (r.Address? || r.NoAddress? <==> HeaderOk(msg) && msg[8..20] == txid)
      && (HeaderOk(msg) && msg[8..20] == txid ==> r == Select(Attributes(Body(msg))))
  {
    if |msg| >= 20 {
      assert msg[0..2] == BINDING_OK <==> msg[0] == 1 && msg[1] == 1;
      SelectExact(Attributes(Body(msg)));
    }
  }

  /** The parser's loop agrees with the list specification on every byte string, and refuses a reply that
      is short, of another type or protocol, or to another request. */
  method ParseBinding(msg: Bytes, txid: Bytes) returns (r: Result)
    ensures r == Parse(msg, txid)
    ensures r.Address? || r.NoAddress? <==> HeaderOk(msg) && msg[8..20] == txid
    ensures r.BadTransaction? <==> HeaderOk(msg) && msg[8..20] != txid
  {
    ParseExact(msg, txid);
    if |msg| < HEADER_LEN {
      return Short;
    }
    if msg[0..2] != BINDING_OK {
      return BadType;
    }
    if msg[4..8] != MAGIC {
      return BadCookie;
    }
    if msg[8..20] != txid {
      return BadTransaction;
    }
    var body := Body(msg);
    var mapped, xor := FoldAttributes(body);
    match xor
    case Some(m) => r := Result.Address(m);
    case None =>
      match mapped
      case Some(m) => r := Result.Address(m);
      case None => r := NoAddress;
  }

  lemma LastAddressSnoc(done: seq<Attr>, a: Attr, typ: nat)
    ensures LastAddress(done + [a], typ) == if AddressOf(a, typ).Some? then AddressOf(a, typ) else LastAddress(done, typ)
  {
    assert (done + [a])[..|done|] == done;
  }

  /** Takes one attribute into account. */
  method Consider(a: Attr, mapped: Option<Mapped>, xor: Option<Mapped>, ghost done: seq<Attr>)
    returns (mapped': Option<Mapped>, xor': Option<Mapped>)
    requires mapped == LastAddress(done, ATTR_MAPPED) && xor == LastAddress(done, ATTR_XOR)
    ensures mapped' == LastAddress(done + [a], ATTR_MAPPED) && xor' == LastAddress(done + [a], ATTR_XOR)
  {
    LastAddressSnoc(done, a, ATTR_MAPPED);
    LastAddressSnoc(done, a, ATTR_XOR);
    mapped', xor' := mapped, xor;
    if a.typ == ATTR_MAPPED {
      var m := ParseAddr(a.val, false);
      if m.Some? {
        mapped' := m;
      }
    } else if a.typ == ATTR_XOR {
      var m := ParseAddr(a.val, true);
      if m.Some? {
        xor' := m;
      }
    }
  }

  method FoldAttributes(body0: Bytes) returns (mapped: Option<Mapped>, xor: Option<Mapped>)
    ensures mapped == LastAddress(Attributes(body0), ATTR_MAPPED)
    ensures xor == LastAddress(Attributes(body0), ATTR_XOR)
  {
    var body := body0;
    mapped, xor := None, None;
    ghost var done: seq<Attr> := [];
    while |body| >= 4
      invariant done + Attributes(body) == Attributes(body0)
      invariant mapped == LastAddress(done, ATTR_MAPPED) && xor == LastAddress(done, ATTR_XOR)
      decreases |body|
    {
      var typ, n := U16(body[0], body[1]), U16(body[2], body[3]);
      ghost var all := Attributes(body);
      body := body[4..];
      if n > |body| {
        body := [];
        break;
      }
      var attr, skip := Attr(typ, body[..n]), n + Pad(n);
      mapped, xor := Consider(attr, mapped, xor, done);
      ghost var later := if skip > |body| then [] else Attributes(body[skip..]);
      assert all == [attr] + later;
      AppendAssoc(done, [attr], later);
      done := done + [attr];
      if skip > |body| {
        body := [];
        break;
      }
      body := body[skip..];
    }
    assert done + [] == done;
  }

  // ----- Encoding

  /** An attribute with its padding, whose content is free. */
  datatype Padded = Padded(attr: Attr, pad: Bytes) {
    predicate Ok() {
      attr.typ < 0x1_0000 && |attr.val| < 0x1_0000 && |pad| == Pad(|attr.val|)
    }
  }

  function EncodeAttr(p: Padded): Bytes
    requires p.Ok()
  {
    Put16(p.attr.typ) + Put16(|p.attr.val|) + p.attr.val + p.pad
  }

  function EncodeAttrs(ps: seq<Padded>): Bytes
    requires forall p :: p in ps ==> p.Ok()
  {
    if ps == [] then [] else EncodeAttr(ps[0]) + EncodeAttrs(ps[1..])
  }

  function Plain(ps: seq<Padded>): seq<Attr> {
    seq(|ps|, i requires 0 <= i < |ps| => ps[i].attr)
  }

  function Frame(body: Bytes, txid: Bytes): Bytes
    requires |body| < 0x1_0000
  {
    BINDING_OK + Put16(|body|) + MAGIC + txid + body
  }

  /** The first attribute of a body of which the parts are known. */
  lemma AttributesHead(body: Bytes, typ: nat, val: Bytes, pad: Bytes, rest: Bytes)
    requires |body| >= 4 && U16(body[0], body[1]) == typ && U16(body[2], body[3]) == |val|
    requires |pad| == Pad(|val|) && body[4..] == val + pad + rest
    ensures Attributes(body) == [Attr(typ, val)] + Attributes(rest)
  {
    var tail := body[4..];
    assert tail[..|val|] == val;
    assert tail[|val| + |pad|..] == rest;
  }

  /** Two fields of two bytes each in front of a list. */
  lemma TwoFields(h: Bytes, l: Bytes, tail: Bytes)
    requires |h| == 2 && |l| == 2
    ensures var s := h + l + tail;
      s[0] == h[0] && s[1] == h[1] && s[2] == l[0] && s[3] == l[1] && s[4..] == tail
  {
  }

  lemma AttributesStep(p: Padded, rest: Bytes)
    requires p.Ok()
    ensures Attributes(EncodeAttr(p) + rest) == [p.attr] + Attributes(rest)
  {
    var h, l, tail := Put16(p.attr.typ), Put16(|p.attr.val|), p.attr.val + p.pad + rest;
    AppendAssoc(h + l, p.attr.val, p.pad);
    AppendAssoc(h + l, p.attr.val + p.pad, rest);
    TwoFields(h, l, tail);
    AttributesHead(h + l + tail, p.attr.typ, p.attr.val, p.pad, rest);
  }

  lemma PlainCons(ps: seq<Padded>)
    requires ps != []
    ensures Plain(ps) == [ps[0].attr] + Plain(ps[1..])
  {
  }

  /** Decoding undoes encoding, whatever the padding holds. */
  lemma {:induction false} AttributesRoundTrip(ps: seq<Padded>)
    requires forall p :: p in ps ==> p.Ok()
    ensures Attributes(EncodeAttrs(ps)) == Plain(ps)
  {
    if ps != [] {
      assert ps[0] in ps;
      AttributesStep(ps[0], EncodeAttrs(ps[1..]));
      AttributesRoundTrip(ps[1..]);
      PlainCons(ps);
    }
  }

  /** What cannot be a complete attribute: too short for a header, or for the value it announces. */
  predicate Truncated(rest: Bytes) {
    |rest| < 4 || U16(rest[2], rest[3]) > |rest| - 4
  }

  /** Decoding stops at a truncated attribute, and keeps those before it. */
  lemma {:induction false} TruncatedEnds(ps: seq<Padded>, rest: Bytes)
    requires (forall p :: p in ps ==> p.Ok()) && Truncated(rest)
    ensures Attributes(EncodeAttrs(ps) + rest) == Plain(ps)
  {
    if ps == [] {
      assert EncodeAttrs(ps) + rest == rest;
    } else {
      assert ps[0] in ps;
      AppendAssoc(EncodeAttr(ps[0]), EncodeAttrs(ps[1..]), rest);
      AttributesStep(ps[0], EncodeAttrs(ps[1..]) + rest);
      TruncatedEnds(ps[1..], rest);
      PlainCons(ps);
    }
  }

  /** A last attribute counts even if its padding is missing. */
  lemma UnpaddedCounts(a: Attr, pad: Bytes)
    requires a.typ < 0x1_0000 && |a.val| < 0x1_0000 && |pad| < Pad(|a.val|)
    ensures Attributes(Put16(a.typ) + Put16(|a.val|) + (a.val + pad)) == [a]
  {
    var h, l, tail := Put16(a.typ), Put16(|a.val|), a.val + pad;
    TwoFields(h, l, tail);
    assert tail[..|a.val|] == a.val;
  }

  lemma FrameShape(body: Bytes, txid: Bytes, extra: Bytes)
    requires |body| < 0x1_0000 && |txid| == TXID_LEN
    ensures var msg := Frame(body, txid) + extra;
      && |msg| >= HEADER_LEN && msg[0..2] == BINDING_OK && msg[4..8] == MAGIC && msg[8..20] == txid
      && Body(msg) == body
  {
    var msg := Frame(body, txid) + extra;
    assert msg[2] == Put16(|body|)[0] && msg[3] == Put16(|body|)[1];
    assert msg[HEADER_LEN..HEADER_LEN + |body|] == body;
  }

  /**
   A reply made of any list of attributes is parsed to the last IPv4 XOR-MAPPED-ADDRESS, else the last
   IPv4 MAPPED-ADDRESS, else an error; bytes after the body are ignored.
   */
  lemma ParseAgreesWithList(ps: seq<Padded>, txid: Bytes, extra: Bytes)
    requires (forall p :: p in ps ==> p.Ok()) && |EncodeAttrs(ps)| < 0x1_0000 && |txid| == TXID_LEN
    ensures Parse(Frame(EncodeAttrs(ps), txid) + extra, txid) == Select(Plain(ps))
  {
    FrameShape(EncodeAttrs(ps), txid, extra);
    AttributesRoundTrip(ps);
  }

  // ----- The server's reply

  /** The value of an address attribute. */
  function AddressValue(port: nat, ip: Bytes): (v: Bytes)
    requires port < 0x1_0000 && |ip| == 4
    ensures |v| == 8
  {
    [0, 1] + Put16(port) + ip
  }

  function AddressAttr(typ: nat, port: nat, ip: Bytes): Padded
    requires typ < 0x1_0000 && port < 0x1_0000 && |ip| == 4
  {
    Padded(Attr(typ, AddressValue(port, ip)), [])
  }

  lemma AddressAttrShape(typ: nat, port: nat, ip: Bytes)
    requires typ < 0x1_0000 && port < 0x1_0000 && |ip| == 4
    ensures AddressAttr(typ, port, ip).Ok()
    ensures EncodeAttr(AddressAttr(typ, port, ip)) == Put16(typ) + Put16(8) + AddressValue(port, ip) + []
    ensures |EncodeAttr(AddressAttr(typ, port, ip))| == 12
  {
  }

  /** A reply with one address attribute. */
  function AddressReply(typ: nat, port: nat, ip: Bytes, txid: Bytes): Bytes
    requires typ < 0x1_0000 && port < 0x1_0000 && |ip| == 4
  {
    AddressAttrShape(typ, port, ip);
    Frame(EncodeAttr(AddressAttr(typ, port, ip)), txid)
  }

  /** The server's reply to a client at this address. */
  function Reply(ip: Bytes, port: nat, txid: Bytes): Bytes
    requires |ip| == 4 && port < 0x1_0000 && |txid| == TXID_LEN
  {
    AddressReply(ATTR_XOR, Xor16(port, MAGIC_HIGH), Mask(ip), txid)
  }

  /** Writes bytes behind the part of a buffer that is already filled. */
  method PutAt(buf: array<byte>, ghost filled: Bytes, at: nat, s: Bytes)
    requires at == |filled| && at + |s| <= buf.Length && buf[..at] == filled
    modifies buf
    ensures buf[..at + |s|] == filled + s
  {
    for i := 0 to |s|
      invariant buf[..at + i] == filled + s[..i]
    {
      buf[at + i] := s[i];
    }
  }

  /** The buffer the server fills: a 12-byte attribute behind a 20-byte header. */
  method BuildReply(ip: Bytes, port: nat, txid: Bytes) returns (resp: array<byte>)
    requires |ip| == 4 && port < 0x1_0000 && |txid| == TXID_LEN
    ensures fresh(resp) && resp[..] == Reply(ip, port, txid)
  {
    var attr := new byte[12](_ => 0);
    FillAttr(attr, Xor16(port, MAGIC_HIGH), Mask(ip));
    AddressAttrShape(ATTR_XOR, Xor16(port, MAGIC_HIGH), Mask(ip));
    resp := new byte[HEADER_LEN + 12](_ => 0);
    FillFrame(resp, attr[..], txid);
  }

  method FillAttr(attr: array<byte>, xport: nat, xip: Bytes)
    requires attr.Length == 12 && xport < 0x1_0000 && |xip| == 4
    modifies attr
    ensures attr[..] == Put16(ATTR_XOR) + Put16(8) + AddressValue(xport, xip) + []
  {
    var typ, len, port := Put16(ATTR_XOR), Put16(8), Put16(xport);
    PutAt(attr, [], 0, typ);
    PutAt(attr, typ, 2, len);
    PutAt(attr, typ + len, 4, [0, 1]);
    PutAt(attr, typ + len + [0, 1], 6, port);
    PutAt(attr, typ + len + [0, 1] + port, 8, xip);
    assert attr[..] == attr[..12];
    assert typ + len + [0, 1] + port + xip == typ + len + AddressValue(xport, xip) + [];
  }

  method FillFrame(resp: array<byte>, body: Bytes, txid: Bytes)
    requires |body| < 0x1_0000 && |txid| == TXID_LEN && resp.Length == HEADER_LEN + |body|
    modifies resp
    ensures resp[..] == Frame(body, txid)
  {
    ghost var f1 := BINDING_OK + Put16(|body|);
    ghost var f2 := f1 + MAGIC;
    PutAt(resp, [], 0, BINDING_OK);
    PutAt(resp, BINDING_OK, 2, Put16(|body|));
    PutAt(resp, f1, 4, MAGIC);
    PutAt(resp, f2, 8, txid);
    PutAt(resp, f2 + txid, HEADER_LEN, body);
    assert resp[..] == resp[..HEADER_LEN + |body|];
  }

  /** A reply with one attribute. */
  lemma LoneAttribute(p: Padded, txid: Bytes)
    requires p.Ok() && |EncodeAttr(p)| < 0x1_0000 && |txid| == TXID_LEN
    ensures Parse(Frame(EncodeAttr(p), txid), txid) == Select([p.attr])
  {
    assert EncodeAttrs([p]) == EncodeAttr(p);
    ParseAgreesWithList([p], txid, []);
    assert Frame(EncodeAttr(p), txid) + [] == Frame(EncodeAttr(p), txid);
    assert Plain([p]) == [p.attr];
  }

  lemma SelectLone(a: Attr, typ: nat)
    requires a.typ == typ && (typ == ATTR_XOR || typ == ATTR_MAPPED) && Address(a.val, typ == ATTR_XOR).Some?
    ensures Select([a]) == Result.Address(Address(a.val, typ == ATTR_XOR).value)
  {
    assert [a][..0] == [];
    assert LastAddress([a], typ) == AddressOf(a, typ);
    assert typ == ATTR_MAPPED ==> LastAddress([a], ATTR_XOR) == LastAddress([], ATTR_XOR);
  }

  lemma AddressValueRead(port: nat, ip: Bytes)
    requires port < 0x1_0000 && |ip| == 4
    ensures var v := AddressValue(port, ip); v[1] == 1 && U16(v[2], v[3]) == port && v[4..8] == ip
  {
    var v, p := AddressValue(port, ip), Put16(port);
    assert v[2] == p[0] && v[3] == p[1];
  }

  /** An address attribute on its own is read as the address it holds. */
  lemma LoneAddress(p: Padded, txid: Bytes, addr: Mapped)
    requires p.Ok() && |EncodeAttr(p)| < 0x1_0000 && |txid| == TXID_LEN
    requires p.attr.typ == ATTR_XOR || p.attr.typ == ATTR_MAPPED
    requires Address(p.attr.val, p.attr.typ == ATTR_XOR) == Some(addr)
    ensures Parse(Frame(EncodeAttr(p), txid), txid) == Result.Address(addr)
  {
    LoneAttribute(p, txid);
    SelectLone(p.attr, p.attr.typ);
  }

  /** A reply to another request is refused. */
  lemma OtherTransaction(ip: Bytes, port: nat, txid: Bytes, asked: Bytes)
    requires |ip| == 4 && port < 0x1_0000 && |txid| == TXID_LEN && asked != txid
    ensures Parse(Reply(ip, port, txid), asked) == BadTransaction
  {
    AddressAttrShape(ATTR_XOR, Xor16(port, MAGIC_HIGH), Mask(ip));
    var body := EncodeAttr(AddressAttr(ATTR_XOR, Xor16(port, MAGIC_HIGH), Mask(ip)));
    FrameShape(body, txid, []);
    AppendEmpty(Frame(body, txid));
  }

  /** A plain MAPPED-ADDRESS on its own is read as it stands. */
  lemma MappedRoundTrip(ip: Bytes, port: nat, txid: Bytes)
    requires |ip| == 4 && port < 0x1_0000 && |txid| == TXID_LEN
    ensures Parse(AddressReply(ATTR_MAPPED, port, ip, txid), txid) == Result.Address(Mapped(ip, port))
  {
    AddressAttrShape(ATTR_MAPPED, port, ip);
    AddressValueRead(port, ip);
    LoneAddress(AddressAttr(ATTR_MAPPED, port, ip), txid, Mapped(ip, port));
  }

  /** An XOR-MAPPED-ADDRESS on its own is read without its mask. */
  lemma MaskedRead(port: nat, ip: Bytes, txid: Bytes)
    requires |ip| == 4 && port < 0x1_0000 && |txid| == TXID_LEN
    ensures Parse(AddressReply(ATTR_XOR, port, ip, txid), txid)
         == Result.Address(Mapped(Mask(ip), Xor16(port, MAGIC_HIGH)))
  {
    AddressAttrShape(ATTR_XOR, port, ip);
    AddressValueRead(port, ip);
    LoneAddress(AddressAttr(ATTR_XOR, port, ip), txid, Mapped(Mask(ip), Xor16(port, MAGIC_HIGH)));
  }

  /** The client recovers the address the server saw, for every address, port and transaction. */
  lemma ReplyRoundTrip(ip: Bytes, port: nat, txid: Bytes)
    requires |ip| == 4 && port < 0x1_0000 && |txid| == TXID_LEN
    ensures Parse(Reply(ip, port, txid), txid) == Result.Address(Mapped(ip, port))
  {
    MaskedRead(Xor16(port, MAGIC_HIGH), Mask(ip), txid);
    MaskInvolutive(ip);
    XorInvolutive(port, MAGIC_HIGH);
  }

  // ----- The reply byte by byte

  lemma FrameBytes(body: Bytes, txid: Bytes)
    requires |body| == 12 && |txid| == TXID_LEN
    ensures var r := Frame(body, txid);
      && |r| == 32 && r[0] == 1 && r[1] == 1 && r[2] == 0 && r[3] == 12 && r[4..8] == MAGIC && r[8..20] == txid
      && r[20..] == body
  {
    var head := BINDING_OK + Put16(12) + MAGIC;
    assert head[2] == Put16(12)[0] && head[3] == Put16(12)[1] && head[4..8] == MAGIC;
    var r := head + txid + body;
    assert r[..8] == head && r[4..8] == head[4..8];
    assert r[20..] == body;
  }

  lemma AttrBytes(p: Padded)
    requires p.Ok() && p.attr.typ == ATTR_XOR && |p.attr.val| == 8
    ensures var b := EncodeAttr(p);
      |b| == 12 && b[0] == 0 && b[1] == 0x20 && b[2] == 0 && b[3] == 8 && b[4..] == p.attr.val
  {
    var h, l, v := Put16(ATTR_XOR), Put16(8), p.attr.val;
    assert p.pad == [];
    AppendEmpty(h + l + v);
    TwoFields(h, l, v);
    Put16Bytes(ATTR_XOR);
    Put16Bytes(8);
  }

  lemma Put16Bytes(n: nat)
    requires n < 256
    ensures Put16(n)[0] == 0 && Put16(n)[1] as nat == n
  {
  }

  lemma ValueBytes(xport: nat, xip: Bytes)
    requires xport < 0x1_0000 && |xip| == 4
    ensures var v := AddressValue(xport, xip);
      && v[0] == 0 && v[1] == 1 && 256 * v[2] as nat + v[3] as nat == xport && v[4..] == xip
  {
    AddressValueRead(xport, xip);
    var v := AddressValue(xport, xip);
    assert v[4..] == v[4..8];
  }

  /** The server's reply on the wire, most significant byte first; port and address under the cookie. */
  lemma ReplyBytes(ip: Bytes, port: nat, txid: Bytes)
    requires |ip| == 4 && port < 0x1_0000 && |txid| == TXID_LEN
    ensures var r := Reply(ip, port, txid);
      && |r| == 32 && r[0] == 1 && r[1] == 1 && r[2] == 0 && r[3] == 12 && r[4..8] == MAGIC && r[8..20] == txid
      && r[20] == 0 && r[21] == 0x20 && r[22] == 0 && r[23] == 8 && r[24] == 0 && r[25] == 1
      && 256 * r[26] as nat + r[27] as nat == Xor(port, 256 * MAGIC[0] as nat + MAGIC[1] as nat)
      && (forall i :: 0 <= i < 4 ==> r[28 + i] as nat == Xor(ip[i] as nat, MAGIC[i] as nat))
  {
    var xport, xip := Xor16(port, MAGIC_HIGH), Mask(ip);
    ValueBytes(xport, xip);
    AddressReplyBytes(xport, xip, txid);
    ReplyTail(Reply(ip, port, txid), AddressValue(xport, xip), xip);
  }

  lemma AddressReplyBytes(xport: nat, xip: Bytes, txid: Bytes)
    requires xport < 0x1_0000 && |xip| == 4 && |txid| == TXID_LEN
    ensures var r := AddressReply(ATTR_XOR, xport, xip, txid);
      && |r| == 32 && r[0] == 1 && r[1] == 1 && r[2] == 0 && r[3] == 12 && r[4..8] == MAGIC && r[8..20] == txid
      && r[20] == 0 && r[21] == 0x20 && r[22] == 0 && r[23] == 8 && r[24..] == AddressValue(xport, xip)
  {
    var p := AddressAttr(ATTR_XOR, xport, xip);
    AddressAttrShape(ATTR_XOR, xport, xip);
    LoneAttrBytes(p, txid);
  }

  lemma LoneAttrBytes(p: Padded, txid: Bytes)
    requires p.Ok() && p.attr.typ == ATTR_XOR && |p.attr.val| == 8 && |txid| == TXID_LEN && |EncodeAttr(p)| < 0x1_0000
    ensures var r := Frame(EncodeAttr(p), txid);
      && |r| == 32 && r[0] == 1 && r[1] == 1 && r[2] == 0 && r[3] == 12 && r[4..8] == MAGIC && r[8..20] == txid
      && r[20] == 0 && r[21] == 0x20 && r[22] == 0 && r[23] == 8 && r[24..] == p.attr.val
  {
    var b := EncodeAttr(p);
    AttrBytes(p);
    FrameBytes(b, txid);
    var r := Frame(b, txid);
    assert r[20..][0] == r[20] && r[20..][1] == r[21] && r[20..][2] == r[22] && r[20..][3] == r[23];
    assert r[20..][4..] == r[24..];
  }

  lemma ReplyTail(r: Bytes, v: Bytes, xip: Bytes)
    requires |r| == 32 && |v| == 8 && |xip| == 4 && r[24..] == v && v[4..] == xip
    ensures r[24] == v[0] && r[25] == v[1] && r[26] == v[2] && r[27] == v[3]
    ensures forall i :: 0 <= i < 4 ==> r[28 + i] == xip[i]
  {
    assert forall i :: 0 <= i < 8 ==> r[24..][i] == r[24 + i];
    assert forall i :: 0 <= i < 4 ==> v[4..][i] == v[4 + i];
  }
}
