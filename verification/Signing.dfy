/**
 The signed payload, and signatures over abstract hash, hex and signature functions. What a
 signature covers must survive validation, because a node verifies before it validates and forwards
 the validated message.
 */
module Signing {
  import opened Basics
  import opened Messages

  // ----- Payload

  function Digit(d: nat): char
    requires d < 10
  {
    ('0' as int + d) as char
  }

  function FormatNat(n: nat): string {
    if n < 10 then [Digit(n)] else FormatNat(n / 10) + [Digit(n % 10)]
  }

  function FormatInt(n: int): string {
    if n < 0 then "-" + FormatNat(-n) else FormatNat(n)
  }

  function Join(parts: seq<string>): string {
    if parts == [] then ""
    else if |parts| == 1 then parts[0]
    else parts[0] + "\n" + Join(parts[1..])
  }

  function Flag(m: Message): string {
    if m.action then "1" else "0"
  }

  function SignBytes(m: Message): string {
    Join([m.typ, m.id, FormatInt(m.timestamp), m.peerID, m.sender, m.publicKey, m.nickname,
          m.channel, m.to, m.text, Flag(m)])
  }

  /** The signed fields in front of the text. */
  function Head(m: Message): seq<string> {
    [m.typ, m.id, FormatInt(m.timestamp), m.peerID, m.sender, m.publicKey, m.nickname, m.channel, m.to]
  }

  predicate OneLine(s: string) {
    '\n' !in s
  }

  /** No signed field other than the text (and the generated ones) holds a line break. */
  predicate OneLineFields(m: Message) {
    && OneLine(m.typ) && OneLine(m.id) && OneLine(m.peerID) && OneLine(m.sender)
    && OneLine(m.publicKey) && OneLine(m.nickname) && OneLine(m.channel) && OneLine(m.to)
  }

  /** No signed field holds a line break. */
  predicate OneLineThroughout(m: Message) {
    OneLineFields(m) && OneLine(m.text)
  }

  lemma {:induction false} FormatNatOneLine(n: nat)
    ensures OneLine(FormatNat(n)) && FormatNat(n) != "" && forall c :: c in FormatNat(n) ==> '0' <= c <= '9'
  {
    if n >= 10 { FormatNatOneLine(n / 10); }
  }

  lemma {:induction false} FormatNatInjective(a: nat, b: nat)
    requires FormatNat(a) == FormatNat(b)
    ensures a == b
  {
    FormatNatOneLine(a / 10);
    FormatNatOneLine(b / 10);
    var s, t := FormatNat(a), FormatNat(b);
    assert s[|s| - 1] == Digit(a % 10) && t[|t| - 1] == Digit(b % 10);
    if a >= 10 && b >= 10 {
      assert s[..|s| - 1] == FormatNat(a / 10) && t[..|t| - 1] == FormatNat(b / 10);
      FormatNatInjective(a / 10, b / 10);
    }
  }

  lemma FormatIntInjective(a: int, b: int)
    ensures FormatInt(a) == FormatInt(b) ==> a == b
    ensures OneLine(FormatInt(a))
  {
    FormatNatOneLine(if a < 0 then -a else a);
    FormatNatOneLine(if b < 0 then -b else b);
    if FormatInt(a) == FormatInt(b) {
      assert a >= 0 ==> FormatInt(a)[0] in FormatNat(a);
      assert b >= 0 ==> FormatInt(b)[0] in FormatNat(b);
      assert a < 0 <==> FormatInt(a)[0] == '-';
      assert b < 0 <==> FormatInt(b)[0] == '-';
      if a < 0 {
        assert FormatInt(a)[1..] == FormatNat(-a) && FormatInt(b)[1..] == FormatNat(-b);
        FormatNatInjective(-a, -b);
      } else {
        FormatNatInjective(a, b);
      }
    }
  }

  /** A field without line break is what stands before the first line break. */
  lemma {:induction false} FirstLine(a: string, x: string, b: string, y: string)
    requires OneLine(a) && OneLine(b) && a + "\n" + x == b + "\n" + y
    ensures a == b && x == y
  {
    var s, t := a + "\n" + x, b + "\n" + y;
    assert s[|a|] == '\n' && t[|b|] == '\n';
    assert forall i :: 0 <= i < |a| ==> s[i] == a[i] && a[i] != '\n';
    assert forall i :: 0 <= i < |b| ==> t[i] == b[i] && b[i] != '\n';
    assert s[..|a|] == a && t[..|b|] == b;
    assert s[|a| + 1..] == x && t[|b| + 1..] == y;
  }

  lemma {:induction false} JoinInjective(p: seq<string>, q: seq<string>, x: string, y: string)
    requires |p| == |q| && (forall f :: f in p ==> OneLine(f)) && (forall f :: f in q ==> OneLine(f))
    requires Join(p + [x]) == Join(q + [y])
    ensures p == q && x == y
  {
    if p == [] {
      assert p + [x] == [x] && q + [y] == [y];
    } else {
      assert (p + [x])[1..] == p[1..] + [x] && (q + [y])[1..] == q[1..] + [y];
      assert p[0] in p && q[0] in q;
      FirstLine(p[0], Join(p[1..] + [x]), q[0], Join(q[1..] + [y]));
      JoinInjective(p[1..], q[1..], x, y);
      assert p == [p[0]] + p[1..] && q == [q[0]] + q[1..];
    }
  }

  lemma {:induction false} JoinLast(p: seq<string>, x: string, y: string)
    ensures Join(p + [x, y]) == Join(p + [x + "\n" + y])
  {
    if p == [] {
      assert p + [x, y] == [x, y] && p + [x + "\n" + y] == [x + "\n" + y];
      assert [x, y][1..] == [y];
    } else {
      assert (p + [x, y])[1..] == p[1..] + [x, y];
      assert (p + [x + "\n" + y])[1..] == p[1..] + [x + "\n" + y];
      JoinLast(p[1..], x, y);
    }
  }

  lemma SignBytesShape(m: Message)
    ensures SignBytes(m) == Join(Head(m) + [m.text, Flag(m)])
  {
    assert Head(m) + [m.text, Flag(m)]
        == [m.typ, m.id, FormatInt(m.timestamp), m.peerID, m.sender, m.publicKey, m.nickname,
            m.channel, m.to, m.text, Flag(m)];
  }

  /** The eleven signed fields. */
  predicate SameSignedFields(a: Message, b: Message) {
    && a.typ == b.typ && a.id == b.id && a.timestamp == b.timestamp && a.peerID == b.peerID
    && a.sender == b.sender && a.publicKey == b.publicKey && a.nickname == b.nickname
    && a.channel == b.channel && a.to == b.to && a.text == b.text && a.action == b.action
  }

  /** The payload is unambiguous, even though the text may contain line breaks. */
  lemma SignBytesUnambiguous(a: Message, b: Message)
    requires OneLineFields(a) && OneLineFields(b)
    ensures SignBytes(a) == SignBytes(b) <==> SameSignedFields(a, b)
  {
    if SignBytes(a) == SignBytes(b) {
      var u, v := Flag(a), Flag(b);
      FormatIntInjective(a.timestamp, b.timestamp);
      FormatIntInjective(b.timestamp, a.timestamp);
      JoinLast(Head(a), a.text, u);
      JoinLast(Head(b), b.text, v);
      SignBytesShape(a);
      SignBytesShape(b);
      JoinInjective(Head(a), Head(b), a.text + "\n" + u, b.text + "\n" + v);
      var s, t := a.text + "\n" + u, b.text + "\n" + v;
      assert s[..|s| - 2] == a.text && t[..|t| - 2] == b.text;
      assert s[|s| - 1] == u[0] && t[|t| - 1] == v[0];
      assert Head(a)[0] == Head(b)[0] && Head(a)[1] == Head(b)[1] && Head(a)[2] == Head(b)[2];
      assert Head(a)[3] == Head(b)[3] && Head(a)[4] == Head(b)[4] && Head(a)[5] == Head(b)[5];
      assert Head(a)[6] == Head(b)[6] && Head(a)[7] == Head(b)[7] && Head(a)[8] == Head(b)[8];
    }
  }

  // ----- The payload line by line

  /** The lines of a text. */
  function Lines(s: string): (ls: seq<string>)
    ensures ls != []
  {
    if s == [] then [""]
    else
      var rest := Lines(s[1..]);
      if s[0] == '\n' then [""] + rest else [[s[0]] + rest[0]] + rest[1..]
  }

  lemma {:induction false} LinesOfLine(s: string)
    requires OneLine(s)
    ensures Lines(s) == [s]
  {
    if s != [] {
      LinesOfLine(s[1..]);
      assert [s[0]] + s[1..] == s;
    }
  }

  lemma {:induction false} LinesCons(a: string, s: string)
    requires OneLine(a)
    ensures Lines(a + "\n" + s) == [a] + Lines(s)
  {
    if a == [] {
      assert (a + "\n" + s)[1..] == s;
    } else {
      var t := a[1..] + "\n" + s;
      assert (a + "\n" + s)[1..] == t;
      LinesCons(a[1..], s);
      assert Lines(t)[0] == a[1..] && Lines(t)[1..] == Lines(s);
      assert [a[0]] + a[1..] == a;
    }
  }

  lemma {:induction false} LinesOfJoin(parts: seq<string>)
    requires parts != [] && forall f :: f in parts ==> OneLine(f)
    ensures Lines(Join(parts)) == parts
  {
    assert parts[0] in parts;
    if |parts| == 1 {
      LinesOfLine(parts[0]);
      assert parts == [parts[0]];
    } else {
      LinesOfJoin(parts[1..]);
      LinesCons(parts[0], Join(parts[1..]));
      assert [parts[0]] + parts[1..] == parts;
    }
  }

  /** The number that a string of digits denotes. */
  function Denotes(s: string): int {
    if s == [] then 0 else 10 * Denotes(s[..|s| - 1]) + (s[|s| - 1] as int - '0' as int)
  }

  lemma {:induction false} FormatNatDenotes(n: nat)
    ensures Denotes(FormatNat(n)) == n && (n > 0 ==> FormatNat(n)[0] != '0')
  {
    if n < 10 {
      assert FormatNat(n)[..0] == [];
    } else {
      FormatNatDenotes(n / 10);
      FormatNatOneLine(n / 10);
      var s := FormatNat(n);
      assert s[..|s| - 1] == FormatNat(n / 10) && s[0] == FormatNat(n / 10)[0];
    }
  }

  /** The eleven lines of a payload without further line breaks, in order. */
  lemma PayloadLines(m: Message)
    requires OneLineThroughout(m)
    ensures Lines(SignBytes(m)) ==
      [m.typ, m.id, FormatInt(m.timestamp), m.peerID, m.sender, m.publicKey, m.nickname, m.channel, m.to, m.text,
       if m.action then "1" else "0"]
  {
    var parts := [m.typ, m.id, FormatInt(m.timestamp), m.peerID, m.sender, m.publicKey, m.nickname, m.channel, m.to,
                  m.text, Flag(m)];
    SignBytesShape(m);
    assert Head(m) + [m.text, Flag(m)] == parts;
    OneLineParts(m);
    LinesOfJoin(parts);
  }

  // ----- When a payload says which fields were signed

  function Breaks(s: string): nat {
    multiset(s)['\n']
  }

  /** A join has one line break between two parts, and more exactly if a part has one itself. */
  lemma {:induction false} JoinBreaks(p: seq<string>)
    requires p != []
    ensures Breaks(Join(p)) >= |p| - 1
    ensures Breaks(Join(p)) == |p| - 1 <==> forall f :: f in p ==> OneLine(f)
  {
    if |p| == 1 {
      assert p == [p[0]];
    } else {
      JoinBreaks(p[1..]);
      assert p == [p[0]] + p[1..];
      assert Breaks(Join(p)) == Breaks(p[0]) + 1 + Breaks(Join(p[1..]));
      assert OneLine(p[0]) <==> Breaks(p[0]) == 0;
      assert (forall f :: f in p ==> OneLine(f)) <==> OneLine(p[0]) && forall f :: f in p[1..] ==> OneLine(f);
    }
  }

  lemma OneLineCount(m: Message)
    ensures OneLineThroughout(m) <==> Breaks(SignBytes(m)) == 10
  {
    var parts := Head(m) + [m.text, Flag(m)];
    SignBytesShape(m);
    JoinBreaks(parts);
    OneLineParts(m);
  }

  lemma OneLineParts(m: Message)
    ensures (forall f :: f in Head(m) + [m.text, Flag(m)] ==> OneLine(f)) <==> OneLineThroughout(m)
  {
    var h := Head(m);
    FormatIntInjective(m.timestamp, m.timestamp);
    assert forall f :: f in h + [m.text, Flag(m)] <==>
      f in h || f == m.text || f == Flag(m);
    assert h[0] in h && h[1] in h && h[3] in h && h[4] in h && h[5] in h && h[6] in h && h[7] in h && h[8] in h;
  }

  /** Two adjacent parts may be cut at any of the line breaks between and in them. */
  lemma {:induction false} JoinPair(a: seq<string>, x: string, y: string, b: seq<string>)
    ensures Join(a + [x, y] + b) == Join(a + [x + "\n" + y] + b)
  {
    if a == [] {
      var p, q := [x, y] + b, [x + "\n" + y] + b;
      assert a + [x, y] + b == p && a + [x + "\n" + y] + b == q;
      assert p[1..] == [y] + b && q[1..] == b && p[1..][1..] == b;
      if b != [] {
        assert Join(p) == x + "\n" + (y + "\n" + Join(b));
        assert Join(q) == x + "\n" + y + "\n" + Join(b);
      }
    } else {
      assert (a + [x, y] + b)[1..] == a[1..] + [x, y] + b;
      assert (a + [x + "\n" + y] + b)[1..] == a[1..] + [x + "\n" + y] + b;
      JoinPair(a[1..], x, y, b);
    }
  }

  lemma {:induction false} SplitLine(s: string) returns (x: string, y: string)
    requires !OneLine(s)
    ensures s == x + "\n" + y
  {
    var k :| 0 <= k < |s| && s[k] == '\n';
    x, y := s[..k], s[k + 1..];
  }

  /** If one of two adjacent parts has a line break, the pair can be cut differently. */
  lemma Recut(a: seq<string>, f: string, g: string, b: seq<string>) returns (f': string, g': string)
    requires !OneLine(f) || !OneLine(g)
    ensures f' != f && Join(a + [f', g'] + b) == Join(a + [f, g] + b)
  {
    if !OneLine(f) {
      var x, y := SplitLine(f);
      f', g' := x, y + "\n" + g;
    } else {
      var x, y := SplitLine(g);
      f', g' := f + "\n" + x, y;
    }
    assert f' + "\n" + g' == f + "\n" + g;
    JoinPair(a, f, g, b);
    JoinPair(a, f', g', b);
  }

  /** The identity fields, which also decide whose key is asked for. */
  predicate SameIdentity(a: Message, b: Message) {
    && a.peerID == b.peerID && a.sender == b.sender && a.publicKey == b.publicKey && a.signature == b.signature
  }

  predicate OneLineIdentity(m: Message) {
    OneLine(m.peerID) && OneLine(m.sender) && OneLine(m.publicKey)
  }

  predicate OneLineBody(m: Message) {
    && OneLine(m.typ) && OneLine(m.id) && OneLine(m.nickname) && OneLine(m.channel) && OneLine(m.to) && OneLine(m.text)
  }

  /** The payload around a pair of adjacent fields. */
  lemma PayloadAs(m: Message, a: seq<string>, f: string, g: string, b: seq<string>)
    requires a + [f, g] + b == Head(m) + [m.text, Flag(m)]
    ensures SignBytes(m) == Join(a + [f, g] + b)
  {
    SignBytesShape(m);
  }

  lemma RereadFront(m: Message) returns (b: Message)
    requires !OneLine(m.typ) || !OneLine(m.id)
    ensures SignBytes(b) == SignBytes(m) && b.typ != m.typ && SameIdentity(m, b)
  {
    var rest := Head(m)[2..] + [m.text, Flag(m)];
    var f, g := Recut([], m.typ, m.id, rest);
    b := m.(typ := f, id := g);
    PayloadAs(m, [], m.typ, m.id, rest);
    PayloadAs(b, [], f, g, rest);
  }

  lemma RereadNickname(m: Message) returns (b: Message)
    requires !OneLine(m.nickname) || !OneLine(m.channel)
    ensures SignBytes(b) == SignBytes(m) && b.nickname != m.nickname && SameIdentity(m, b)
  {
    var front, rest := Head(m)[..6], [m.to, m.text, Flag(m)];
    var f, g := Recut(front, m.nickname, m.channel, rest);
    b := m.(nickname := f, channel := g);
    PayloadAs(m, front, m.nickname, m.channel, rest);
    PayloadAs(b, front, f, g, rest);
  }

  lemma RereadAddressee(m: Message) returns (b: Message)
    requires !OneLine(m.to) || !OneLine(m.text)
    ensures SignBytes(b) == SignBytes(m) && b.to != m.to && SameIdentity(m, b)
  {
    var front, rest := Head(m)[..8], [Flag(m)];
    var f, g := Recut(front, m.to, m.text, rest);
    b := m.(to := f, text := g);
    PayloadAs(m, front, m.to, m.text, rest);
    PayloadAs(b, front, f, g, rest);
  }

  lemma RereadPeer(m: Message) returns (b: Message)
    requires !OneLine(m.peerID) || !OneLine(m.sender)
    ensures SignBytes(b) == SignBytes(m) && b.peerID != m.peerID
  {
    var front, rest := Head(m)[..3], Head(m)[5..] + [m.text, Flag(m)];
    var f, g := Recut(front, m.peerID, m.sender, rest);
    b := m.(peerID := f, sender := g);
    PayloadAs(m, front, m.peerID, m.sender, rest);
    PayloadAs(b, front, f, g, rest);
  }

  lemma RereadKey(m: Message) returns (b: Message)
    requires !OneLine(m.publicKey)
    ensures SignBytes(b) == SignBytes(m) && b.publicKey != m.publicKey
  {
    var front, rest := Head(m)[..5], Head(m)[7..] + [m.text, Flag(m)];
    var f, g := Recut(front, m.publicKey, m.nickname, rest);
    b := m.(publicKey := f, nickname := g);
    PayloadAs(m, front, m.publicKey, m.nickname, rest);
    PayloadAs(b, front, f, g, rest);
  }

  /** A line break in a field can be taken for one between fields. */
  lemma Reread(m: Message) returns (b: Message)
    requires !OneLineThroughout(m)
    ensures SignBytes(b) == SignBytes(m) && !SameSignedFields(m, b)
    ensures !OneLineBody(m) ==> SameIdentity(m, b)
  {
    if !OneLine(m.typ) || !OneLine(m.id) {
      b := RereadFront(m);
    } else if !OneLine(m.nickname) || !OneLine(m.channel) {
      b := RereadNickname(m);
    } else if !OneLine(m.to) || !OneLine(m.text) {
      b := RereadAddressee(m);
    } else if !OneLine(m.publicKey) {
      b := RereadKey(m);
    } else {
      b := RereadPeer(m);
    }
  }

  /** A payload without line breaks in its fields was made from these fields only. */
  lemma PayloadDetermines(m: Message, b: Message)
    requires OneLineThroughout(m) && SignBytes(b) == SignBytes(m)
    ensures SameSignedFields(m, b)
  {
    OneLineCount(m);
    OneLineCount(b);
    SignBytesUnambiguous(m, b);
  }

  /**
   The payload of a message says which fields were signed exactly when none of them holds a line
   break. A line break in the text alone already makes it ambiguous.
   */
  lemma PayloadExact(m: Message)
    ensures (forall b :: SignBytes(b) == SignBytes(m) ==> SameSignedFields(m, b)) <==> OneLineThroughout(m)
  {
    if OneLineThroughout(m) {
      forall b | SignBytes(b) == SignBytes(m) ensures SameSignedFields(m, b) {
        PayloadDetermines(m, b);
      }
    } else {
      var b := Reread(m);
    }
  }

  // ----- Signatures

  datatype Verdict = Valid | MissingPublicKey | Unsigned | BadPublicKey | IdentityMismatch | BadSignature

  type Bytes = seq<byte>

  const PUBLIC_KEY_SIZE := 32
  const PRIVATE_KEY_SIZE := 64
  const SIGNATURE_SIZE := 64

  /** The library functions the signing code relies on. */
  datatype Crypto = Crypto(
    hexEncode: Bytes -> string,
    hexDecode: string -> Option<Bytes>,
    fingerprint: Bytes -> string,
    publicKey: Bytes -> Bytes,
    sign: (Bytes, string) -> Bytes,
    check: (Bytes, string, Bytes) -> bool)

  function Claimed(m: Message): string {
    if m.sender == "" then m.peerID else m.sender
  }

  function VerifySignature(m: Message, cr: Crypto): Verdict {
    if m.publicKey == "" then MissingPublicKey
    else if m.signature == "" then Unsigned
    else
      var pub := cr.hexDecode(m.publicKey);
      if pub.None? || |pub.value| != PUBLIC_KEY_SIZE then BadPublicKey
      else if Claimed(m) != "" && cr.fingerprint(pub.value) != ToLower(Claimed(m)) then IdentityMismatch
      else
        var sig := cr.hexDecode(m.signature);
        if sig.None? || |sig.value| != SIGNATURE_SIZE then BadSignature
        else if !cr.check(pub.value, SignBytes(m), sig.value) then BadSignature
        else Valid
  }

  /** The message with its signature, and the key if it had none; None for a bad private key. */
  function Sign(m: Message, priv: Bytes, cr: Crypto): Option<Message> {
    if |priv| != PRIVATE_KEY_SIZE then None
    else
      var keyed := if m.publicKey == "" then m.(publicKey := cr.hexEncode(cr.publicKey(priv))) else m;
      Some(keyed.(signature := cr.hexEncode(cr.sign(priv, SignBytes(keyed)))))
  }

  /** What the libraries promise: hex round trips, sizes are right, own signatures verify. */
  ghost predicate Works(cr: Crypto) {
    && (forall b: Bytes :: cr.hexDecode(cr.hexEncode(b)) == Some(b) && (b != [] ==> cr.hexEncode(b) != ""))
    && (forall k: Bytes :: |cr.publicKey(k)| == PUBLIC_KEY_SIZE)
    && (forall k: Bytes, s: string :: |cr.sign(k, s)| == SIGNATURE_SIZE)
    && (forall k: Bytes, s: string :: cr.check(cr.publicKey(k), s, cr.sign(k, s)))
  }

  /** One key accepts one signature for two different payloads: what a signature scheme must make hard. */
  predicate Twice(cr: Crypto, a: Message, b: Message) {
    && a.publicKey == b.publicKey && a.signature == b.signature && SignBytes(a) != SignBytes(b)
    && var pub, sig := cr.hexDecode(a.publicKey), cr.hexDecode(a.signature);
       pub.Some? && sig.Some? && cr.check(pub.value, SignBytes(a), sig.value) && cr.check(pub.value, SignBytes(b), sig.value)
  }

  /**
   When a message verifies, in terms of its own fields: key and signature are well formed, the key
   accepts the signature for the payload, and the key's fingerprint is the sender, or the peer ID of a
   message without sender, whatever the case.
   */
  lemma VerifyExact(m: Message, cr: Crypto)
    ensures VerifySignature(m, cr) == Valid <==>
      && m.publicKey != "" && m.signature != ""
      && var pub, sig := cr.hexDecode(m.publicKey), cr.hexDecode(m.signature);
      && pub.Some? && |pub.value| == 32 && sig.Some? && |sig.value| == 64
      && cr.check(pub.value, SignBytes(m), sig.value)
      && (m.sender != "" ==> cr.fingerprint(pub.value) == ToLower(m.sender))
      && (m.sender == "" && m.peerID != "" ==> cr.fingerprint(pub.value) == ToLower(m.peerID))
  {
  }

  /** A sender is bound to the key, so nobody can sign for another sender, whatever peer ID is given. */
  lemma SenderIsKey(m: Message, cr: Crypto)
    requires VerifySignature(m, cr) == Valid
    ensures cr.hexDecode(m.publicKey).Some?
    ensures m.sender != "" ==> cr.fingerprint(cr.hexDecode(m.publicKey).value) == ToLower(m.sender)
    ensures m.sender == "" && m.peerID != "" ==> cr.fingerprint(cr.hexDecode(m.publicKey).value) == ToLower(m.peerID)
  {
    VerifyExact(m, cr);
  }

  /** A key that may stand for the sender a message claims. */
  predicate Speaks(pub: Bytes, m: Message, cr: Crypto) {
    Claimed(m) == "" || cr.fingerprint(pub) == ToLower(Claimed(m))
  }

  /**
   The signature is not part of what it signs, so a signed message verifies exactly when it carries a
   key that may speak for its sender and accepts the signature; the signing key itself accepts it.
   */
  lemma SignThenVerify(m: Message, priv: Bytes, cr: Crypto)
    requires Works(cr)
    ensures Sign(m, priv, cr).Some? <==> |priv| == PRIVATE_KEY_SIZE
    ensures Sign(m, priv, cr).Some? ==>
      var signed := Sign(m, priv, cr).value;
      && signed == m.(publicKey := signed.publicKey, signature := signed.signature)
      && signed.publicKey == (if m.publicKey == "" then cr.hexEncode(cr.publicKey(priv)) else m.publicKey)
    ensures Sign(m, priv, cr).Some? ==>
      var signed := Sign(m, priv, cr).value;
      var pub := cr.hexDecode(signed.publicKey);
      VerifySignature(signed, cr) == Valid <==>
        && signed.publicKey != "" && pub.Some? && |pub.value| == PUBLIC_KEY_SIZE && Speaks(pub.value, m, cr)
        && cr.check(pub.value, SignBytes(signed), cr.sign(priv, SignBytes(signed)))
    ensures Sign(m, priv, cr).Some? && (m.publicKey == "" || m.publicKey == cr.hexEncode(cr.publicKey(priv))) ==>
      (VerifySignature(Sign(m, priv, cr).value, cr) == Valid <==> Speaks(cr.publicKey(priv), m, cr))
  {
    if |priv| == PRIVATE_KEY_SIZE {
      var signed := Sign(m, priv, cr).value;
      var keyed := signed.(signature := m.signature);
      assert SignBytes(signed) == SignBytes(keyed);
      assert cr.sign(priv, SignBytes(keyed)) != [];
    }
  }

  /** Two verified messages that claim one sender, in whatever case, come from keys with one fingerprint. */
  lemma OneKeyPerSender(a: Message, b: Message, cr: Crypto)
    requires VerifySignature(a, cr) == Valid && VerifySignature(b, cr) == Valid
    requires ToLower(Claimed(a)) == ToLower(Claimed(b)) && Claimed(a) != ""
    ensures var k, l := cr.hexDecode(a.publicKey), cr.hexDecode(b.publicKey);
      k.Some? && l.Some? && cr.fingerprint(k.value) == cr.fingerprint(l.value)
  {
    assert |Claimed(a)| == |ToLower(Claimed(a))| == |Claimed(b)|;
  }

  /** A frame under the same key and signature verifies too only if it has the same payload or the
      signature is good for two. */
  lemma SameOrTwice(m: Message, altered: Message, cr: Crypto)
    requires VerifySignature(m, cr) == Valid && VerifySignature(altered, cr) == Valid
    requires altered.publicKey == m.publicKey && altered.signature == m.signature
    ensures SignBytes(altered) == SignBytes(m) || Twice(cr, m, altered)
  {
  }

  /**
   Changing any signed field of a verified message without line breaks, under the same key and
   signature, is noticed, whatever the change puts into the fields.
   */
  lemma AlteredIsRejected(m: Message, altered: Message, cr: Crypto)
    requires OneLineThroughout(m) && VerifySignature(m, cr) == Valid
    requires altered.publicKey == m.publicKey && altered.signature == m.signature
    requires !SameSignedFields(m, altered)
    ensures VerifySignature(altered, cr) != Valid || Twice(cr, m, altered)
  {
    if VerifySignature(altered, cr) == Valid {
      SameOrTwice(m, altered, cr);
      if SignBytes(altered) == SignBytes(m) {
        PayloadDetermines(m, altered);
      }
    }
  }

  /** Every change under the same key and signature is noticed, unless the signature is good for two payloads. */
  ghost predicate TamperProof(m: Message, cr: Crypto) {
    forall b :: VerifySignature(b, cr) == Valid && b.publicKey == m.publicKey && b.signature == m.signature ==>
      SameSignedFields(m, b) || Twice(cr, m, b)
  }

  /**
   A verified message is protected if no field has a line break, and is not if a field outside its
   identity has one; with a one-line identity that is an exact condition.
   */
  lemma TamperExact(m: Message, cr: Crypto)
    requires VerifySignature(m, cr) == Valid
    ensures OneLineThroughout(m) ==> TamperProof(m, cr)
    ensures !OneLineBody(m) ==> !TamperProof(m, cr)
    ensures OneLineIdentity(m) ==> (TamperProof(m, cr) <==> OneLineThroughout(m))
  {
    if OneLineThroughout(m) {
      forall b | VerifySignature(b, cr) == Valid && b.publicKey == m.publicKey && b.signature == m.signature
        ensures SameSignedFields(m, b) || Twice(cr, m, b)
      {
        if !SameSignedFields(m, b) {
          AlteredIsRejected(m, b, cr);
        }
      }
    } else if !OneLineBody(m) {
      var b := Reread(m);
      assert VerifySignature(b, cr) == Valid && !Twice(cr, m, b);
    }
  }

  /** A channel message whose text has a first line and more, read as a direct message to that line. */
  function AsDirect(m: Message, first: string, rest: string): Message {
    m.(nickname := m.nickname + "\n" + m.channel, channel := "", to := first, text := rest)
  }

  /** The two readings have one payload and are accepted alike, although only one is flooded. */
  lemma TextLineReadsAsAddressee(m: Message, first: string, rest: string, now: int, cr: Crypto)
    requires m.typ == "chat" && m.to == "" && m.text == first + "\n" + rest && first != "" && rest != ""
    ensures SignBytes(AsDirect(m, first, rest)) == SignBytes(m)
    ensures VerifySignature(AsDirect(m, first, rest), cr) == VerifySignature(m, cr)
    ensures Passes(m, now, cr) ==> Passes(AsDirect(m, first, rest), now, cr)
  {
    var b := AsDirect(m, first, rest);
    var head := [m.typ, m.id, FormatInt(m.timestamp), m.peerID, m.sender, m.publicKey];
    JoinPair(head, m.nickname, m.channel, ["", m.text, Flag(m)]);
    JoinPair(head + [b.nickname, ""], first, rest, [Flag(m)]);
    SignBytesShape(m);
    SignBytesShape(b);
    assert head + [m.nickname, m.channel] + ["", m.text, Flag(m)] == Head(m) + [m.text, Flag(m)];
    assert head + [b.nickname] + ["", m.text, Flag(m)] == head + [b.nickname, ""] + [first + "\n" + rest] + [Flag(m)];
    assert head + [b.nickname, ""] + [first, rest] + [Flag(m)] == Head(b) + [b.text, Flag(m)];
  }

  /** For instance: "bob", line break, "hi" in #c may be read as "hi" addressed to bob. */
  lemma BobIsAddressed(m: Message, cr: Crypto)
    requires m.typ == "chat" && m.nickname == "n" && m.channel == "#c" && m.to == "" && m.text == "bob\nhi"
    ensures var b := m.(nickname := "n\n#c", channel := "", to := "bob", text := "hi");
      && SignBytes(b) == SignBytes(m) && !SameSignedFields(m, b)
      && VerifySignature(b, cr) == VerifySignature(m, cr)
      && (Validate(m).Some? ==> Validate(b) == Some(b))
  {
    TextLineReadsAsAddressee(m, "bob", "hi", 0, cr);
    assert AsDirect(m, "bob", "hi") == m.(nickname := "n\n#c", channel := "", to := "bob", text := "hi");
  }

  // ----- Forwarding

  /** The gates a gossip frame passes at one node, up to the seen cache and the rate limit. */
  predicate Passes(m: Message, now: int, cr: Crypto) {
    IsRoutable(m.typ) && VerifySignature(m, cr) == Valid && Fresh(m.timestamp, now) && Validate(m).Some?
  }

  /** The frame that leaves the last of a path of nodes with these clock readings; None if one drops it. */
  function Relay(m: Message, clocks: seq<int>, cr: Crypto): Option<Message>
    decreases |clocks|
  {
    if clocks == [] then Some(m)
    else if !Passes(m, clocks[0], cr) then None
    else Relay(Validate(m).value, clocks[1..], cr)
  }

  /** The payload in front of the channel, and behind it. */
  function BeforeChannel(m: Message): string {
    Before([m.typ, m.id, FormatInt(m.timestamp), m.peerID, m.sender, m.publicKey, m.nickname])
  }

  function AfterChannel(m: Message): string {
    "\n" + Join([m.to, m.text, Flag(m)])
  }

  lemma ChannelInPayload(m: Message)
    ensures SignBytes(m) == BeforeChannel(m) + m.channel + AfterChannel(m)
  {
    var a := [m.typ, m.id, FormatInt(m.timestamp), m.peerID, m.sender, m.publicKey, m.nickname];
    var b := [m.to, m.text, Flag(m)];
    assert a + [m.channel] + b == Head(m) + b[1..];
    SignBytesShape(m);
    JoinMiddle(a, m.channel, b);
  }

  /** Rewriting the channel changes the signed payload. */
  lemma ChannelIsSigned(m: Message, channel: string)
    ensures SignBytes(m.(channel := channel)) == SignBytes(m) <==> m.channel == channel
    ensures |SignBytes(m.(channel := channel))| - |SignBytes(m)| == |channel| - |m.channel|
  {
    ChannelInPayload(m);
    ChannelInPayload(m.(channel := channel));
    if SignBytes(m.(channel := channel)) == SignBytes(m) {
      CancelMiddle(BeforeChannel(m), m.channel, channel, AfterChannel(m));
    }
  }

  function Before(a: seq<string>): string {
    if a == [] then "" else a[0] + "\n" + Before(a[1..])
  }

  lemma {:induction false} JoinMiddle(a: seq<string>, x: string, b: seq<string>)
    requires b != []
    ensures Join(a + [x] + b) == Before(a) + x + ("\n" + Join(b))
  {
    if a == [] {
      assert a + [x] + b == [x] + b && ([x] + b)[1..] == b;
      AppendAssoc(x, "\n", Join(b));
      assert "" + x == x;
    } else {
      assert (a + [x] + b)[1..] == a[1..] + [x] + b;
      JoinMiddle(a[1..], x, b);
      AppendAssoc(a[0] + "\n", Before(a[1..]) + x, "\n" + Join(b));
      AppendAssoc(a[0] + "\n", Before(a[1..]), x);
    }
  }

  lemma CancelMiddle(p: string, x: string, y: string, s: string)
    requires p + x + s == p + y + s
    ensures x == y
  {
    assert |x| == |y|;
    assert (p + x + s)[|p|..|p| + |x|] == x;
    assert (p + y + s)[|p|..|p| + |y|] == y;
  }

  /** A frame in normal form passes every node of any path. */
  lemma {:induction false} RelayStable(m: Message, clocks: seq<int>, cr: Crypto)
    requires IsRoutable(m.typ) && VerifySignature(m, cr) == Valid && Validate(m) == Some(m)
    requires forall i :: 0 <= i < |clocks| ==> Fresh(m.timestamp, clocks[i])
    ensures Relay(m, clocks, cr) == Some(m)
  {
    if clocks != [] {
      RelayStable(m, clocks[1..], cr);
    }
  }

  /**
   Forwarded frames stay verifiable exactly when validation has nothing to rewrite: a frame that the
   first node accepts travels any path of two or more nodes whose clocks accept its timestamp, and
   arrives as it was sent, if and only if its channel is unused or already in normal form. A frame
   that is rewritten gets through only if its signature is good for both payloads.
   */
  lemma {:induction false} RelayExact(m: Message, clocks: seq<int>, cr: Crypto)
    requires |clocks| >= 2 && Passes(m, clocks[0], cr)
    requires forall i :: 0 <= i < |clocks| ==> Fresh(m.timestamp, clocks[i])
    ensures Relay(m, clocks, cr) == Some(m) <==> (UsesChannel(m) ==> IsNormalChannel(m.channel))
    ensures Relay(m, clocks, cr).Some? <==> Relay(m, clocks, cr) == Some(m) || Twice(cr, m, Validate(m).value)
  {
    ValidateStable(m);
    var m' := Validate(m).value;
    if m' == m {
      RelayStable(m, clocks, cr);
    } else {
      RewrittenVerifies(m, m'.channel, cr);
      assert clocks[1..] != [] && clocks[1..][0] == clocks[1];
      if Twice(cr, m, m') {
        RelayStable(m', clocks[1..], cr);
      }
    }
  }

  /** Once its channel has been rewritten, a frame verifies only if its signature is good for both payloads. */
  lemma RewrittenVerifies(m: Message, channel: string, cr: Crypto)
    requires VerifySignature(m, cr) == Valid && m.channel != channel
    ensures VerifySignature(m.(channel := channel), cr) == Valid <==> Twice(cr, m, m.(channel := channel))
  {
    ChannelIsSigned(m, channel);
  }

  // ----- A working scheme, and a frame that it drops

  function Encoded(b: Bytes): (s: string)
    ensures |s| == |b|
  {
    seq(|b|, i requires 0 <= i < |b| => (b[i] as int) as char)
  }

  function Decoded(s: string): Option<Bytes> {
    if forall i :: 0 <= i < |s| ==> s[i] as int < 256
    then Some(seq(|s|, i requires 0 <= i < |s| => (s[i] as int) as byte))
    else None
  }

  /** A 64-byte digest that tells lengths apart. */
  function Digest(s: string): (d: Bytes)
    ensures |d| == SIGNATURE_SIZE
  {
    [(|s| % 256) as byte] + seq(SIGNATURE_SIZE - 1, _ => 0 as byte)
  }

  /** The simplest scheme that does what the libraries promise: one key, and signatures that are digests. */
  function Toy(): Crypto {
    Crypto(Encoded, Decoded, (_: Bytes) => "ab", (_: Bytes) => seq(PUBLIC_KEY_SIZE, _ => 1 as byte),
           (_: Bytes, s: string) => Digest(s), (_: Bytes, s: string, sig: Bytes) => sig == Digest(s))
  }

  lemma ToyWorks()
    ensures Works(Toy())
  {
    forall b: Bytes ensures Decoded(Encoded(b)) == Some(b) && (b != [] ==> Encoded(b) != "") {
      assert Decoded(Encoded(b)).value == b;
    }
  }

  /** A join for the channel "General". */
  function JoinGeneral(): Message {
    Message("join", "1", 1, 0, "", "", "n", "General", "ab", "", false, "", "", 0, [])
  }

  function PrivateKey(): (k: Bytes)
    ensures |k| == PRIVATE_KEY_SIZE
  {
    seq(PRIVATE_KEY_SIZE, _ => 0 as byte)
  }

  /** The same, signed under the toy scheme. */
  function SignedGeneral(): Message {
    Sign(JoinGeneral(), PrivateKey(), Toy()).value
  }

  /** Under the toy scheme a rewritten channel of another length is noticed. */
  lemma ToyNotices(m: Message, channel: string)
    requires |channel| == |m.channel| + 1
    ensures !Twice(Toy(), m, m.(channel := channel))
  {
    ChannelIsSigned(m, channel);
    var s, t := SignBytes(m), SignBytes(m.(channel := channel));
    assert Digest(s)[0] != Digest(t)[0];
  }

  lemma GeneralIsRewritten()
    ensures NormalizeChannel("General") == Some("#general")
  {
    var raw := "General";
    assert TrimSpace(raw) == raw;
    var s := ToLower("#" + raw);
    assert s == "#general";
    assert ChannelCharsFrom(s, 1);
  }

  lemma GeneralValidates(m: Message)
    requires m.typ == "join" && m.id == "1" && m.timestamp == 1 && m.channel == "General" && m.sender != ""
    ensures Validate(m) == Some(m.(channel := "#general"))
  {
    GeneralIsRewritten();
    ShortId(m);
    JoinValidates(m, "#general");
  }

  lemma ShortId(m: Message)
    requires m.typ != "" && m.id == "1" && m.timestamp == 1
    ensures ValidEnvelope(m)
  {
    assert m.id[1..] == "";
  }

  lemma JoinValidates(m: Message, channel: string)
    requires m.typ == "join" && ValidEnvelope(m) && m.sender != "" && NormalizeChannel(m.channel) == Some(channel)
    ensures Validate(m) == Some(m.(channel := channel))
  {
    assert m.typ[0] == 'j';
  }

  lemma GeneralVerifies()
    ensures VerifySignature(SignedGeneral(), Toy()) == Valid
  {
    ToyWorks();
    assert Toy().fingerprint(Toy().publicKey([])) == "ab" == ToLower("ab") == Claimed(JoinGeneral());
    SignThenVerify(JoinGeneral(), PrivateKey(), Toy());
  }

  lemma GeneralIsAccepted(now: int)
    requires Fresh(1, now)
    ensures Passes(SignedGeneral(), now, Toy())
    ensures Validate(SignedGeneral()).value.channel == "#general"
  {
    GeneralVerifies();
    GeneralValidates(SignedGeneral());
  }

  /**
   A join signed for the channel "General" under a working scheme passes the first node, which rewrites
   the channel to "#general", and is dropped by the second, however many follow.
   */
  lemma CapitalIsDropped(clocks: seq<int>)
    requires |clocks| >= 2 && forall i :: 0 <= i < |clocks| ==> Fresh(1, clocks[i])
    ensures Works(Toy()) && Passes(SignedGeneral(), clocks[0], Toy())
    ensures Relay(SignedGeneral(), clocks, Toy()) == None
  {
    var m := SignedGeneral();
    assert m.channel == "General" && m.typ == "join";
    ToyWorks();
    GeneralIsAccepted(clocks[0]);
    RelayExact(m, clocks, Toy());
    ValidateStable(m);
    ToyNotices(m, "#general");
  }
}
