/**
 Wire messages: the record itself, its validation, and the window of timestamps a node accepts.
 Text is a sequence of Unicode scalar values; lengths the program measures in bytes go through
 `ByteLen`. Time is in nanoseconds, message timestamps in seconds.
 */
module Messages {
  import opened Basics

  const VERSION := 2
  const MAX_MESSAGE_SIZE: nat := 64 * 1024
  const MAX_TEXT_LEN: nat := 4096
  const MAX_CHANNEL_LEN: nat := 32
  const MAX_ID_LEN: nat := 128
  const MAX_PEER_ID_LEN: nat := 64
  const SECOND: int := 1_000_000_000
  const MAX_FUTURE_SKEW: int := 120 * SECOND
  const MAX_PAST_SKEW: int := 600 * SECOND

  datatype Message = Message(
    typ: string, id: string, timestamp: int, version: int,
    peerID: string, publicKey: string, nickname: string, channel: string, sender: string,
    text: string, action: bool, to: string, signature: string, port: int, addrs: seq<string>)

  // ----- Text

  predicate IsSpace(c: char) {
    || '\t' <= c <= '\r' || c == ' ' || c == '\U{85}' || c == '\U{A0}' || c == '\U{1680}'
    || '\U{2000}' <= c <= '\U{200A}' || c == '\U{2028}' || c == '\U{2029}' || c == '\U{202F}'
    || c == '\U{205F}' || c == '\U{3000}'
  }

  function TrimLeft(s: string): string {
    if s != [] && IsSpace(s[0]) then TrimLeft(s[1..]) else s
  }

  function TrimRight(s: string): string {
    if s != [] && IsSpace(s[|s| - 1]) then TrimRight(s[..|s| - 1]) else s
  }

  function TrimSpace(s: string): string {
    TrimRight(TrimLeft(s))
  }

  ghost predicate AllSpace(s: string) {
    forall i :: 0 <= i < |s| ==> IsSpace(s[i])
  }

  /** Nothing to trim at either end. */
  predicate Bare(s: string) {
    s != [] ==> !IsSpace(s[0]) && !IsSpace(s[|s| - 1])
  }

  lemma {:induction false} TrimLeftIs(a: string, t: string)
    requires AllSpace(a) && (t != [] ==> !IsSpace(t[0]))
    ensures TrimLeft(a + t) == t
  {
    if a == [] {
      assert a + t == t;
    } else {
      assert (a + t)[1..] == a[1..] + t;
      TrimLeftIs(a[1..], t);
    }
  }

  lemma {:induction false} TrimRightIs(t: string, b: string)
    requires AllSpace(b) && (t != [] ==> !IsSpace(t[|t| - 1]))
    ensures TrimRight(t + b) == t
  {
    if b == [] {
      assert t + b == t;
    } else {
      assert (t + b)[..|t + b| - 1] == t + b[..|b| - 1];
      TrimRightIs(t, b[..|b| - 1]);
    }
  }

  /** Trimming takes the white space off both ends, and nothing else. */
  lemma TrimExact(a: string, t: string, b: string)
    requires AllSpace(a) && Bare(t) && AllSpace(b)
    ensures TrimSpace(a + t + b) == t
  {
    if t == [] {
      assert a + t + b == (a + b) + [];
      TrimLeftIs(a + b, []);
    } else {
      assert a + t + b == a + (t + b);
      TrimLeftIs(a, t + b);
      TrimRightIs(t, b);
    }
  }

  /**
   Lower case as far as it can produce ASCII: the ASCII capitals, the Kelvin sign and the dotted
   capital I. Every other character is left alone; none of them lowers to ASCII.
   */
  function Lower(c: char): char {
    if 'A' <= c <= 'Z' then (c as int + 32) as char
    else if c == '\U{212A}' then 'k'
    else if c == '\U{130}' then 'i'
    else c
  }

  /** No ASCII capital is left, small letters stay, and each capital becomes its own small letter. */
  lemma LowerExact(c: char)
    ensures !('A' <= Lower(c) <= 'Z') && Lower(Lower(c)) == Lower(c)
    ensures 'A' <= c <= 'Z' ==> Lower(c) as int - 'a' as int == c as int - 'A' as int
    ensures Lower(c) != c ==> 'a' <= Lower(c) <= 'z' && ('A' <= c <= 'Z' || c as int >= 0x80)
  {
  }

  function ToLower(s: string): (r: string)
    ensures |r| == |s|
    ensures forall i :: 0 <= i < |s| ==> r[i] == Lower(s[i])
  {
    seq(|s|, i requires 0 <= i < |s| => Lower(s[i]))
  }

  /** Length of the UTF-8 encoding. */
  function ByteLen(s: string): nat {
    if s == [] then 0
    else
      var c := s[0] as int;
      (if c < 0x80 then 1 else if c < 0x800 then 2 else if c < 0x1_0000 then 3 else 4) + ByteLen(s[1..])
  }

  /** How many characters are `from` or above. */
  function CountFrom(s: string, from: int): nat {
    if s == [] then 0 else (if s[0] as int >= from then 1 else 0) + CountFrom(s[1..], from)
  }

  /** One byte per character, and one more at each of the three places where UTF-8 grows wider. */
  lemma {:induction false} ByteLenExact(s: string)
    ensures ByteLen(s) == |s| + CountFrom(s, 0x80) + CountFrom(s, 0x800) + CountFrom(s, 0x1_0000)
  {
    if s != [] {
      ByteLenExact(s[1..]);
    }
  }

  // ----- Channels

  predicate IsChannelChar(c: char) {
    'a' <= c <= 'z' || '0' <= c <= '9' || c == '_' || c == '-'
  }

  predicate ChannelCharsFrom(s: string, i: nat)
    requires i <= |s|
  {
    forall k :: i <= k < |s| ==> IsChannelChar(s[k])
  }

  /** A channel name in normal form. */
  predicate IsNormalChannel(s: string) {
    2 <= |s| <= MAX_CHANNEL_LEN && s[0] == '#' && ChannelCharsFrom(s, 1)
  }

  /** A number sign and 1 to 31 small letters, digits, underscores and hyphens. */
  lemma NormalChannelExact(s: string)
    ensures IsNormalChannel(s) <==>
      && 2 <= |s| <= 32 && s[0] == '#'
      && forall k :: 1 <= k < |s| ==> 'a' <= s[k] <= 'z' || '0' <= s[k] <= '9' || s[k] == '_' || s[k] == '-'
  {
  }

  function NormalizeChannel(raw: string): Option<string> {
    var trimmed := TrimSpace(raw);
    if trimmed == [] then None
    else
      var s := ToLower(if trimmed[0] == '#' then trimmed else "#" + trimmed);
      if |s| < 2 || |s| > MAX_CHANNEL_LEN then None
      else if ChannelCharsFrom(s, 1) then Some(s)
      else None
  }

  /** Normalization answers only normal forms, and leaves exactly the normal forms alone. */
  lemma NormalizeFixpoint(raw: string)
    ensures NormalizeChannel(raw).Some? ==> IsNormalChannel(NormalizeChannel(raw).value)
    ensures NormalizeChannel(raw) == Some(raw) <==> IsNormalChannel(raw)
  {
    if IsNormalChannel(raw) {
      assert IsChannelChar(raw[|raw| - 1]);
      assert ToLower(raw) == raw;
    }
  }

  function Hashed(s: string): string {
    if s != [] && s[0] == '#' then s else "#" + s
  }

  /**
   Which name a channel normalizes to: the trimmed text in lower case behind a number sign, and only if
   that is a normal form as it stands. A name that is too long, or has a bad character, is refused.
   */
  lemma NormalizeExact(raw: string, s: string)
    ensures NormalizeChannel(raw) == Some(s) <==> IsNormalChannel(s) && s == Hashed(ToLower(TrimSpace(raw)))
  {
    var t := TrimSpace(raw);
    if t != [] {
      assert ToLower(t)[0] == Lower(t[0]);
      assert ToLower("#" + t) == "#" + ToLower(t);
      if t[0] == '#' {
        assert ToLower(t)[0] == '#';
      }
      assert ToLower(Hashed(t)) == Hashed(ToLower(t));
    }
  }

  lemma NormalizeIdempotent(raw: string)
    requires NormalizeChannel(raw).Some?
    ensures NormalizeChannel(NormalizeChannel(raw).value) == NormalizeChannel(raw)
  {
    NormalizeFixpoint(raw);
    NormalizeFixpoint(NormalizeChannel(raw).value);
  }

  /** Case and surrounding space make no difference to the channel that is meant. */
  lemma NormalizeInsensitive(a: string, b: string)
    requires ToLower(TrimSpace(a)) == ToLower(TrimSpace(b))
    ensures NormalizeChannel(a) == NormalizeChannel(b)
  {
    var x, y := TrimSpace(a), TrimSpace(b);
    assert |x| == |ToLower(x)| == |ToLower(y)| == |y|;
    if x != [] {
      assert ToLower(x)[0] == Lower(x[0]) && ToLower(y)[0] == Lower(y[0]);
      assert x[0] == '#' <==> y[0] == '#';
      assert ToLower("#" + x) == "#" + ToLower(x) && ToLower("#" + y) == "#" + ToLower(y);
    }
  }

  /** Neither does a missing number sign. */
  lemma NormalizeHashOptional(name: string)
    requires name != [] && name[0] != '#' && !IsSpace(name[0]) && !IsSpace(name[|name| - 1])
    ensures NormalizeChannel("#" + name) == NormalizeChannel(name)
  {
    var s := "#" + name;
    assert s[|s| - 1] == name[|name| - 1];
    assert TrimSpace(s) == s && TrimSpace(name) == name;
  }

  // ----- Validation

  predicate IsRoutable(typ: string) {
    typ == "chat" || typ == "join" || typ == "leave"
  }

  predicate ValidEnvelope(m: Message) {
    m.typ != "" && m.id != "" && ByteLen(m.id) <= MAX_ID_LEN && m.timestamp != 0
  }

  /** The message after validation, whose channel may have been rewritten; None is an error. */
  function Validate(m: Message): Option<Message> {
    if !ValidEnvelope(m) then None
    else if m.typ == "hello" || m.typ == "welcome" then
      if m.version != VERSION || ByteLen(m.peerID) != MAX_PEER_ID_LEN || m.publicKey == "" then None
      else Some(m)
    else if m.typ == "chat" then
      if m.sender == "" then None
      else if m.to != "" then ValidText(m)
      else if m.channel == "" then None
      else
        match NormalizeChannel(m.channel)
        case None => None
        case Some(ch) => ValidText(m.(channel := ch))
    else if m.typ == "join" || m.typ == "leave" then
      if m.sender == "" then None
      else
        match NormalizeChannel(m.channel)
        case None => None
        case Some(ch) => Some(m.(channel := ch))
    else if m.typ == "ping" || m.typ == "pong" then Some(m)
    else None
  }

  function ValidText(m: Message): Option<Message> {
    if m.text == "" || |m.text| > MAX_TEXT_LEN then None else Some(m)
  }

  /** Which messages validation accepts, type by type; no others. */
  lemma ValidateExact(m: Message)
    ensures Validate(m).Some? <==>
      && m.id != "" && ByteLen(m.id) <= 128 && m.timestamp != 0
      && (|| m.typ in ["ping", "pong"]
          || (m.typ in ["hello", "welcome"] && m.version == 2 && ByteLen(m.peerID) == 64 && m.publicKey != "")
          || (m.typ in ["join", "leave"] && m.sender != "" && NormalizeChannel(m.channel).Some?)
          || (&& m.typ == "chat" && m.sender != "" && 1 <= |m.text| <= 4096
              && (m.to != "" || NormalizeChannel(m.channel).Some?)))
  {
    assert NormalizeChannel("") == None;
  }

  /** What an accepted gossip message is: it names its sender, and its channel or its addressee, and a
      chat has a text within bounds. */
  lemma ValidGossip(m: Message)
    requires IsRoutable(m.typ)
    ensures Validate(m).Some? <==>
      && ValidEnvelope(m) && m.sender != ""
      && (m.typ == "chat" ==> 1 <= |m.text| <= MAX_TEXT_LEN)
      && (UsesChannel(m) ==> NormalizeChannel(m.channel).Some?)
    ensures Validate(m).Some? && UsesChannel(m) ==> IsNormalChannel(Validate(m).value.channel)
  {
    NormalizeFixpoint(m.channel);
    assert NormalizeChannel("") == None;
  }

  /** Direct messages keep whatever channel text they carry; the others are normalized. */
  predicate UsesChannel(m: Message) {
    m.typ == "join" || m.typ == "leave" || (m.typ == "chat" && m.to == "")
  }

  /**
   Validation changes nothing but the channel, does so exactly when a channel in use is not in
   normal form, and accepts its own output unchanged.
   */
  lemma ValidateStable(m: Message)
    requires Validate(m).Some?
    ensures Validate(m).value == m.(channel := Validate(m).value.channel)
    ensures UsesChannel(m) ==> NormalizeChannel(m.channel) == Some(Validate(m).value.channel)
    ensures Validate(m) == Some(m) <==> (UsesChannel(m) ==> IsNormalChannel(m.channel))
    ensures Validate(Validate(m).value) == Validate(m)
  {
    NormalizeFixpoint(m.channel);
    if UsesChannel(m) {
      var ch := NormalizeChannel(m.channel).value;
      assert Validate(m).value == m.(channel := ch);
      NormalizeFixpoint(ch);
    } else {
      assert Validate(m).value == m;
    }
  }

  lemma ValidateKeeps(m: Message)
    requires Validate(m).Some?
    ensures Validate(m).value.id == m.id && Validate(m).value.to == m.to
  {
  }

  // ----- Freshness

  /** A timestamp the local clock accepts: neither too far ahead nor too old. */
  predicate Fresh(timestamp: int, now: int) {
    && timestamp != 0
    && timestamp * SECOND <= now + MAX_FUTURE_SKEW
    && now - timestamp * SECOND <= MAX_PAST_SKEW
  }

  /** The clock readings at which a message is fresh: from two minutes before its second to ten after. */
  lemma FreshWindow(timestamp: int, now: int)
    ensures Fresh(timestamp, now) <==>
      timestamp != 0 && (timestamp - 120) * 1_000_000_000 <= now <= (timestamp + 600) * 1_000_000_000
  {
  }
}
