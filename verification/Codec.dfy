/**
 Newline-delimited frames over a byte stream: the size-limited line reader on top of a reader that
 hands out the stream in arbitrary pieces, decoding with an abstract JSON codec, and encoding.
 */
module Codec {
  import opened Basics
  import opened Messages

  type Bytes = seq<byte>

  const LF: byte := 10
  const CR: byte := 13

  /** How the stream ends: orderly, or with some other error. */
  datatype End = Eof | Broken

  // ----- First newline

  predicate NoNewline(s: Bytes) {
    LF !in s
  }

  /** The position of the first newline, or the length if there is none. */
  function LineEnd(s: Bytes): (k: nat)
    ensures k <= |s| && NoNewline(s[..k]) && (k < |s| ==> s[k] == LF)
  {
    if s == [] || s[0] == LF then 0
    else
      var k := 1 + LineEnd(s[1..]);
      assert s[..k] == [s[0]] + s[1..][..k - 1];
      k
  }

  lemma LineEndUnique(s: Bytes, k: nat)
    requires k <= |s| && NoNewline(s[..k]) && (k < |s| ==> s[k] == LF)
    ensures LineEnd(s) == k
  {
    var j := LineEnd(s);
    assert forall i :: 0 <= i < k ==> s[i] == s[..k][i];
    assert forall i :: 0 <= i < j ==> s[i] == s[..j][i];
  }

  lemma LineEndPast(a: Bytes, b: Bytes)
    requires NoNewline(a)
    ensures LineEnd(a + b) == |a| + LineEnd(b)
  {
    var k := LineEnd(b);
    assert (a + b)[..|a| + k] == a + b[..k];
    LineEndUnique(a + b, |a| + k);
  }

  // ----- White space, as UTF-8

  predicate IsSpaceAt(s: Bytes, i: nat, n: nat)
    requires i + n <= |s|
  {
    if n == 1 then 9 <= s[i] <= 13 || s[i] == 32
    else if n == 2 then s[i] == 0xC2 && (s[i + 1] == 0x85 || s[i + 1] == 0xA0)
    else if n == 3 then
      || (s[i] == 0xE1 && s[i + 1] == 0x9A && s[i + 2] == 0x80)
      || (s[i] == 0xE2 && s[i + 1] == 0x80 &&
          (0x80 <= s[i + 2] <= 0x8A || s[i + 2] == 0xA8 || s[i + 2] == 0xA9 || s[i + 2] == 0xAF))
      || (s[i] == 0xE2 && s[i + 1] == 0x81 && s[i + 2] == 0x9F)
      || (s[i] == 0xE3 && s[i + 1] == 0x80 && s[i + 2] == 0x80)
    else false
  }

  /** Length of the white space character the bytes start with, 0 if they do not. */
  function LeadingSpace(s: Bytes): (n: nat)
    ensures n <= |s|
  {
    if 1 <= |s| && IsSpaceAt(s, 0, 1) then 1
    else if 2 <= |s| && IsSpaceAt(s, 0, 2) then 2
    else if 3 <= |s| && IsSpaceAt(s, 0, 3) then 3
    else 0
  }

  /** The UTF-8 encoding of a character. */
  function Utf8(c: char): Bytes {
    var n := c as int;
    if n < 0x80 then [n as byte]
    else if n < 0x800 then [(0xC0 + n / 64) as byte, (0x80 + n % 64) as byte]
    else if n < 0x1_0000 then [(0xE0 + n / 4096) as byte, (0x80 + n / 64 % 64) as byte, (0x80 + n % 64) as byte]
    else [(0xF0 + n / 262144) as byte, (0x80 + n / 4096 % 64) as byte, (0x80 + n / 64 % 64) as byte, (0x80 + n % 64) as byte]
  }

  /** White space among bytes is what is white space among characters. */
  lemma SpaceAgrees(c: char)
    ensures |Utf8(c)| == ByteLen([c])
    ensures IsSpace(c) <==> LeadingSpace(Utf8(c)) > 0
    ensures IsSpace(c) ==> LeadingSpace(Utf8(c)) == |Utf8(c)|
  {
    assert [c][1..] == [];
    if c as int < 0x80 {
      NarrowSpace(c);
    } else if c as int < 0x800 {
      assert LeadingSpace(Utf8(c)) > 0 <==> c == '\U{85}' || c == '\U{A0}';
    } else {
      WideSpace(c);
    }
  }

  lemma NarrowSpace(c: char)
    requires c as int < 0x80
    ensures LeadingSpace(Utf8(c)) == if IsSpace(c) then 1 else 0
  {
  }

  lemma WideSpace(c: char)
    requires c as int >= 0x800
    ensures LeadingSpace(Utf8(c)) == if IsSpace(c) then 3 else 0
  {
    var n := c as int;
    if n < 0x1_0000 {
      assert n == 4096 * (n / 4096) + 64 * (n / 64 % 64) + n % 64;
    }
  }

  function TrailingSpace(s: Bytes): (n: nat)
    ensures n <= |s|
  {
    if 1 <= |s| && IsSpaceAt(s, |s| - 1, 1) then 1
    else if 2 <= |s| && IsSpaceAt(s, |s| - 2, 2) then 2
    else if 3 <= |s| && IsSpaceAt(s, |s| - 3, 3) then 3
    else 0
  }

  function TrimFront(s: Bytes): Bytes {
    if LeadingSpace(s) == 0 then s else TrimFront(s[LeadingSpace(s)..])
  }

  function TrimBack(s: Bytes): Bytes {
    if TrailingSpace(s) == 0 then s else TrimBack(s[..|s| - TrailingSpace(s)])
  }

  function Trim(s: Bytes): Bytes {
    TrimBack(TrimFront(s))
  }

  /** Bytes that spell white space from front to back. */
  ghost predicate Spaces(s: Bytes)
    decreases |s|
  {
    s == [] || (LeadingSpace(s) > 0 && Spaces(s[LeadingSpace(s)..]))
  }

  ghost predicate SpacesBack(s: Bytes)
    decreases |s|
  {
    s == [] || (TrailingSpace(s) > 0 && SpacesBack(s[..|s| - TrailingSpace(s)]))
  }

  /** The character at an end does not depend on what is at the other. */
  lemma LeadingAlone(s: Bytes, t: Bytes)
    requires LeadingSpace(s) > 0
    ensures LeadingSpace(s[..LeadingSpace(s)] + t) == LeadingSpace(s)
  {
    var n := LeadingSpace(s);
    var u := s[..n] + t;
    assert forall i :: 0 <= i < n ==> u[i] == s[i];
  }

  lemma TrailingAlone(s: Bytes, t: Bytes)
    requires TrailingSpace(s) > 0
    ensures TrailingSpace(t + s[|s| - TrailingSpace(s)..]) == TrailingSpace(s)
  {
    var n := TrailingSpace(s);
    var u := t + s[|s| - n..];
    assert forall j :: |t| <= j < |u| ==> u[j] == s[j - |t| + |s| - n];
  }

  lemma {:induction false} TrimFrontExact(s: Bytes) returns (a: Bytes)
    ensures s == a + TrimFront(s) && Spaces(a) && LeadingSpace(TrimFront(s)) == 0
    decreases |s|
  {
    var n := LeadingSpace(s);
    if n == 0 {
      a := [];
      AppendEmpty(s);
    } else {
      var t := s[n..];
      var rest := TrimFrontExact(t);
      a := s[..n] + rest;
      assert s == s[..n] + t;
      AppendAssoc(s[..n], rest, TrimFront(t));
      assert Spaces(a) by {
        LeadingAlone(s, rest);
        assert a[n..] == rest;
      }
    }
  }

  lemma {:induction false} TrimBackExact(s: Bytes) returns (b: Bytes)
    ensures s == TrimBack(s) + b && SpacesBack(b) && TrailingSpace(TrimBack(s)) == 0
    decreases |s|
  {
    var n := TrailingSpace(s);
    if n == 0 {
      b := [];
      AppendEmpty(s);
    } else {
      var t, end := s[..|s| - n], s[|s| - n..];
      var rest := TrimBackExact(t);
      b := rest + end;
      assert s == t + end;
      AppendAssoc(TrimBack(t), rest, end);
      assert SpacesBack(b) by {
        TrailingAlone(s, rest);
        assert b[..|b| - n] == rest;
      }
    }
  }

  /** Trimming takes white space off both ends until there is none. */
  lemma TrimExact(s: Bytes) returns (a: Bytes, b: Bytes)
    ensures s == a + Trim(s) + b && Spaces(a) && SpacesBack(b) && TrailingSpace(Trim(s)) == 0
    ensures LeadingSpace(Trim(s)) == 0
  {
    a := TrimFrontExact(s);
    b := TrimBackExact(TrimFront(s));
    AppendAssoc(a, Trim(s), b);
    FrontStays(TrimFront(s));
  }

  /** Taking white space off the back does not uncover any at the front. */
  lemma {:induction false} FrontStays(s: Bytes)
    requires LeadingSpace(s) == 0
    ensures LeadingSpace(TrimBack(s)) == 0
    decreases |s|
  {
    var n := TrailingSpace(s);
    if n > 0 {
      var t := s[..|s| - n];
      assert LeadingSpace(t) == 0;
      FrontStays(t);
    }
  }

  lemma {:induction false} TrimFrontCR(s: Bytes)
    ensures TrimFront(s + [CR]) == if TrimFront(s) == [] then [] else TrimFront(s) + [CR]
  {
    if s == [] {
      assert s + [CR] == [CR];
      assert [CR][1..] == [];
    } else {
      var n := LeadingSpace(s);
      assert LeadingSpace(s + [CR]) == n;
      if n > 0 {
        assert (s + [CR])[n..] == s[n..] + [CR];
        TrimFrontCR(s[n..]);
      }
    }
  }

  /** A carriage return before the newline makes no difference. */
  lemma TrimCR(s: Bytes)
    ensures Trim(s + [CR]) == Trim(s)
  {
    TrimFrontCR(s);
    var t := TrimFront(s);
    if t != [] {
      assert TrailingSpace(t + [CR]) == 1;
      assert (t + [CR])[..|t|] == t;
    }
  }

  // ----- The reader

  datatype SliceErr = Nil | BufferFull | Ended

  /** A buffered reader: `ReadSlice` may cut the stream anywhere before the next newline. */
  class Reader {
    var rest: Bytes
    const end: End

    constructor (stream: Bytes, end: End)
      ensures rest == stream && this.end == end
    {
      rest, this.end := stream, end;
    }

    method ReadSlice() returns (part: Bytes, err: SliceErr)
      modifies this
      ensures part + rest == old(rest)
      ensures match err
        case Nil => part != [] && NoNewline(part[..|part| - 1]) && part[|part| - 1] == LF
        case BufferFull => part != [] && NoNewline(part)
        case Ended => rest == [] && NoNewline(part)
    {
      var k := LineEnd(rest);
      var cut: bool := *;
      if k > 0 && cut {
        var n :| 1 <= n <= k;
        part, err := rest[..n], BufferFull;
        assert part == rest[..k][..n];
      } else if k < |rest| {
        part, err := rest[..k + 1], Nil;
        assert part[..k] == rest[..k];
      } else {
        part, err := rest, Ended;
        assert rest[..k] == rest;
      }
      rest := rest[|part|..];
    }
  }

  /** A piece that ends in a newline completes the line. */
  lemma PieceEnds(s: Bytes, buf: Bytes, part: Bytes, tail: Bytes)
    requires s == buf + (part + tail) && NoNewline(buf)
    requires part != [] && NoNewline(part[..|part| - 1]) && part[|part| - 1] == LF
    ensures LineEnd(s) == |buf| + |part| - 1
    ensures s[..LineEnd(s)] == buf + part[..|part| - 1] && s[LineEnd(s) + 1..] == tail
  {
    var k := |buf| + |part| - 1;
    assert s[..k] == buf + part[..|part| - 1];
    LineEndUnique(s, k);
  }

  lemma PieceGoesOn(s: Bytes, buf: Bytes, part: Bytes, tail: Bytes)
    requires s == buf + (part + tail) && NoNewline(buf) && NoNewline(part)
    ensures LineEnd(s) == |buf| + |part| + LineEnd(tail)
    ensures NoNewline(buf + part) && s == (buf + part) + tail
  {
    assert s == (buf + part) + tail;
    LineEndPast(buf + part, tail);
  }

  datatype LineResult = Line(bytes: Bytes) | LineTooLarge | LineUnexpectedEof | LineEnded

  /** What reading one line from the whole stream amounts to, before the carriage return is looked at. */
  function LineSpec(s: Bytes, end: End, max: nat): LineResult {
    var k := LineEnd(s);
    if k < |s| then (if k <= max then Line(s[..k]) else LineTooLarge)
    else if |s| > max + 1 then LineTooLarge
    else if s != [] && end.Eof? then LineUnexpectedEof
    else LineEnded
  }

  /**
   The outcome of reading a line, in terms of where newlines are: a line is accepted exactly when a newline
   comes within the first max + 1 bytes; without one, more bytes than that are too many, and fewer are an
   unexpected or an ordinary end.
   */
  lemma LineExact(s: Bytes, end: End, max: nat)
    ensures var r := LineSpec(s, end, max);
      && (r.Line? <==> exists k :: 0 <= k <= max && k < |s| && s[k] == LF)
      && (r.Line? ==> |r.bytes| <= max && |r.bytes| < |s| && r.bytes <= s && NoNewline(r.bytes) && s[|r.bytes|] == LF)
      && (r.LineTooLarge? <==> |s| > max + 1 && NoNewline(s[..max + 1]))
      && (r.LineUnexpectedEof? <==> NoNewline(s) && 1 <= |s| <= max + 1 && end.Eof?)
      && (r.LineEnded? <==> NoNewline(s) && |s| <= max + 1 && (s == [] || end.Broken?))
  {
    var k := LineEnd(s);
    assert forall i :: 0 <= i < k ==> s[i] == s[..k][i] && s[i] != LF;
    assert k == |s| ==> s[..k] == s;
    if k < |s| {
      assert s[k] in s;
    }
    if |s| > max + 1 {
      assert forall i :: 0 <= i <= max ==> s[..max + 1][i] == s[i];
      if k <= max {
        assert s[..max + 1][k] == LF;
      }
    }
  }

  /** The same outcome; a line may have lost one carriage return at its end. */
  ghost predicate SameLine(r: LineResult, spec: LineResult) {
    if spec.Line? then r.Line? && (r == spec || r.bytes + [CR] == spec.bytes) else r == spec
  }

  /** The line without its newline, and without a carriage return that came in the same piece. */
  method Completed(buf: Bytes, part: Bytes) returns (line: Bytes)
    requires part != [] && part[|part| - 1] == LF
    ensures |line| < |buf| + |part|
    ensures line == buf + part[..|part| - 1] || line + [CR] == buf + part[..|part| - 1]
  {
    var n := |part| - 1;
    if n > 0 && part[n - 1] == CR {
      n := n - 1;
      assert part[..n + 1] == part[..n] + [CR];
    }
    line := buf + part[..n];
  }

  /**
   Reads one line of at most `max` bytes. However the stream is cut, the outcome is that of looking
   for the first newline in the whole stream, and never more than max + 1 bytes are held.
   */
  method ReadLineLimited(r: Reader, max: nat) returns (res: LineResult)
    modifies r
    ensures SameLine(res, LineSpec(old(r.rest), r.end, max))
    ensures res.Line? ==> r.rest == Rest(old(r.rest))
    ensures res.LineUnexpectedEof? || res.LineEnded? ==> r.rest == []
  {
    ghost var s := r.rest;
    var buf: Bytes := [];
    while true
      invariant s == buf + r.rest && NoNewline(buf) && |buf| <= max + 1
      decreases |r.rest|
    {
      var part, err := r.ReadSlice();
      if err.Nil? {
        PieceEnds(s, buf, part, r.rest);
      } else {
        PieceGoesOn(s, buf, part, r.rest);
      }
      if |buf| + |part| > max + 1 {
        return LineTooLarge;
      }
      if err.BufferFull? {
        buf := buf + part;
        continue;
      }
      if err.Ended? {
        if r.end.Eof? && |buf| + |part| > 0 {
          return LineUnexpectedEof;
        }
        return LineEnded;
      }
      buf := Completed(buf, part);
      assert |buf| <= max;  // the source checks the size once more here
      return Line(buf);
    }
  }

  // ----- Messages

  datatype ReadResult = Msg(m: Message) | Malformed | TooLarge | UnexpectedEof | StreamEnded

  type Unmarshal = Bytes -> Option<Message>
  type Marshal = Message -> Option<Bytes>

  function Limit(max: int): nat {
    if max <= 0 then MAX_MESSAGE_SIZE else max
  }

  function Decode(line: Bytes, unmarshal: Unmarshal): ReadResult {
    if Trim(line) == [] then Malformed
    else
      match unmarshal(Trim(line))
      case None => Malformed
      case Some(m) => if ValidEnvelope(m) then Msg(m) else Malformed
  }

  /** A line is a message exactly when it decodes, without surrounding space, to one with a valid envelope. */
  lemma DecodeExact(line: Bytes, unmarshal: Unmarshal)
    ensures forall m :: Decode(line, unmarshal) == Msg(m) <==>
      && Trim(line) != [] && unmarshal(Trim(line)) == Some(m)
      && m.typ != "" && m.id != "" && ByteLen(m.id) <= 128 && m.timestamp != 0
    ensures Decode(line, unmarshal).Msg? || Decode(line, unmarshal).Malformed?
  {
  }

  /** Reading one message, as a function of the stream alone. */
  function ReadSpec(s: Bytes, end: End, max: int, unmarshal: Unmarshal): ReadResult {
    match LineSpec(s, end, Limit(max))
    case Line(bytes) => Decode(bytes, unmarshal)
    case LineTooLarge => TooLarge
    case LineUnexpectedEof => UnexpectedEof
    case LineEnded => StreamEnded
  }

  /** The frame handed to the decoder does not depend on how the stream was cut. */
  method Read(r: Reader, max: int, unmarshal: Unmarshal) returns (res: ReadResult)
    modifies r
    ensures res == ReadSpec(old(r.rest), r.end, max, unmarshal)
    ensures res.Msg? || res.Malformed? ==>
      LineEnd(old(r.rest)) < |old(r.rest)| && r.rest == Rest(old(r.rest))
    ensures res.UnexpectedEof? || res.StreamEnded? ==> r.rest == []
  {
    ghost var s := r.rest;
    var line := ReadLineLimited(r, Limit(max));
    match line
    case LineTooLarge => res := TooLarge;
    case LineUnexpectedEof => res := UnexpectedEof;
    case LineEnded => res := StreamEnded;
    case Line(bytes) =>
      TrimCR(bytes);
      res := Decode(bytes, unmarshal);
  }

  const MAX_MALFORMED := 5

  /** What follows the first line. */
  function Rest(s: Bytes): (r: Bytes)
    ensures s != [] ==> |r| < |s|
  {
    if LineEnd(s) < |s| then s[LineEnd(s) + 1..] else []
  }

  /** What a session's read loop delivers, and the part of the stream at which it makes its last read. */
  datatype Session = Session(delivered: seq<Message>, last: Bytes)

  function Deliver(ms: seq<Message>, s: Session): Session {
    s.(delivered := ms + s.delivered)
  }

  /** The read loop, having just met `malformed` bad frames in a row. */
  function LoopSpec(s: Bytes, end: End, max: int, unmarshal: Unmarshal, malformed: nat): Session
    decreases |s|
  {
    if LineEnd(s) == |s| then Session([], s)
    else
      match ReadSpec(s, end, max, unmarshal)
      case Msg(m) => Deliver([m], LoopSpec(Rest(s), end, max, unmarshal, 0))
      case Malformed =>
        if malformed + 1 >= MAX_MALFORMED then Session([], s)
        else LoopSpec(Rest(s), end, max, unmarshal, malformed + 1)
      case _ => Session([], s)
  }

  /** One turn of the read loop. */
  lemma LoopTurn(s: Bytes, end: End, max: int, unmarshal: Unmarshal, malformed: nat)
    ensures LoopSpec(s, end, max, unmarshal, malformed) ==
      match ReadSpec(s, end, max, unmarshal)
      case Msg(m) => Deliver([m], LoopSpec(Rest(s), end, max, unmarshal, 0))
      case Malformed =>
        if malformed + 1 >= MAX_MALFORMED then Session([], s)
        else LoopSpec(Rest(s), end, max, unmarshal, malformed + 1)
      case _ => Session([], s)
  {
  }

  lemma DeliverAppend(a: seq<Message>, b: seq<Message>, s: Session)
    ensures Deliver(a, Deliver(b, s)) == Deliver(a + b, s)
  {
    AppendAssoc(a, b, s.delivered);
  }

  lemma DeliverNone(s: Session)
    ensures Deliver([], s) == s
  {
  }

  /** The same, with what has been delivered so far in front. */
  lemma TurnBehind(done: seq<Message>, s: Bytes, end: End, max: int, unmarshal: Unmarshal, malformed: nat)
    ensures Deliver(done, LoopSpec(s, end, max, unmarshal, malformed)) ==
      match ReadSpec(s, end, max, unmarshal)
      case Msg(m) => Deliver(done + [m], LoopSpec(Rest(s), end, max, unmarshal, 0))
      case Malformed =>
        if malformed + 1 >= MAX_MALFORMED then Session(done, s)
        else Deliver(done, LoopSpec(Rest(s), end, max, unmarshal, malformed + 1))
      case _ => Session(done, s)
  {
    LoopTurn(s, end, max, unmarshal, malformed);
    if ReadSpec(s, end, max, unmarshal).Msg? {
      DeliverAppend(done, [ReadSpec(s, end, max, unmarshal).m], LoopSpec(Rest(s), end, max, unmarshal, 0));
    }
    assert done + [] == done;
  }

  /** The read loop of a session: delivers messages until the stream or its patience ends, and has used
      up the stream if that ended. */
  method ReadLoop(r: Reader, max: int, unmarshal: Unmarshal) returns (delivered: seq<Message>)
    modifies r
    ensures delivered == LoopSpec(old(r.rest), r.end, max, unmarshal, 0).delivered
    ensures ReadSpec(LoopSpec(old(r.rest), r.end, max, unmarshal, 0).last, r.end, max, unmarshal).StreamEnded?
      ==> r.rest == []
  {
    ghost var whole := LoopSpec(r.rest, r.end, max, unmarshal, 0);
    var malformed: nat := 0;
    delivered := [];
    DeliverNone(whole);
    while true
      invariant whole == Deliver(delivered, LoopSpec(r.rest, r.end, max, unmarshal, malformed))
      decreases |r.rest|
    {
      ghost var s := r.rest;
      var res := Read(r, max, unmarshal);
      TurnBehind(delivered, s, r.end, max, unmarshal, malformed);
      match res
      case Msg(m) =>
        malformed := 0;
        delivered := delivered + [m];
      case Malformed =>
        malformed := malformed + 1;
        if malformed >= MAX_MALFORMED {
          return;
        }
      case _ =>
        return;
    }
  }

  function Encode(m: Message, marshal: Marshal): Option<Bytes> {
    match marshal(m)
    case None => None
    case Some(data) => if |data| > MAX_MESSAGE_SIZE then None else Some(data + [LF])
  }

  function EncodeAll(ms: seq<Message>, marshal: Marshal): Bytes
    requires forall m :: m in ms ==> Encode(m, marshal).Some?
  {
    if ms == [] then [] else Encode(ms[0], marshal).value + EncodeAll(ms[1..], marshal)
  }

  /** JSON as this protocol needs it: it round trips, on one line, without surrounding space. */
  ghost predicate GoodCodec(marshal: Marshal, unmarshal: Unmarshal) {
    forall m :: marshal(m).Some? ==>
      var data := marshal(m).value;
      data != [] && NoNewline(data) && Trim(data) == data && unmarshal(data) == Some(m)
  }

  /** A reader takes the message if it fits its own limit, which may be below that of the sender. */
  predicate Fits(m: Message, max: int, marshal: Marshal)
    requires Encode(m, marshal).Some?
  {
    |Encode(m, marshal).value| <= Limit(max) + 1
  }

  /** Reading an encoded message gives it back exactly when it fits; otherwise it is too large. */
  lemma FrameRoundTrip(m: Message, tail: Bytes, end: End, max: int, marshal: Marshal, unmarshal: Unmarshal)
    requires GoodCodec(marshal, unmarshal) && ValidEnvelope(m) && Encode(m, marshal).Some?
    ensures var s := Encode(m, marshal).value + tail;
      && LineEnd(s) + 1 == |Encode(m, marshal).value| && Rest(s) == tail
      && ReadSpec(s, end, max, unmarshal) == if Fits(m, max, marshal) then Msg(m) else TooLarge
  {
    var data := marshal(m).value;
    var s := data + [LF] + tail;
    assert s[..|data|] == data;
    LineEndUnique(s, |data|);
    assert s[|data| + 1..] == tail;
  }

  lemma LoopStep(m: Message, tail: Bytes, end: End, max: int, bad: nat, marshal: Marshal, unmarshal: Unmarshal)
    requires GoodCodec(marshal, unmarshal) && ValidEnvelope(m) && Encode(m, marshal).Some?
    ensures var s := Encode(m, marshal).value + tail;
      LoopSpec(s, end, max, unmarshal, bad)
      == if Fits(m, max, marshal) then Deliver([m], LoopSpec(tail, end, max, unmarshal, 0)) else Session([], s)
  {
    FrameRoundTrip(m, tail, end, max, marshal, unmarshal);
    LoopTurn(Encode(m, marshal).value + tail, end, max, unmarshal, bad);
  }

  ghost predicate Sendable(ms: seq<Message>, marshal: Marshal) {
    forall m :: m in ms ==> ValidEnvelope(m) && Encode(m, marshal).Some?
  }

  /** How many messages come before the first that does not fit. */
  function Fitting(ms: seq<Message>, max: int, marshal: Marshal): (k: nat)
    requires forall m :: m in ms ==> Encode(m, marshal).Some?
    ensures k <= |ms|
    ensures forall i :: 0 <= i < k ==> Fits(ms[i], max, marshal)
    ensures k < |ms| ==> !Fits(ms[k], max, marshal)
  {
    if ms == [] || !Fits(ms[0], max, marshal) then 0 else 1 + Fitting(ms[1..], max, marshal)
  }

  lemma AllFit(ms: seq<Message>, max: int, marshal: Marshal)
    requires forall m :: m in ms ==> Encode(m, marshal).Some?
    ensures Fitting(ms, max, marshal) == |ms| <==> forall m :: m in ms ==> Fits(m, max, marshal)
  {
    var k := Fitting(ms, max, marshal);
    assert k < |ms| ==> ms[k] in ms;
    if k == |ms| {
      forall m | m in ms ensures Fits(m, max, marshal) {
        var i :| 0 <= i < |ms| && ms[i] == m;
      }
    }
  }

  /** Messages that fit are delivered, and the loop goes on behind them. */
  lemma {:induction false} FittingRoundTrip(ms: seq<Message>, tail: Bytes, end: End, max: int, bad: nat,
                                            marshal: Marshal, unmarshal: Unmarshal)
    requires GoodCodec(marshal, unmarshal) && Sendable(ms, marshal)
    requires forall m :: m in ms ==> Fits(m, max, marshal)
    ensures LoopSpec(EncodeAll(ms, marshal) + tail, end, max, unmarshal, bad)
         == Deliver(ms, LoopSpec(tail, end, max, unmarshal, if ms == [] then bad else 0))
    decreases |ms|
  {
    if ms == [] {
      AppendEmpty(tail);
      DeliverNone(LoopSpec(tail, end, max, unmarshal, bad));
    } else {
      var first, rest := Encode(ms[0], marshal).value, EncodeAll(ms[1..], marshal);
      AppendAssoc(first, rest, tail);
      LoopStep(ms[0], rest + tail, end, max, bad, marshal, unmarshal);
      FittingRoundTrip(ms[1..], tail, end, max, 0, marshal, unmarshal);
      DeliverAppend([ms[0]], ms[1..], LoopSpec(tail, end, max, unmarshal, 0));
      assert [ms[0]] + ms[1..] == ms;
    }
  }

  lemma {:induction false} EncodeAllSplit(ms: seq<Message>, k: nat, marshal: Marshal)
    requires k <= |ms| && forall m :: m in ms ==> Encode(m, marshal).Some?
    ensures EncodeAll(ms, marshal) == EncodeAll(ms[..k], marshal) + EncodeAll(ms[k..], marshal)
  {
    if k == 0 {
      assert ms[0..] == ms && ms[..0] == [];
    } else {
      EncodeAllSplit(ms[1..], k - 1, marshal);
      assert ms[..k][1..] == ms[1..][..k - 1] && ms[k..] == ms[1..][k - 1..];
      AppendAssoc(Encode(ms[0], marshal).value, EncodeAll(ms[..k][1..], marshal), EncodeAll(ms[k..], marshal));
    }
  }

  /**
   Stream round trip: reading the concatenated encodings of envelope-valid messages delivers exactly
   these messages and then whatever follows them in the stream; or, if one does not fit the reader's
   limit, exactly those before the first such.
   */
  lemma StreamRoundTrip(ms: seq<Message>, tail: Bytes, end: End, max: int, bad: nat,
                        marshal: Marshal, unmarshal: Unmarshal)
    requires GoodCodec(marshal, unmarshal) && Sendable(ms, marshal)
    ensures var k, s := Fitting(ms, max, marshal), EncodeAll(ms, marshal) + tail;
      LoopSpec(s, end, max, unmarshal, bad)
      == if k == |ms| then Deliver(ms, LoopSpec(tail, end, max, unmarshal, if ms == [] then bad else 0))
         else Session(ms[..k], EncodeAll(ms[k..], marshal) + tail)
  {
    var k := Fitting(ms, max, marshal);
    if k == |ms| {
      AllFit(ms, max, marshal);
      FittingRoundTrip(ms, tail, end, max, bad, marshal, unmarshal);
    } else {
      MisfitStops(ms, k, tail, end, max, bad, marshal, unmarshal);
    }
  }

  lemma MisfitStops(ms: seq<Message>, k: nat, tail: Bytes, end: End, max: int, bad: nat,
                    marshal: Marshal, unmarshal: Unmarshal)
    requires GoodCodec(marshal, unmarshal) && Sendable(ms, marshal)
    requires k < |ms| && !Fits(ms[k], max, marshal) && forall m :: m in ms[..k] ==> Fits(m, max, marshal)
    ensures LoopSpec(EncodeAll(ms, marshal) + tail, end, max, unmarshal, bad)
         == Session(ms[..k], EncodeAll(ms[k..], marshal) + tail)
  {
    var last, rest := EncodeAll(ms[k..], marshal) + tail, EncodeAll(ms[k..][1..], marshal);
    EncodeAllSplit(ms, k, marshal);
    AppendAssoc(EncodeAll(ms[..k], marshal), EncodeAll(ms[k..], marshal), tail);
    FittingRoundTrip(ms[..k], last, end, max, bad, marshal, unmarshal);
    AppendAssoc(Encode(ms[k], marshal).value, rest, tail);
    LoopStep(ms[k], rest + tail, end, max, if k == 0 then bad else 0, marshal, unmarshal);
    assert ms[..k] + [] == ms[..k];
  }

  /** With nothing behind them and room for each, the messages are all that is delivered, and the
      last read finds the stream used up. */
  lemma WholeStreamRoundTrip(ms: seq<Message>, end: End, max: int, marshal: Marshal, unmarshal: Unmarshal)
    requires GoodCodec(marshal, unmarshal) && Sendable(ms, marshal)
    ensures LoopSpec(EncodeAll(ms, marshal), end, max, unmarshal, 0) == Session(ms, [])
       <==> forall m :: m in ms ==> Fits(m, max, marshal)
    ensures ReadSpec([], end, max, unmarshal) == StreamEnded
  {
    EmptyStream(end, max, unmarshal);
    AllFit(ms, max, marshal);
    WholeStream(ms, end, max, marshal, unmarshal);
  }

  lemma EmptyStream(end: End, max: int, unmarshal: Unmarshal)
    ensures LoopSpec([], end, max, unmarshal, 0) == Session([], []) && ReadSpec([], end, max, unmarshal) == StreamEnded
  {
  }

  lemma WholeStream(ms: seq<Message>, end: End, max: int, marshal: Marshal, unmarshal: Unmarshal)
    requires GoodCodec(marshal, unmarshal) && Sendable(ms, marshal)
    ensures LoopSpec(EncodeAll(ms, marshal), end, max, unmarshal, 0) == Session(ms, []) <==> Fitting(ms, max, marshal) == |ms|
  {
    var k, got := Fitting(ms, max, marshal), LoopSpec(EncodeAll(ms, marshal), end, max, unmarshal, 0);
    AppendEmpty(EncodeAll(ms, marshal));
    StreamRoundTrip(ms, [], end, max, 0, marshal, unmarshal);
    if k == |ms| {
      EmptyStream(end, max, unmarshal);
      AppendEmpty(ms);
    } else {
      assert |got.delivered| == k;
    }
  }

  /** Under the default limit, or a larger one, every stream that could be sent is delivered whole. */
  lemma DefaultRoundTrip(ms: seq<Message>, end: End, max: int, marshal: Marshal, unmarshal: Unmarshal)
    requires GoodCodec(marshal, unmarshal) && Sendable(ms, marshal) && (max <= 0 || max >= MAX_MESSAGE_SIZE)
    ensures LoopSpec(EncodeAll(ms, marshal), end, max, unmarshal, 0) == Session(ms, [])
  {
    WholeStreamRoundTrip(ms, end, max, marshal, unmarshal);
  }

  // ----- What is delivered, and when the loop gives up

  /** Nothing is delivered that did not decode to a message with a valid envelope. */
  lemma {:induction false} DeliveredAreValid(s: Bytes, end: End, max: int, unmarshal: Unmarshal, malformed: nat)
    ensures forall m :: m in LoopSpec(s, end, max, unmarshal, malformed).delivered ==>
      m.typ != "" && m.id != "" && ByteLen(m.id) <= 128 && m.timestamp != 0
    decreases |s|
  {
    if LineEnd(s) < |s| {
      DeliveredAreValid(Rest(s), end, max, unmarshal, 0);
      DeliveredAreValid(Rest(s), end, max, unmarshal, malformed + 1);
    }
  }

  /** Lines that fit and do not decode to a message. */
  ghost predicate BadLine(line: Bytes, max: int, unmarshal: Unmarshal) {
    NoNewline(line) && |line| <= Limit(max) && Decode(line, unmarshal).Malformed?
  }

  function Ended(lines: seq<Bytes>): Bytes {
    if lines == [] then [] else lines[0] + [LF] + Ended(lines[1..])
  }

  lemma BadLineStep(line: Bytes, tail: Bytes, end: End, max: int, unmarshal: Unmarshal, malformed: nat)
    requires BadLine(line, max, unmarshal)
    ensures var s := line + [LF] + tail;
      LoopSpec(s, end, max, unmarshal, malformed)
      == if malformed + 1 >= 5 then Session([], s) else LoopSpec(tail, end, max, unmarshal, malformed + 1)
  {
    var s := line + [LF] + tail;
    assert s[..|line|] == line;
    LineEndUnique(s, |line|);
    assert s[|line| + 1..] == tail;
    LoopTurn(s, end, max, unmarshal, malformed);
  }

  /** The same in front of more bad lines. */
  lemma BadLinesStep(lines: seq<Bytes>, tail: Bytes, end: End, max: int, unmarshal: Unmarshal, malformed: nat)
    requires lines != [] && BadLine(lines[0], max, unmarshal)
    ensures LoopSpec(Ended(lines) + tail, end, max, unmarshal, malformed)
         == if malformed + 1 >= 5 then Session([], Ended(lines) + tail)
            else LoopSpec(Ended(lines[1..]) + tail, end, max, unmarshal, malformed + 1)
  {
    AppendAssoc(lines[0] + [LF], Ended(lines[1..]), tail);
    BadLineStep(lines[0], Ended(lines[1..]) + tail, end, max, unmarshal, malformed);
  }

  ghost predicate BadLines(lines: seq<Bytes>, max: int, unmarshal: Unmarshal)
    decreases |lines|
  {
    lines == [] || (BadLine(lines[0], max, unmarshal) && BadLines(lines[1..], max, unmarshal))
  }

  lemma BadLineSkipped(lines: seq<Bytes>, s: Bytes, rest: Bytes, tail: Bytes, end: End, max: int, unmarshal: Unmarshal, malformed: nat)
    requires lines != [] && BadLine(lines[0], max, unmarshal) && malformed + 1 < 5
    requires s == Ended(lines) + tail && rest == Ended(lines[1..]) + tail
    ensures LoopSpec(s, end, max, unmarshal, malformed) == LoopSpec(rest, end, max, unmarshal, malformed + 1)
  {
    BadLinesStep(lines, tail, end, max, unmarshal, malformed);
  }

  /** Fewer than five bad lines in a row are skipped. */
  lemma {:induction false} BadLinesSkipped(lines: seq<Bytes>, s: Bytes, tail: Bytes, end: End, max: int, unmarshal: Unmarshal,
                                           malformed: nat, n: nat)
    requires BadLines(lines, max, unmarshal) && n == malformed + |lines| && n < 5 && s == Ended(lines) + tail
    ensures LoopSpec(s, end, max, unmarshal, malformed) == LoopSpec(tail, end, max, unmarshal, n)
    decreases |lines|
  {
    if lines == [] {
      AppendEmpty(tail);
      assert s == tail && n == malformed;
    } else {
      var rest := Ended(lines[1..]) + tail;
      BadLineSkipped(lines, s, rest, tail, end, max, unmarshal, malformed);
      BadLinesSkipped(lines[1..], rest, tail, end, max, unmarshal, malformed + 1, n);
    }
  }

  /** The fifth one ends the session, whatever follows. */
  lemma {:induction false} FifthBadLineEnds(lines: seq<Bytes>, tail: Bytes, end: End, max: int, unmarshal: Unmarshal, malformed: nat)
    requires BadLines(lines, max, unmarshal) && malformed < 5 <= malformed + |lines|
    ensures LoopSpec(Ended(lines) + tail, end, max, unmarshal, malformed).delivered == []
    decreases |lines|
  {
    BadLinesStep(lines, tail, end, max, unmarshal, malformed);
    if malformed + 1 < 5 {
      FifthBadLineEnds(lines[1..], tail, end, max, unmarshal, malformed + 1);
    }
  }
}
