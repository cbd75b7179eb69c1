/** Newline-framed JSON between host and plugin: a reader that sees the stream in whatever
    chunks its buffer delivers, against the one function of the whole stream. */
module Frames {
  import opened Prelude

  const MAX_FRAME_BYTES: nat := 8 * 1024 * 1024
  const PROTOCOL_VERSION: nat := 1
  const NEWLINE: byte := 10

  datatype Message = Message(protocolVersion: nat, requestId: string, body: string)

  datatype FrameError = TooLarge | Io | Json | Version(received: nat)

  datatype Codec = Codec(toJson: Message -> Option<Bytes>, fromJson: Bytes -> Option<Message>)

  /** Compact JSON: it decodes to what was encoded and holds no raw newline (section 7 of
      RFC 8259 has control characters escaped). */
  ghost predicate Lawful(c: Codec)
  {
    forall m :: c.toJson(m).Some? ==> c.fromJson(c.toJson(m).value) == Some(m) && NEWLINE !in c.toJson(m).value
  }

  /** What a reader may gather of one frame: the limit, and the newline. */
  type Buffer = b: Bytes | |b| <= MAX_FRAME_BYTES + 1

  // ----------------------------------------------------- the stream's meaning

  /** Length of the stream up to its first newline, or all of it. */
  function LineLength(s: Bytes): (n: nat)
    ensures n <= |s|
    ensures forall i :: 0 <= i < n ==> s[i] != NEWLINE
    ensures n < |s| ==> s[n] == NEWLINE
  {
    if s == [] || s[0] == NEWLINE then 0 else 1 + LineLength(s[1..])
  }

  function Parse(c: Codec, line: Bytes): Result<Option<Message>, FrameError>
  {
    match c.fromJson(line)
    case None => Err(Json)
    case Some(m) => if m.protocolVersion != PROTOCOL_VERSION then Err(Version(m.protocolVersion)) else Ok(Some(m))
  }

  /** The answer of one read, as a function of the whole stream. */
  function FrameOf(c: Codec, s: Bytes): Result<Option<Message>, FrameError>
  {
    var n := LineLength(s);
    if s == [] then Ok(None)
    else if n < |s| && n <= MAX_FRAME_BYTES then Parse(c, s[..n])
    else Err(TooLarge)
  }

  function RestOf(s: Bytes): Bytes
  {
    var n := LineLength(s);
    if n < |s| then s[n + 1..] else []
  }

  // ------------------------------------------------------------- the reader

  /** `BufRead` over a stream that arrives in arbitrary non-empty chunks. */
  class Reader {
    var chunks: seq<Bytes>

    constructor (chunks: seq<Bytes>)
      requires forall i :: 0 <= i < |chunks| ==> chunks[i] != []
      ensures Valid() && this.chunks == chunks
    {
      this.chunks := chunks;
    }

    ghost predicate Valid()
      reads this
    {
      forall i :: 0 <= i < |chunks| ==> chunks[i] != []
    }

    ghost function Contents(): Bytes
      reads this
    {
      Concat(chunks)
    }

    method FillBuf() returns (available: Bytes)
      requires Valid()
      ensures available == if chunks == [] then [] else chunks[0]
      ensures available == [] <==> Contents() == []
      ensures available <= Contents()
    {
      available := if chunks == [] then [] else chunks[0];
    }

    /** Drops `n` bytes of the chunk `FillBuf` showed. */
    method Consume(n: nat)
      requires Valid() && chunks != [] && n <= |chunks[0]|
      modifies this
      ensures Valid() && n <= |old(Contents())| && Contents() == old(Contents())[n..]
    {
      var first := chunks[0];
      if n == |first| {
        chunks := chunks[1..];
      } else {
        chunks := [first[n..]] + chunks[1..];
      }
    }
  }

  ghost function Concat(chunks: seq<Bytes>): Bytes
  {
    if chunks == [] then [] else chunks[0] + Concat(chunks[1..])
  }

  // ------------------------------------------------------------------ reading

  /** Between chunks: `encoded` is the stream so far, without a newline. */
  ghost predicate Gathering(stream: Bytes, encoded: Buffer, rest: Bytes)
  {
    stream == encoded + rest && NEWLINE !in encoded
  }

  lemma {:induction false} LineLengthIs(s: Bytes, n: nat)
    requires n <= |s| && (forall i :: 0 <= i < n ==> s[i] != NEWLINE)
    requires n < |s| ==> s[n] == NEWLINE
    ensures LineLength(s) == n
  {
    if s != [] && n > 0 {
      LineLengthIs(s[1..], n - 1);
    }
  }

  /** The next chunk with a newline in it ends the line. */
  lemma LineEnds(stream: Bytes, encoded: Bytes, rest: Bytes, n: nat)
    requires stream == encoded + rest && NEWLINE !in encoded
    requires n < |rest| && rest[n] == NEWLINE && NEWLINE !in rest[..n]
    ensures LineLength(stream) == |encoded| + n
    ensures stream[..|encoded| + n] == encoded + rest[..n]
    ensures RestOf(stream) == rest[n + 1..]
  {
    forall i | 0 <= i < |encoded| + n
      ensures stream[i] != NEWLINE
    {
      if i >= |encoded| {
        assert stream[i] == rest[..n][i - |encoded|];
      }
    }
    LineLengthIs(stream, |encoded| + n);
  }

  function FirstBytes(s: Bytes, n: nat): Bytes
  {
    if n <= |s| then s[..n] else s
  }

  /** The one reason for `TooLarge`: there are bytes left, and no newline in the first ones,
      up to one more than the limit. */
  lemma TooLargeIff(c: Codec, s: Bytes)
    ensures FrameOf(c, s) == Err(TooLarge) <==> s != [] && 10 !in FirstBytes(s, 8_388_609)
  {
    var n := LineLength(s);
    var first := FirstBytes(s, MAX_FRAME_BYTES + 1);
    assert forall i :: 0 <= i < |first| ==> first[i] == s[i];
    if n < |s| && n <= MAX_FRAME_BYTES {
      assert first[n] == NEWLINE;
    }
  }

  /** The first line is there, `n` bytes long, and within the limit of eight mebibytes. */
  ghost predicate HasLine(s: Bytes, n: nat)
  {
    n < |s| && n <= 8_388_608 && s[n] == 10 && 10 !in s[..n]
  }

  /** Every other answer of a read: nothing at the end of the stream; and from a first line
      within the limit, the message it decodes to, if it has the one version spoken. */
  lemma ReadAnswers(c: Codec, s: Bytes, n: nat)
    ensures FrameOf(c, s) == Ok(None) <==> s == []
    ensures HasLine(s, n) ==>
      var m := c.fromJson(s[..n]);
      FrameOf(c, s) ==
        if m.None? then Err(Json)
        else if m.value.protocolVersion == 1 then Ok(Some(m.value))
        else Err(Version(m.value.protocolVersion))
    ensures HasLine(s, n) ==> RestOf(s) == s[n + 1..]
  {
    if HasLine(s, n) {
      assert forall i :: 0 <= i < n ==> s[i] == s[..n][i];
      LineLengthIs(s, n);
    }
  }

  /** A run of more than the limit without a newline cannot be a frame. */
  lemma TooLongIsTooLarge(c: Codec, stream: Bytes, n: nat)
    requires MAX_FRAME_BYTES < n <= |stream| && NEWLINE !in stream[..n]
    ensures FrameOf(c, stream) == Err(TooLarge)
  {
    assert forall i :: 0 <= i < n ==> stream[..n][i] == stream[i];
  }

  /** The line is complete: `encoded` is the frame with its newline. */
  ghost predicate Completed(stream: Bytes, encoded: Buffer, rest: Bytes)
  {
    && encoded != []
    && LineLength(stream) == |encoded| - 1 < |stream|
    && stream == encoded + rest
  }

  ghost predicate FirstIn(s: Bytes, position: Option<nat>)
  {
    match position
    case None => NEWLINE !in s
    case Some(i) => i < |s| && s[i] == NEWLINE && NEWLINE !in s[..i]
  }

  lemma Overflows(c: Codec, stream: Bytes, encoded: Buffer, rest: Bytes, available: Bytes, position: Option<nat>)
    requires Gathering(stream, encoded, rest) && available <= rest && FirstIn(available, position)
    requires |encoded| + (if position.Some? then position.value + 1 else |available|) > MAX_FRAME_BYTES + 1
    ensures FrameOf(c, stream) == Err(TooLarge)
  {
    var k := if position.Some? then position.value else |available|;
    assert stream[..|encoded| + k] == encoded + available[..k];
    TooLongIsTooLarge(c, stream, |encoded| + k);
  }

  lemma Advances(stream: Bytes, encoded: Buffer, rest: Bytes, available: Bytes, position: Option<nat>)
    requires Gathering(stream, encoded, rest) && available <= rest && FirstIn(available, position)
    requires |encoded| + (if position.Some? then position.value + 1 else |available|) <= MAX_FRAME_BYTES + 1
    ensures var length := if position.Some? then position.value + 1 else |available|;
      && stream == (encoded + available[..length]) + rest[length..]
      && if position.Some? then Completed(stream, encoded + available[..length], rest[length..])
      else Gathering(stream, encoded + available[..length], rest[length..])
  {
    var length := if position.Some? then position.value + 1 else |available|;
    assert available[..length] == rest[..length];
    assert stream == (encoded + rest[..length]) + rest[length..];
    if position.Some? {
      assert rest[..position.value] == available[..position.value];
      LineEnds(stream, encoded, rest, position.value);
    }
  }

  lemma NothingLeft(c: Codec, stream: Bytes, encoded: Buffer)
    requires Gathering(stream, encoded, [])
    ensures encoded == [] ==> FrameOf(c, stream) == Ok(None) && RestOf(stream) == []
    ensures encoded != [] ==> FrameOf(c, stream) == Err(TooLarge)
  {
    assert stream == encoded;
    assert forall i :: 0 <= i < |stream| ==> stream[i] in encoded;
  }

  lemma LineIsRead(c: Codec, stream: Bytes, encoded: Buffer, rest: Bytes)
    requires Completed(stream, encoded, rest)
    ensures FrameOf(c, stream) == Parse(c, encoded[..|encoded| - 1]) && RestOf(stream) == rest
  {
    assert stream[..|encoded| - 1] == encoded[..|encoded| - 1];
  }

  method NewlineIn(s: Bytes) returns (position: Option<nat>)
    ensures FirstIn(s, position)
  {
    for i := 0 to |s|
      invariant NEWLINE !in s[..i]
    {
      if s[i] == NEWLINE {
        return Some(i);
      }
      assert s[..i + 1] == s[..i] + [s[i]];
    }
    assert s[..|s|] == s;
    return None;
  }

  /** Reads one frame. The answer depends on the stream alone, never on how it was cut into
      chunks. On every path, `encoded` is all that was taken from the stream, and it never
      holds more than one byte over the limit. */
  method ReadFrame(c: Codec, reader: Reader) returns (r: Result<Option<Message>, FrameError>, encoded: Buffer)
    requires reader.Valid()
    modifies reader
    ensures reader.Valid() && old(reader.Contents()) == encoded + reader.Contents()
    ensures r == FrameOf(c, old(reader.Contents()))
    ensures r != Err(TooLarge) ==> reader.Contents() == RestOf(old(reader.Contents()))
  {
    hide LineLength, FrameOf, RestOf, Gathering, Completed, FirstIn, Concat;
    ghost var stream := reader.Contents();
    encoded := [];
    var complete := false;
    StartsGathering(stream);
    while !complete
      invariant reader.Valid() && stream == encoded + reader.Contents()
      invariant if complete then Completed(stream, encoded, reader.Contents())
                else Gathering(stream, encoded, reader.Contents())
      decreases !complete, |reader.Contents()|
    {
      var available := reader.FillBuf();
      if available == [] {
        break;
      }
      ghost var rest := reader.Contents();
      var position := NewlineIn(available);
      InRange(available, position);
      var length := if position.Some? then position.value + 1 else |available|;
      if |encoded| + length > MAX_FRAME_BYTES + 1 {
        Overflows(c, stream, encoded, rest, available, position);
        return Err(TooLarge), encoded;
      }
      Advances(stream, encoded, rest, available, position);
      encoded := encoded + available[..length];
      reader.Consume(length);
      complete := position.Some?;
    }
    if !complete {
      NothingLeft(c, stream, encoded);
      r := if encoded == [] then Ok(None) else Err(TooLarge);
      return r, encoded;
    }
    LineIsRead(c, stream, encoded, reader.Contents());
    NonEmptyLine(stream, encoded, reader.Contents());
    var message := c.fromJson(encoded[..|encoded| - 1]);
    if message.None? {
      return Err(Json), encoded;
    }
    if message.value.protocolVersion != PROTOCOL_VERSION {
      return Err(Version(message.value.protocolVersion)), encoded;
    }
    return Ok(message), encoded;
  }

  lemma StartsGathering(stream: Bytes)
    ensures Gathering(stream, [], stream)
  {
    assert stream == [] + stream;
  }

  lemma InRange(s: Bytes, position: Option<nat>)
    requires FirstIn(s, position)
    ensures position.Some? ==> position.value < |s|
  {
  }

  lemma NonEmptyLine(stream: Bytes, encoded: Buffer, rest: Bytes)
    requires Completed(stream, encoded, rest)
    ensures encoded != []
  {
  }

  // ------------------------------------------------------------------ writing

  function Frame(c: Codec, m: Message): Bytes
    requires c.toJson(m).Some?
  {
    c.toJson(m).value + [NEWLINE]
  }

  predicate Fits(c: Codec, m: Message)
  {
    c.toJson(m).Some? && |c.toJson(m).value| <= MAX_FRAME_BYTES
  }

  /** A stream that takes `room` more bytes before it breaks, when it breaks at all, and that
      may fail to flush. */
  class Writer {
    var written: Bytes
    var room: Option<nat>
    const flushes: bool

    constructor (room: Option<nat>, flushes: bool)
      ensures written == [] && this.room == room && this.flushes == flushes
    {
      written, this.room, this.flushes := [], room, flushes;
    }

    predicate Takes(n: nat)
      reads this
    {
      room.Some? ==> n <= room.value
    }

    /** `write_all`: everything, or what there was room for and an error. */
    method WriteAll(bytes: Bytes) returns (ok: bool)
      modifies this
      ensures ok == old(Takes(|bytes|))
      ensures written == old(written) + if ok then bytes else bytes[..old(room).value]
      ensures room == if old(room).None? then None else Some(if ok then old(room).value - |bytes| else 0)
    {
      ok := Takes(|bytes|);
      if !ok {
        written := written + bytes[..room.value];
        room := Some(0);
        return;
      }
      written := written + bytes;
      if room.Some? {
        room := Some(room.value - |bytes|);
      }
    }

    /** A message that cannot be encoded or is too large is refused before a byte is written.
        Otherwise the whole frame is written, or, if the stream breaks, the part of it that
        there was room for; TornFrame is about what a reader makes of that. */
    method WriteFrame(c: Codec, m: Message) returns (r: Result<(), FrameError>)
      modifies this
      ensures r.Ok? <==> Fits(c, m) && old(Takes(|Frame(c, m)|)) && flushes
      ensures r.Err? ==> r.error == if c.toJson(m).None? then Json else if Fits(c, m) then Io else TooLarge
      ensures !Fits(c, m) ==> written == old(written)
      ensures Fits(c, m) ==> old(written) <= written <= old(written) + Frame(c, m)
      ensures Fits(c, m) ==>
        |written| == |old(written)| + if old(Takes(|Frame(c, m)|)) then |Frame(c, m)| else old(room).value
    {
      var json := c.toJson(m);
      if json.None? {
        return Err(Json);
      }
      var encoded := json.value;
      if |encoded| > MAX_FRAME_BYTES {
        return Err(TooLarge);
      }
      var ok := WriteAll(encoded);
      assert written <= old(written) + Frame(c, m);
      if !ok {
        return Err(Io);
      }
      ok := WriteAll([NEWLINE]);
      return if ok && flushes then Ok(()) else Err(Io);
    }
  }

  // --------------------------------------------------------------- round trip

  /** A frame is the JSON text and a newline; it is written when the text encodes and is
      within the limit. */
  lemma FrameIsLine(c: Codec, m: Message)
    ensures Fits(c, m) <==> c.toJson(m).Some? && |c.toJson(m).value| <= 8_388_608
    ensures c.toJson(m).Some? ==> Frame(c, m) == c.toJson(m).value + [10]
  {
  }

  predicate Writable(c: Codec, m: Message)
  {
    Fits(c, m) && m.protocolVersion == PROTOCOL_VERSION
  }

  /** Reading a written frame gives the message back and leaves exactly what followed it. */
  lemma ReadInvertsWrite(c: Codec, m: Message, rest: Bytes)
    requires Lawful(c) && Fits(c, m)
    ensures FrameOf(c, Frame(c, m) + rest) ==
      if m.protocolVersion == PROTOCOL_VERSION then Ok(Some(m)) else Err(Version(m.protocolVersion))
    ensures RestOf(Frame(c, m) + rest) == rest
  {
    var line := c.toJson(m).value;
    var s := Frame(c, m) + rest;
    assert forall i :: 0 <= i < |line| ==> s[i] == line[i] && line[i] in line;
    LineLengthIs(s, |line|);
    assert s[..|line|] == line;
    assert s[|line| + 1..] == rest;
  }

  ghost function Frames(c: Codec, ms: seq<Message>): Bytes
    requires forall i :: 0 <= i < |ms| ==> Writable(c, ms[i])
  {
    if ms == [] then [] else assert Writable(c, ms[0]); Frame(c, ms[0]) + Frames(c, ms[1..])
  }

  datatype Session = Session(messages: seq<Message>, end: Option<FrameError>)

  /** All reads of a stream up to its end or its first error. */
  function SessionOf(c: Codec, s: Bytes): Session
    decreases |s|
  {
    match FrameOf(c, s)
    case Err(e) => Session([], Some(e))
    case Ok(None) => Session([], None)
    case Ok(Some(m)) =>
      var later := SessionOf(c, RestOf(s));
      Session([m] + later.messages, later.end)
  }

  ghost function Prefixed(messages: seq<Message>, session: Session): Session
  {
    Session(messages + session.messages, session.end)
  }

  lemma PrefixedTwice(a: seq<Message>, b: seq<Message>, session: Session)
    ensures Prefixed(a, Prefixed(b, session)) == Prefixed(a + b, session)
    ensures Prefixed([], session) == session
  {
    assert a + (b + session.messages) == (a + b) + session.messages;
    assert [] + session.messages == session.messages;
  }

  lemma SessionStep(c: Codec, s: Bytes)
    ensures match FrameOf(c, s)
      case Err(e) => SessionOf(c, s) == Session([], Some(e))
      case Ok(None) => SessionOf(c, s) == Session([], None)
      case Ok(Some(m)) => |RestOf(s)| < |s| && SessionOf(c, s) == Prefixed([m], SessionOf(c, RestOf(s)))
  {
  }

  /** Any number of written messages, then anything: the session starts with exactly those
      messages and goes on with the rest. */
  lemma {:induction false} SessionOfFrames(c: Codec, ms: seq<Message>, rest: Bytes)
    requires Lawful(c) && forall i :: 0 <= i < |ms| ==> Writable(c, ms[i])
    ensures SessionOf(c, Frames(c, ms) + rest) == Prefixed(ms, SessionOf(c, rest))
    decreases |ms|
  {
    hide Lawful, Frame, SessionOf, FrameOf, RestOf, Prefixed;
    if ms == [] {
      assert Frames(c, ms) + rest == rest;
      PrefixedTwice([], [], SessionOf(c, rest));
    } else {
      var tail := Frames(c, ms[1..]) + rest;
      assert Frames(c, ms) + rest == Frame(c, ms[0]) + tail;
      assert Writable(c, ms[0]);
      ReadInvertsWrite(c, ms[0], tail);
      SessionStep(c, Frame(c, ms[0]) + tail);
      SessionOfFrames(c, ms[1..], rest);
      PrefixedTwice([ms[0]], ms[1..], SessionOf(c, rest));
      assert [ms[0]] + ms[1..] == ms;
    }
  }

  /** A stream that ends inside a frame is reported as too large, however short it is. */
  lemma TornFrame(c: Codec, ms: seq<Message>, m: Message, k: nat)
    requires Lawful(c) && forall i :: 0 <= i < |ms| ==> Writable(c, ms[i])
    requires c.toJson(m).Some? && 0 < k < |Frame(c, m)|
    ensures SessionOf(c, Frames(c, ms) + Frame(c, m)[..k]) == Session(ms, Some(TooLarge))
  {
    var torn := Frame(c, m)[..k];
    forall i | 0 <= i < |torn|
      ensures torn[i] != NEWLINE
    {
      assert torn[i] == c.toJson(m).value[i];
      assert c.toJson(m).value[i] in c.toJson(m).value;
    }
    LineLengthIs(torn, |torn|);
    SessionOfFrames(c, ms, torn);
    assert ms + [] == ms;
  }

  /** Reading to the end, one frame at a time: again a function of the stream alone. */
  method ReadSession(c: Codec, reader: Reader) returns (session: Session)
    requires reader.Valid()
    modifies reader
    ensures session == SessionOf(c, old(reader.Contents()))
  {
    hide FrameOf, RestOf, Concat, SessionOf, Prefixed;
    var messages: seq<Message> := [];
    ghost var whole := SessionOf(c, reader.Contents());
    PrefixedTwice([], [], whole);
    while true
      invariant reader.Valid()
      invariant whole == Prefixed(messages, SessionOf(c, reader.Contents()))
      decreases |reader.Contents()|
    {
      ghost var stream := reader.Contents();
      SessionStep(c, stream);
      var r, _ := ReadFrame(c, reader);
      if r.Err? || r.value.None? {
        session := Session(messages, if r.Err? then Some(r.error) else None);
        EndsHere(messages, session.end);
        return session;
      }
      var m := r.value.value;
      PrefixedTwice(messages, [m], SessionOf(c, RestOf(stream)));
      messages := messages + [m];
    }
  }

  lemma EndsHere(messages: seq<Message>, end: Option<FrameError>)
    ensures Prefixed(messages, Session([], end)) == Session(messages, end)
  {
  }
}
