/** The chunked transfer coding as `decode_chunked` reads it, against section
    7.1 of RFC 9112. */
module ChunkedBody {
  import opened Common
  import opened Bytes

  datatype ChunkError =
    | IncompleteSizeLine
    | NonUtf8Size
    | InvalidSize
    | IncompleteTrailers
    | TooLarge
    | IncompleteData

  /** The size a chunk-size line announces; an extension follows a semicolon. */
  function ChunkSize(line: bytes): Option<nat> {
    ParseUnsigned(Trim(Before(line, SEMICOLON)), 16, USIZE_MAX)
  }

  predicate BlankLineAt(s: bytes, i: nat) { CrlfAt(s, i) && CrlfAt(s, i + 2) }

  predicate HasBlankLine(s: bytes) { exists i: nat :: i < |s| && BlankLineAt(s, i) }

  /** What a chunk-size line says: a size, or why it says none. */
  function ReadSize(line: bytes): Result<nat, ChunkError> {
    if !ValidUtf8(line) then Err(NonUtf8Size)
    else match ChunkSize(line)
      case None => Err(InvalidSize)
      case Some(n) => Ok(n)
  }

  /** A decoded remainder, put after what was decoded before it. */
  function Prepend(front: bytes, r: Result<bytes, ChunkError>): Result<bytes, ChunkError> {
    match r
    case Err(error) => Err(error)
    case Ok(more) => Ok(front + more)
  }

  lemma PrependNothing(r: Result<bytes, ChunkError>)
    ensures Prepend([], r) == r
  {
    if r.Ok? { assert [] + r.value == r.value; }
  }

  lemma PrependTwice(a: bytes, b: bytes, r: Result<bytes, ChunkError>)
    ensures Prepend(a, Prepend(b, r)) == Prepend(a + b, r)
  {
    if r.Ok? { assert a + (b + r.value) == (a + b) + r.value; }
  }

  /** The body decoded from `input` when `room` more bytes are allowed. */
  function Decode(input: bytes, room: nat): Result<bytes, ChunkError>
    decreases |input|
  {
    match FirstCrlf(input)
    case None => Err(IncompleteSizeLine)
    case Some(e) =>
      match ReadSize(input[..e])
      case Err(error) => Err(error)
      case Ok(size) =>
        var rest := input[e + 2..];
        if size == 0 then
          if rest == CRLF || HasBlankLine(rest) then Ok([]) else Err(IncompleteTrailers)
        else if size > room then Err(TooLarge)
        else if |rest| < size + 2 || rest[size..size + 2] != CRLF then Err(IncompleteData)
        else Prepend(rest[..size], Decode(rest[size + 2..], room - size))
  }

  /** The decoding loop, with the input advanced and the body grown in place. */
  method DecodeChunked(encoded: bytes, limit: nat) returns (r: Result<bytes, ChunkError>)
    ensures r == Decode(encoded, limit)
  {
    hide ReadSize, HasBlankLine, FirstCrlf, NoCrlf;
    var input := encoded;
    var body: bytes := [];
    PrependNothing(Decode(encoded, limit));
    while true
      invariant |body| <= limit
      invariant Decode(encoded, limit) == Prepend(body, Decode(input, limit - |body|))
      decreases |input|
    {
      var lineEnd := FirstCrlf(input);
      if lineEnd.None? { return Err(IncompleteSizeLine); }
      var sizeText := input[..lineEnd.value];
      var read := ReadSize(sizeText);
      if read.Err? { return Err(read.error); }
      var size := read.value;
      input := input[lineEnd.value + 2..];
      if size == 0 {
        if input == CRLF || HasBlankLine(input) {
          assert body + [] == body;
          return Ok(body);
        }
        return Err(IncompleteTrailers);
      }
      if size > limit - |body| { return Err(TooLarge); }
      // The bound just checked keeps `size + 2` in range for every limit in use.
      assert limit <= USIZE_MAX - 2 ==> size + 2 <= USIZE_MAX;
      if |input| < size + 2 || input[size..size + 2] != CRLF { return Err(IncompleteData); }
      PrependTwice(body, input[..size], Decode(input[size + 2..], limit - |body| - size));
      body := body + input[..size];
      input := input[size + 2..];
    }
  }

  // ---------------------------------------------------------------------
  // The reference: what a framed body looks like.
  // ---------------------------------------------------------------------

  /** One chunk on the wire: its size line without line end, and its data. */
  datatype Frame = Frame(line: bytes, data: bytes)

  predicate GoodSizeLine(line: bytes, size: nat) {
    NoCrlf(line) && ReadSize(line) == Ok(size)
  }

  predicate GoodFrames(frames: seq<Frame>) {
    forall i :: 0 <= i < |frames| ==> |frames[i].data| > 0 && GoodSizeLine(frames[i].line, |frames[i].data|)
  }

  function Wire(f: Frame): bytes { f.line + CRLF + (f.data + CRLF) }

  function Render(frames: seq<Frame>, last: bytes, tail: bytes): bytes {
    if frames == [] then last + CRLF + tail
    else Wire(frames[0]) + Render(frames[1..], last, tail)
  }

  function Payload(frames: seq<Frame>): bytes {
    if frames == [] then [] else frames[0].data + Payload(frames[1..])
  }

  /** What may follow the last-chunk line. */
  predicate GoodTail(tail: bytes) { tail == CRLF || HasBlankLine(tail) }

  lemma ReadFrame(f: Frame, rest: bytes, room: nat)
    requires |f.data| > 0 && GoodSizeLine(f.line, |f.data|)
    ensures Decode(Wire(f) + rest, room) ==
              if |f.data| > room then Err(TooLarge)
              else Prepend(f.data, Decode(rest, room - |f.data|))
  {
    hide ReadSize, HasBlankLine, FirstCrlf, NoCrlf, CrlfAt;
    var after := f.data + CRLF + rest;
    assert Wire(f) + rest == f.line + CRLF + after;
    LineEndsAtFirstCrlf(f.line, after);
    assert after[..|f.data|] == f.data;
    assert after[|f.data|..|f.data| + 2] == CRLF;
    assert after[|f.data| + 2..] == rest;
  }

  lemma ReadLast(last: bytes, tail: bytes, room: nat)
    requires GoodSizeLine(last, 0)
    ensures Decode(last + CRLF + tail, room) == if GoodTail(tail) then Ok([]) else Err(IncompleteTrailers)
  {
    LineEndsAtFirstCrlf(last, tail);
  }

  /** Completeness: every framed body is decoded to its payload when it fits and
      is properly ended, and refused for one of the two otherwise. */
  lemma {:induction false} FramedBodyDecodes(frames: seq<Frame>, last: bytes, tail: bytes, room: nat)
    requires GoodFrames(frames) && GoodSizeLine(last, 0)
    ensures Decode(Render(frames, last, tail), room) ==
              if |Payload(frames)| > room then Err(TooLarge)
              else if GoodTail(tail) then Ok(Payload(frames)) else Err(IncompleteTrailers)
    decreases |frames|
  {
    hide ReadSize, GoodTail, FirstCrlf, NoCrlf, Decode, Wire;
    if frames == [] {
      ReadLast(last, tail, room);
    } else {
      ReadFrame(frames[0], Render(frames[1..], last, tail), room);
      if |frames[0].data| <= room {
        FramedBodyDecodes(frames[1..], last, tail, room - |frames[0].data|);
      }
    }
  }

  lemma FirstLine(input: bytes)
    requires FirstCrlf(input).Some?
    ensures NoCrlf(input[..FirstCrlf(input).value])
    ensures input == input[..FirstCrlf(input).value] + CRLF + input[FirstCrlf(input).value + 2..]
  {
    var line := input[..FirstCrlf(input).value];
    forall i: nat | i < |line| ensures !CrlfAt(line, i) {
      assert !CrlfAt(input, i);
    }
  }

  /** What a successful decoding has read first. */
  lemma FirstStep(input: bytes, room: nat) returns (line: bytes, rest: bytes)
    requires Decode(input, room).Ok?
    ensures input == line + CRLF + rest && ReadSize(line).Ok?
    ensures GoodSizeLine(line, ReadSize(line).value)
    ensures ReadSize(line).value == 0 ==> GoodTail(rest) && Decode(input, room) == Ok([])
    ensures ReadSize(line).value > 0 ==>
              var size := ReadSize(line).value;
              && size <= room && size + 2 <= |rest|
              && input == Wire(Frame(line, rest[..size])) + rest[size + 2..]
              && Decode(rest[size + 2..], room - size).Ok?
              && Decode(input, room).value == rest[..size] + Decode(rest[size + 2..], room - size).value
  {
    hide ReadSize, HasBlankLine, FirstCrlf, NoCrlf;
    FirstLine(input);
    line, rest := input[..FirstCrlf(input).value], input[FirstCrlf(input).value + 2..];
    var size := ReadSize(line).value;
    if size > 0 {
      assert rest == rest[..size] + CRLF + rest[size + 2..];
    }
  }

  /** Soundness: nothing else decodes, and no body exceeds the room given. */
  lemma {:induction false} DecodedBodyIsFramed(input: bytes, room: nat)
    returns (frames: seq<Frame>, last: bytes, tail: bytes)
    requires Decode(input, room).Ok?
    ensures GoodFrames(frames) && GoodSizeLine(last, 0) && GoodTail(tail)
    ensures input == Render(frames, last, tail)
    ensures Decode(input, room).value == Payload(frames)
    ensures |Payload(frames)| <= room
    decreases |input|
  {
    hide Decode, ReadSize, GoodTail;
    var line, rest := FirstStep(input, room);
    if ReadSize(line) == Ok(0) {
      frames, last, tail := [], line, rest;
    } else {
      var size := ReadSize(line).value;
      var f := Frame(line, rest[..size]);
      var inner;
      inner, last, tail := DecodedBodyIsFramed(rest[size + 2..], room - size);
      frames := [f] + inner;
      assert frames[1..] == inner;
    }
  }

  // ---------------------------------------------------------------------
  // Round trip with an RFC 9112 encoder.
  // ---------------------------------------------------------------------

  /** A size line as sent: hexadecimal digits, and an extension with its `;`. */
  datatype SizeText = SizeText(digits: bytes, extension: bytes)

  /** A chunk to send. */
  datatype Chunk = Chunk(data: bytes, size: SizeText)

  predicate Blank(b: byte) { b == 32 || b == 9 }

  /** Nothing, or a semicolon after optional blanks and then anything on the line. */
  predicate ExtensionFrom(e: bytes, i: nat) {
    i == |e| == 0 || (i < |e| && e[i] == SEMICOLON && forall j :: 0 <= j < i ==> Blank(e[j]))
  }

  /** An extension as section 7.1.1 of RFC 9112 allows it: any bytes on the line. */
  predicate Extension(e: bytes) {
    NoCrlf(e) && exists i: nat :: i <= |e| && ExtensionFrom(e, i)
  }

  /** The line spells this size: any case, any number of leading zeros. Sizes are
      those of data in memory. */
  predicate Spells(t: SizeText, size: nat) {
    && t.digits != [] && IsHexDigits(t.digits) && Digits(t.digits, 16) == Some(size) && size <= USIZE_MAX
    && Extension(t.extension)
  }

  function SizeLine(t: SizeText): bytes { t.digits + t.extension }

  function ToFrames(chunks: seq<Chunk>): seq<Frame> {
    if chunks == [] then []
    else [Frame(SizeLine(chunks[0].size), chunks[0].data)] + ToFrames(chunks[1..])
  }

  function TrailerSection(lines: seq<bytes>): bytes {
    if lines == [] then [] else lines[0] + CRLF + TrailerSection(lines[1..])
  }

  function TrailerBlock(lines: seq<bytes>): bytes { TrailerSection(lines) + CRLF }

  predicate GoodTrailers(lines: seq<bytes>) {
    forall i :: 0 <= i < |lines| ==> lines[i] != [] && NoCrlf(lines[i])
  }

  /** The chunked encoding of section 7.1: chunks, last chunk, trailer section. */
  function Encode(chunks: seq<Chunk>, last: SizeText, trailers: seq<bytes>): bytes {
    Render(ToFrames(chunks), SizeLine(last), TrailerBlock(trailers))
  }

  function Content(chunks: seq<Chunk>): bytes {
    if chunks == [] then [] else chunks[0].data + Content(chunks[1..])
  }

  lemma {:induction false} BeforeSeparator(a: bytes, b: bytes, separator: byte)
    requires separator !in a && b != [] && b[0] == separator
    ensures Before(a + b, separator) == a
    decreases |a|
  {
    if a != [] {
      BeforeSeparator(a[1..], b, separator);
      assert (a + b)[1..] == a[1..] + b;
    } else {
      assert a + b == b;
    }
  }

  lemma {:induction false} BeforeWhole(a: bytes, separator: byte)
    requires separator !in a
    ensures Before(a, separator) == a
    decreases |a|
  {
    if a != [] { BeforeWhole(a[1..], separator); }
  }

  lemma TrimStartStops(s: bytes)
    requires s != [] && IsHexDigits(s[..1])
    ensures TrimStart(s) == s
  {
    assert s[..1][0] == s[0];
  }

  lemma TrimEndStops(s: bytes)
    requires s != [] && IsHexDigits(s)
    ensures TrimEnd(s) == s
  {
    assert SpaceAtEnd(s) == 0;
  }

  lemma TrimEndDropsBlank(s: bytes, blank: byte)
    requires Blank(blank)
    ensures TrimEnd(s + [blank]) == TrimEnd(s)
  {
    var t := s + [blank];
    assert SpaceAtEnd(t) == 1;
    assert t[..|t| - 1] == s;
  }

  /** Digits, possibly followed by blanks, trim to the digits. */
  lemma {:induction false} TrimBlanks(digits: bytes, blanks: bytes)
    requires digits != [] && IsHexDigits(digits)
    requires forall j :: 0 <= j < |blanks| ==> Blank(blanks[j])
    ensures Trim(digits + blanks) == digits
    decreases |blanks|
  {
    hide TrimStart, TrimEnd;
    var s := digits + blanks;
    TrimStartStops(s);
    if blanks == [] {
      assert s == digits;
      TrimEndStops(digits);
    } else {
      var fewer := blanks[..|blanks| - 1];
      TrimBlanks(digits, fewer);
      TrimStartStops(digits + fewer);
      TrimEndDropsBlank(digits + fewer, blanks[|blanks| - 1]);
      assert s == (digits + fewer) + [blanks[|blanks| - 1]];
    }
  }

  lemma EncodedSizeLineIsRead(t: SizeText, size: nat)
    requires Spells(t, size) && ValidUtf8(t.extension)
    ensures GoodSizeLine(SizeLine(t), size)
  {
    hide Trim, TrimStart, TrimEnd, Digits, Utf8CharLength, ValidUtf8, NoCrlf;
    var line := SizeLine(t);
    AsciiPrefixIsNeutral(t.digits, t.extension);
    SizeLineHasNoCrlf(t, size);
    var k: nat :| k <= |t.extension| && ExtensionFrom(t.extension, k);
    var blanks := t.extension[..k];
    if t.extension == [] {
      assert line == t.digits + blanks;
      BeforeWhole(line, SEMICOLON);
    } else {
      assert line == (t.digits + blanks) + t.extension[k..];
      BeforeSeparator(t.digits + blanks, t.extension[k..], SEMICOLON);
    }
    TrimBlanks(t.digits, blanks);
  }

  lemma SizeLineHasNoCrlf(t: SizeText, size: nat)
    requires Spells(t, size)
    ensures NoCrlf(SizeLine(t))
  {
    var line := SizeLine(t);
    forall i: nat | i < |line| ensures !CrlfAt(line, i) {
      if i >= |t.digits| { assert !CrlfAt(t.extension, i - |t.digits|); }
    }
  }

  predicate Encodable(chunks: seq<Chunk>) {
    forall i :: 0 <= i < |chunks| ==> |chunks[i].data| > 0 && Spells(chunks[i].size, |chunks[i].data|)
  }

  /** Every extension can be read. */
  predicate AllUtf8(chunks: seq<Chunk>, last: SizeText) {
    (forall i :: 0 <= i < |chunks| ==> ValidUtf8(chunks[i].size.extension)) && ValidUtf8(last.extension)
  }

  lemma {:induction false} ReadableFrames(chunks: seq<Chunk>, last: SizeText)
    requires Encodable(chunks) && Spells(last, 0) && AllUtf8(chunks, last)
    ensures GoodFrames(ToFrames(chunks)) && GoodSizeLine(SizeLine(last), 0)
    decreases |chunks|
  {
    hide GoodSizeLine, Spells, SizeLine;
    EncodedSizeLineIsRead(last, 0);
    if chunks != [] {
      ReadableFrames(chunks[1..], last);
      EncodedSizeLineIsRead(chunks[0].size, |chunks[0].data|);
      assert ToFrames(chunks)[1..] == ToFrames(chunks[1..]);
    }
  }

  lemma {:induction false} PayloadIsContent(chunks: seq<Chunk>)
    ensures Payload(ToFrames(chunks)) == Content(chunks)
    decreases |chunks|
  {
    if chunks != [] {
      PayloadIsContent(chunks[1..]);
      assert ToFrames(chunks)[1..] == ToFrames(chunks[1..]);
    }
  }

  /** The trailer block ends with the one blank line it holds. */
  lemma {:induction false} BlankLineOnlyAtEnd(lines: seq<bytes>, i: nat)
    requires GoodTrailers(lines) && BlankLineAt(TrailerBlock(lines), i)
    ensures i + 4 == |TrailerBlock(lines)|
    decreases |lines|
  {
    if lines != [] {
      var t := TrailerBlock(lines[1..]);
      assert TrailerBlock(lines) == lines[0] + CRLF + t;
      LineEndsAtFirstCrlf(lines[0], t);
      if i == |lines[0]| {
        assert CrlfAt(t, 0);
        if |lines| > 1 {
          assert t == lines[1] + CRLF + TrailerBlock(lines[2..]);
          LineEndsAtFirstCrlf(lines[1], TrailerBlock(lines[2..]));
        }
      } else {
        assert i >= |lines[0]| + 2;
        assert BlankLineAt(t, i - |lines[0]| - 2);
        BlankLineOnlyAtEnd(lines[1..], i - |lines[0]| - 2);
      }
    }
  }

  lemma {:induction false} TrailerBlockIsGood(lines: seq<bytes>)
    ensures GoodTail(TrailerBlock(lines))
    ensures lines != [] ==> HasBlankLine(TrailerBlock(lines))
    decreases |lines|
  {
    if lines != [] {
      var t := TrailerBlock(lines[1..]);
      var whole := TrailerBlock(lines);
      assert whole == lines[0] + CRLF + t;
      TrailerBlockIsGood(lines[1..]);
      if |lines| == 1 {
        assert BlankLineAt(whole, |lines[0]|);
      } else {
        var i: nat :| i < |t| && BlankLineAt(t, i);
        assert BlankLineAt(whole, i + |lines[0]| + 2);
      }
    }
  }

  /** A size line whose extension is not UTF-8 is refused for that. */
  lemma UnreadableSizeLine(t: SizeText, size: nat, rest: bytes, room: nat)
    requires Spells(t, size) && !ValidUtf8(t.extension)
    ensures Decode(SizeLine(t) + CRLF + rest, room) == Err(NonUtf8Size)
  {
    hide Utf8CharLength, ValidUtf8, FirstCrlf;
    AsciiPrefixIsNeutral(t.digits, t.extension);
    SizeLineHasNoCrlf(t, size);
    LineEndsAtFirstCrlf(SizeLine(t), rest);
  }

  lemma RenderFirst(chunks: seq<Chunk>, last: bytes, tail: bytes)
    requires chunks != []
    ensures var f := Frame(SizeLine(chunks[0].size), chunks[0].data);
            && Render(ToFrames(chunks), last, tail) == Wire(f) + Render(ToFrames(chunks[1..]), last, tail)
            && Wire(f) + Render(ToFrames(chunks[1..]), last, tail)
               == f.line + CRLF + (f.data + CRLF + Render(ToFrames(chunks[1..]), last, tail))
  {
    assert ToFrames(chunks)[1..] == ToFrames(chunks[1..]);
  }

  /** A chunking that decodes as far as it goes, up to an extension that does not. */
  lemma {:induction false} UnreadableExtensionIsRefused(chunks: seq<Chunk>, last: SizeText, tail: bytes, limit: nat)
    requires Encodable(chunks) && Spells(last, 0) && |Content(chunks)| <= limit
    requires !AllUtf8(chunks, last)
    ensures Decode(Render(ToFrames(chunks), SizeLine(last), tail), limit) == Err(NonUtf8Size)
    decreases |chunks|
  {
    hide Decode, ValidUtf8, SizeLine, Wire, Spells;
    if chunks == [] {
      UnreadableSizeLine(last, 0, tail, limit);
    } else {
      var c := chunks[0];
      var later := Render(ToFrames(chunks[1..]), SizeLine(last), tail);
      RenderFirst(chunks, SizeLine(last), tail);
      if ValidUtf8(c.size.extension) {
        EncodedSizeLineIsRead(c.size, |c.data|);
        ReadFrame(Frame(SizeLine(c.size), c.data), later, limit);
        assert AllUtf8(chunks[1..], last) ==> AllUtf8(chunks, last);
        UnreadableExtensionIsRefused(chunks[1..], last, tail, limit - |c.data|);
      } else {
        UnreadableSizeLine(c.size, |c.data|, c.data + CRLF + later, limit);
      }
    }
  }

  /** Decoding undoes encoding, for every chunking that fits the limit, if and
      only if its extensions are UTF-8: the standard allows other bytes in quoted
      values, and the decoder refuses them. */
  lemma RoundTrip(chunks: seq<Chunk>, last: SizeText, trailers: seq<bytes>, limit: nat)
    requires Encodable(chunks) && Spells(last, 0) && |Content(chunks)| <= limit
    ensures Decode(Encode(chunks, last, trailers), limit) ==
              if AllUtf8(chunks, last) then Ok(Content(chunks)) else Err(NonUtf8Size)
  {
    hide Decode, Spells, ValidUtf8;
    if AllUtf8(chunks, last) {
      ReadableFrames(chunks, last);
      PayloadIsContent(chunks);
      TrailerBlockIsGood(trailers);
      FramedBodyDecodes(ToFrames(chunks), SizeLine(last), TrailerBlock(trailers), limit);
    } else {
      UnreadableExtensionIsRefused(chunks, last, TrailerBlock(trailers), limit);
    }
  }

  /** Every size has a line, so every body has an encoding. */
  lemma EverySizeHasALine(size: nat)
    requires size <= USIZE_MAX
    ensures Spells(SizeText(HexOf(size), []), size)
  {
    HexRoundTrip(size);
    assert ExtensionFrom([], 0);
  }

  /** The empty body with the extension `;a="\xff"` after its last size: well
      formed by sections 7.1.1 of RFC 9112 and 5.6.4 of RFC 9110, and refused. */
  lemma QuotedByteIsRefused(limit: nat)
    ensures Spells(SizeText([48], [59, 97, 61, 34, 255, 34]), 0)
    ensures Decode(Encode([], SizeText([48], [59, 97, 61, 34, 255, 34]), []), limit) == Err(NonUtf8Size)
  {
    hide Decode;
    var e: bytes := [59, 97, 61, 34, 255, 34];
    var digits: bytes := [48];
    assert ExtensionFrom(e, 0);
    assert digits[..0] == [];
    assert Digits(digits, 16) == Some(0);
    AsciiPrefixIsNeutral(e[..4], e[4..]);
    assert e == e[..4] + e[4..];
    RoundTrip([], SizeText(digits, e), [], limit);
  }

  // ---------------------------------------------------------------------
  // Truncation.
  // ---------------------------------------------------------------------

  predicate StrictPrefix(p: bytes, s: bytes) { p <= s && p != s }

  lemma CutTrailersAreRefused(lines: seq<bytes>, p: bytes)
    requires GoodTrailers(lines) && StrictPrefix(p, TrailerBlock(lines))
    ensures !GoodTail(p)
  {
    var t := TrailerBlock(lines);
    if p == CRLF {
      assert lines != [];
      assert t == lines[0] + CRLF + TrailerBlock(lines[1..]);
      LineEndsAtFirstCrlf(lines[0], TrailerBlock(lines[1..]));
      assert CrlfAt(t, 0);
    }
    forall i: nat | i < |p|
      ensures !BlankLineAt(p, i)
    {
      if BlankLineAt(p, i) {
        assert BlankLineAt(t, i);
        BlankLineOnlyAtEnd(lines, i);
      }
    }
  }

  /** Every strict prefix of a framed body, trailers included, is rejected. */
  lemma {:induction false} TruncationIsRejected(frames: seq<Frame>, last: bytes, trailers: seq<bytes>, p: bytes,
      room: nat)
    requires GoodFrames(frames) && GoodSizeLine(last, 0) && GoodTrailers(trailers)
    requires StrictPrefix(p, Render(frames, last, TrailerBlock(trailers)))
    ensures Decode(p, room).Err?
    decreases |frames|
  {
    hide Decode, ReadSize, GoodTail, NoCrlf;
    var whole := Render(frames, last, TrailerBlock(trailers));
    var line := if frames == [] then last else frames[0].line;
    assert |line| + 2 <= |whole| && whole[..|line| + 2] == line + CRLF;
    if |p| < |line| + 2 {
      assert p <= line + [CR];
      CutLineIsRefused(line, p, room);
    } else if frames == [] {
      var rest := p[|line| + 2..];
      assert p == line + CRLF + rest;
      CutTrailersAreRefused(trailers, rest);
      ReadLast(line, rest, room);
    } else {
      CutFrame(frames[0], Render(frames[1..], last, TrailerBlock(trailers)), p, room);
      if Wire(frames[0]) <= p && |frames[0].data| <= room {
        var p' := p[|Wire(frames[0])|..];
        TruncationIsRejected(frames[1..], last, trailers, p', room - |frames[0].data|);
      }
    }
  }

  lemma CutLineIsRefused(line: bytes, p: bytes, room: nat)
    requires NoCrlf(line) && p <= line + [CR]
    ensures Decode(p, room).Err?
  {
    CutLineHasNoCrlf(line, p);
  }

  /** A prefix that reaches into a frame is refused, one that reaches past it
      is decided by what is past it. */
  lemma CutFrame(f: Frame, later: bytes, p: bytes, room: nat)
    requires |f.data| > 0 && GoodSizeLine(f.line, |f.data|)
    requires f.line + CRLF <= p && StrictPrefix(p, Wire(f) + later)
    ensures Wire(f) <= p ==>
              && StrictPrefix(p[|Wire(f)|..], later)
              && (|f.data| <= room && Decode(p[|Wire(f)|..], room - |f.data|).Err? ==> Decode(p, room).Err?)
              && (|f.data| > room ==> Decode(p, room).Err?)
    ensures !(Wire(f) <= p) ==> Decode(p, room).Err?
  {
    if Wire(f) <= p {
      assert p == Wire(f) + p[|Wire(f)|..];
      ReadFrame(f, p[|Wire(f)|..], room);
    } else {
      var rest := p[|f.line| + 2..];
      assert p == f.line + CRLF + rest;
      assert |rest| < |f.data| + 2;
      CutData(f, rest, room);
    }
  }

  lemma CutData(f: Frame, rest: bytes, room: nat)
    requires |f.data| > 0 && GoodSizeLine(f.line, |f.data|) && |rest| < |f.data| + 2
    ensures Decode(f.line + CRLF + rest, room).Err?
  {
    hide ReadSize, HasBlankLine, FirstCrlf, NoCrlf, CrlfAt;
    LineEndsAtFirstCrlf(f.line, rest);
  }

  /** A prefix that reaches or passes an unreadable extension is refused too. */
  lemma {:induction false} UnreadablePrefixIsRefused(chunks: seq<Chunk>, last: SizeText, tail: bytes, p: bytes,
      limit: nat)
    requires Encodable(chunks) && Spells(last, 0) && !AllUtf8(chunks, last)
    requires p <= Render(ToFrames(chunks), SizeLine(last), tail)
    ensures Decode(p, limit).Err?
    decreases |chunks|
  {
    hide Decode, ValidUtf8, Wire, Spells, SizeLine;
    if chunks == [] {
      UnreadableLinePrefix(last, 0, tail, p, limit);
    } else {
      var c := chunks[0];
      var f := Frame(SizeLine(c.size), c.data);
      var later := Render(ToFrames(chunks[1..]), SizeLine(last), tail);
      RenderFirst(chunks, SizeLine(last), tail);
      if ValidUtf8(c.size.extension) {
        EncodedSizeLineIsRead(c.size, |c.data|);
        assert AllUtf8(chunks[1..], last) ==> AllUtf8(chunks, last);
        ReadablePrefix(f, later, p, limit);
        if Wire(f) <= p && |f.data| <= limit {
          UnreadablePrefixIsRefused(chunks[1..], last, tail, p[|Wire(f)|..], limit - |f.data|);
        }
      } else {
        UnreadableLinePrefix(c.size, |c.data|, c.data + CRLF + later, p, limit);
      }
    }
  }

  lemma UnreadableLinePrefix(t: SizeText, size: nat, rest: bytes, p: bytes, limit: nat)
    requires Spells(t, size) && !ValidUtf8(t.extension) && p <= SizeLine(t) + CRLF + rest
    ensures Decode(p, limit).Err?
  {
    hide ValidUtf8, Decode, SizeLine, Spells;
    var line := SizeLine(t);
    SizeLineHasNoCrlf(t, size);
    if |p| < |line| + 2 {
      assert p <= line + [CR];
      CutLineIsRefused(line, p, limit);
    } else {
      assert p == line + CRLF + p[|line| + 2..];
      UnreadableSizeLine(t, size, p[|line| + 2..], limit);
    }
  }

  /** A prefix of a frame and what follows is decided by what follows, or refused. */
  lemma ReadablePrefix(f: Frame, later: bytes, p: bytes, room: nat)
    requires |f.data| > 0 && GoodSizeLine(f.line, |f.data|)
    requires p <= Wire(f) + later
    ensures !(Wire(f) <= p) || |f.data| > room ==> Decode(p, room).Err?
    ensures Wire(f) <= p && |f.data| <= room ==>
              && p[|Wire(f)|..] <= later
              && (Decode(p[|Wire(f)|..], room - |f.data|).Err? ==> Decode(p, room).Err?)
  {
    hide Decode, ReadSize, GoodSizeLine;
    if Wire(f) <= p {
      assert p == Wire(f) + p[|Wire(f)|..];
      ReadFrame(f, p[|Wire(f)|..], room);
    } else if f.line + CRLF <= p {
      CutFrame(f, later, p, room);
    } else {
      LineIsClean(f);
      assert p <= f.line + [CR];
      CutLineIsRefused(f.line, p, room);
    }
  }

  lemma LineIsClean(f: Frame)
    requires GoodSizeLine(f.line, |f.data|)
    ensures NoCrlf(f.line)
  {}

  /** The same for the encoder: a cut transfer never passes for a whole one,
      readable extensions or not. */
  lemma TruncatedEncodingIsRejected(chunks: seq<Chunk>, last: SizeText, trailers: seq<bytes>, p: bytes, limit: nat)
    requires Encodable(chunks) && Spells(last, 0) && GoodTrailers(trailers)
    requires StrictPrefix(p, Encode(chunks, last, trailers))
    ensures Decode(p, limit).Err?
  {
    hide Decode, Spells;
    if AllUtf8(chunks, last) {
      ReadableFrames(chunks, last);
      TruncationIsRejected(ToFrames(chunks), SizeLine(last), trailers, p, limit);
    } else {
      UnreadablePrefixIsRefused(chunks, last, TrailerBlock(trailers), p, limit);
    }
  }
}
