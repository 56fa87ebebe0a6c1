/** Section 6.3 of RFC 9112, the length of a message body, written without
    reference to the client, and exactly when the client follows it. */
module MessageBody {
  import opened Common
  import opened Bytes
  import opened ChunkedBody
  import opened HttpResponse

  // ---------------------------------------------------------------------
  // The standard.
  // ---------------------------------------------------------------------

  /** Optional white space around a list element is a matter of blanks and tabs. */
  function StripBlanks(s: bytes): bytes
    decreases |s|
  {
    if s != [] && Blank(s[0]) then StripBlanks(s[1..])
    else if s != [] && Blank(s[|s| - 1]) then StripBlanks(s[..|s| - 1])
    else s
  }

  /** The elements of a comma-separated list; empty ones do not count. */
  function Elements(value: bytes): seq<bytes>
    decreases |value|
  {
    var first := Before(value, 44);
    (if StripBlanks(first) == [] then [] else [StripBlanks(first)])
    + if |first| < |value| then Elements(value[|first| + 1..]) else []
  }

  predicate HasCoding(headers: seq<Header>) {
    exists i :: 0 <= i < |headers| && IsTransferEncoding(headers[i])
  }

  /** The transfer codings in the order they were applied, over all header lines. */
  function Codings(headers: seq<Header>): seq<bytes> {
    if headers == [] then []
    else (if IsTransferEncoding(headers[0]) then Elements(headers[0].value) else []) + Codings(headers[1..])
  }

  predicate ChunkedIsFinal(headers: seq<Header>) {
    var codings := Codings(headers);
    codings != [] && EqIgnoreCase(codings[|codings| - 1], Ascii("chunked"))
  }

  predicate IsNumber(s: bytes) { s != [] && forall i :: 0 <= i < |s| ==> 48 <= s[i] <= 57 }

  predicate HasLength(headers: seq<Header>) {
    exists i :: 0 <= i < |headers| && IsLength(headers[i])
  }

  predicate AllAre(elements: seq<bytes>, n: nat) {
    && elements != []
    && forall j :: 0 <= j < |elements| ==> IsNumber(elements[j]) && Digits(elements[j], 10) == Some(n)
  }

  /** Every Content-Length is this number, or a list of nothing but it. */
  predicate Announces(headers: seq<Header>, n: nat) {
    forall i :: 0 <= i < |headers| && IsLength(headers[i]) ==> AllAre(Elements(headers[i].value), n)
  }

  predicate Bodiless(status: nat) { 100 <= status < 200 || status == 204 || status == 304 }

  /** The bytes start with a chunked encoding, as section 7.1 has it, and go on
      with some that belong to no message. */
  predicate Chunking(received: bytes, chunks: seq<Chunk>, last: SizeText, trailers: seq<bytes>, rest: bytes) {
    && Encodable(chunks) && Spells(last, 0) && GoodTrailers(trailers)
    && received == Encode(chunks, last, trailers) + rest
  }

  ghost predicate FramedAs(received: bytes, body: bytes) {
    exists chunks, last, trailers, rest :: Chunking(received, chunks, last, trailers, rest) && body == Content(chunks)
  }

  ghost predicate CutAtLength(headers: seq<Header>, received: bytes, body: bytes) {
    exists n: nat :: Announces(headers, n) && n <= |received| && body == received[..n]
  }

  /** The body of the response to a GET, given all bytes up to the close of the
      connection: none for some statuses; else a final `chunked` frames it; else
      another coding makes it all bytes, whatever Content-Length says; else a
      valid Content-Length cuts it; else it is all bytes. */
  ghost predicate Section63(status: nat, headers: seq<Header>, received: bytes, body: bytes) {
    if Bodiless(status) then body == []
    else if HasCoding(headers) then
      if ChunkedIsFinal(headers) then FramedAs(received, body) else body == received
    else if HasLength(headers) then CutAtLength(headers, received, body)
    else body == received
  }

  ghost predicate Due(status: nat, headers: seq<Header>, received: bytes, limit: nat, body: bytes) {
    Section63(status, headers, received, body) && |body| <= limit
  }

  // ---------------------------------------------------------------------
  // The client beside it.
  // ---------------------------------------------------------------------

  /** What the client delivers under a status: `ParseResponse` fails on all others. */
  ghost predicate Hands(status: nat, headers: seq<Header>, received: bytes, limit: nat, body: bytes) {
    Success(Some(status)) && Delivers(headers, received, limit, body)
  }

  /** Client and standard deliver the same body, or both none. */
  ghost predicate Agrees(status: nat, headers: seq<Header>, received: bytes, limit: nat) {
    forall body :: Hands(status, headers, received, limit, body) <==> Due(status, headers, received, limit, body)
  }

  /** What the decoder needs beyond the standard: extensions in UTF-8, and after
      an encoding without trailers nothing, or something with a blank line. */
  ghost predicate Palatable(received: bytes) {
    exists chunks, last, trailers, rest ::
      && Chunking(received, chunks, last, trailers, rest)
      && AllUtf8(chunks, last) && GoodTail(TrailerBlock(trailers) + rest)
  }

  /** The bytes are chunks as the decoder reads them. */
  predicate Framing(received: bytes, frames: seq<Frame>, last: bytes, tail: bytes) {
    GoodFrames(frames) && GoodSizeLine(last, 0) && GoodTail(tail) && received == Render(frames, last, tail)
  }

  /** The success responses on which the client finds the body of the standard. A
      status without a body: no byte follows, or a last chunk alone. With a coding:
      `chunked` is the last one or absent, and Content-Length is in order, and true
      beside another coding. Without: Content-Length is one number, and no byte too
      many came. */
  ghost predicate Ordinary(status: nat, headers: seq<Header>, received: bytes, limit: nat) {
    && Success(Some(status)) && LengthsAgree(headers, limit)
    && if Bodiless(status) then
         if IsChunked(headers) then exists last, tail :: Framing(received, [], last, tail)
         else received == [] && LengthsMatch(headers, 0)
       else if HasCoding(headers) then
         && (IsChunked(headers) <==> ChunkedIsFinal(headers))
         && if IsChunked(headers) then Palatable(received) else LengthsMatch(headers, |received|)
       else LengthsMatch(headers, |received|) && exists n: nat :: Announces(headers, n)
  }

  /** The responses without a body for the client: another status, lengths out of
      order, chunks that are none or too many, bytes too many or not as announced. */
  ghost predicate Refused(status: nat, headers: seq<Header>, received: bytes, limit: nat) {
    || !Success(Some(status)) || !LengthsAgree(headers, limit)
    || if IsChunked(headers) then
         forall frames, last, tail :: Framing(received, frames, last, tail) ==> |Payload(frames)| > limit
       else |received| > limit || !LengthsMatch(headers, |received|)
  }

  /** The responses without a body within the limit for the standard. */
  ghost predicate Undefined(status: nat, headers: seq<Header>, received: bytes, limit: nat) {
    && !Bodiless(status)
    && if HasCoding(headers) then
         if ChunkedIsFinal(headers) then
           forall chunks, last, trailers, rest ::
             Chunking(received, chunks, last, trailers, rest) ==> |Content(chunks)| > limit
         else |received| > limit
       else if HasLength(headers) then
         forall n: nat :: Announces(headers, n) ==> n > |received| || n > limit
       else |received| > limit
  }

  lemma {:induction false} RenderAppends(frames: seq<Frame>, last: bytes, tail: bytes, rest: bytes)
    ensures Render(frames, last, tail) + rest == Render(frames, last, tail + rest)
    decreases |frames|
  {
    if frames == [] {
      assert last + CRLF + tail + rest == last + CRLF + (tail + rest);
    } else {
      RenderAppends(frames[1..], last, tail, rest);
      var later := Render(frames[1..], last, tail);
      assert Wire(frames[0]) + later + rest == Wire(frames[0]) + (later + rest);
    }
  }

  /** What the decoder makes of an encoding with more bytes behind it. */
  lemma ChunkingDecodes(received: bytes, chunks: seq<Chunk>, last: SizeText, trailers: seq<bytes>, rest: bytes,
                        limit: nat)
    requires Chunking(received, chunks, last, trailers, rest)
    ensures var fine := AllUtf8(chunks, last) && GoodTail(TrailerBlock(trailers) + rest);
            && (fine && |Content(chunks)| <= limit ==> Decode(received, limit) == Ok(Content(chunks)))
            && (!fine || |Content(chunks)| > limit ==> Decode(received, limit).Err?)
  {
    hide Decode, GoodTail, Spells, SizeLine, TrailerBlock, GoodFrames, GoodSizeLine;
    var tail := TrailerBlock(trailers) + rest;
    RenderAppends(ToFrames(chunks), SizeLine(last), TrailerBlock(trailers), rest);
    if AllUtf8(chunks, last) {
      ReadableFrames(chunks, last);
      PayloadIsContent(chunks);
      FramedBodyDecodes(ToFrames(chunks), SizeLine(last), tail, limit);
    } else {
      UnreadablePrefixIsRefused(chunks, last, tail, received, limit);
    }
  }

  /** Among bodies within the limit, decoder and standard name the same one, or
      both none, if the encoding is palatable. */
  lemma PalatableIsDecoded(received: bytes, limit: nat, body: bytes)
    requires Palatable(received)
    ensures FramedAs(received, body) && |body| <= limit <==> Decode(received, limit) == Ok(body)
  {
    hide Decode, GoodTail, Chunking, AllUtf8, Content;
    var chunks, last, trailers, rest :|
      && Chunking(received, chunks, last, trailers, rest)
      && AllUtf8(chunks, last) && GoodTail(TrailerBlock(trailers) + rest);
    var enough := |Content(chunks)| + limit;
    ChunkingDecodes(received, chunks, last, trailers, rest, enough);
    ChunkingDecodes(received, chunks, last, trailers, rest, limit);
    if FramedAs(received, body) && |body| <= limit {
      var chunks', last', trailers', rest' :| Chunking(received, chunks', last', trailers', rest') &&
        body == Content(chunks');
      ChunkingDecodes(received, chunks', last', trailers', rest', enough);
    }
  }

  /** If it is not, a body the standard names is one the decoder refuses. */
  lemma UnpalatableIsRefused(received: bytes, limit: nat, body: bytes)
    requires !Palatable(received) && FramedAs(received, body)
    ensures Decode(received, limit).Err?
  {
    hide Decode, GoodTail, Chunking, AllUtf8, Content;
    var chunks, last, trailers, rest :| Chunking(received, chunks, last, trailers, rest) && body == Content(chunks);
    ChunkingDecodes(received, chunks, last, trailers, rest, limit);
  }

  lemma {:induction false} FramingAddsBytes(frames: seq<Frame>, last: bytes, tail: bytes)
    ensures |Payload(frames)| < |Render(frames, last, tail)|
    decreases |frames|
  {
    if frames != [] { FramingAddsBytes(frames[1..], last, tail); }
  }

  /** Neither decoding nor unframing gives back its input. */
  lemma BodyIsShorter(received: bytes, limit: nat)
    ensures Decode(received, limit) != Ok(received) && !FramedAs(received, received)
  {
    hide Decode, GoodTail, GoodSizeLine, GoodFrames, Render, Payload, Spells, SizeLine, TrailerBlock;
    if Decode(received, limit) == Ok(received) {
      var frames, last, tail := DecodedBodyIsFramed(received, limit);
      FramingAddsBytes(frames, last, tail);
    }
    if FramedAs(received, received) {
      var chunks, last, trailers, rest :| Chunking(received, chunks, last, trailers, rest) &&
        received == Content(chunks);
      PayloadIsContent(chunks);
      FramingAddsBytes(ToFrames(chunks), SizeLine(last), TrailerBlock(trailers));
    }
  }

  // ---------------------------------------------------------------------
  // The two readings of Content-Length.
  // ---------------------------------------------------------------------

  lemma {:induction false} OnlyDigits(s: bytes, i: nat)
    requires i < |s| && Digit(s[i]).None?
    ensures Digits(s, 10).None?
    decreases |s|
  {
    if i < |s| - 1 { OnlyDigits(s[..|s| - 1], i); }
  }

  lemma {:induction false} TrimStartKeepsComma(s: bytes)
    requires 44 in s
    ensures 44 in TrimStart(s)
    decreases |s|
  {
    var n := SpaceAt(s, 0);
    if n > 0 {
      assert s == s[..n] + s[n..];
      TrimStartKeepsComma(s[n..]);
    }
  }

  lemma {:induction false} TrimEndKeepsComma(s: bytes)
    requires 44 in s
    ensures 44 in TrimEnd(s)
    decreases |s|
  {
    var n := |s| - SpaceAtEnd(s);
    if n < |s| {
      assert s == s[..n] + s[n..];
      TrimEndKeepsComma(s[..n]);
    }
  }

  /** A value that the client reads as a number has no comma. */
  lemma NumberIsNoList(value: bytes)
    requires ParseUnsigned(Trim(value), 10, USIZE_MAX).Some?
    ensures 44 !in value
  {
    hide TrimStart, TrimEnd, Digits;
    if 44 in value {
      TrimStartKeepsComma(value);
      TrimEndKeepsComma(TrimStart(value));
      var s := Trim(value);
      var i :| 0 <= i < |s| && s[i] == 44;
      if s[0] == 43 { OnlyDigits(s[1..], i - 1); } else { OnlyDigits(s, i); }
    }
  }

  lemma {:induction false} StripKeepsFirst(s: bytes)
    requires s != [] && !Blank(s[0])
    ensures StripBlanks(s) != [] && StripBlanks(s)[0] == s[0]
    decreases |s|
  {
    if Blank(s[|s| - 1]) { StripKeepsFirst(s[..|s| - 1]); }
  }

  /** On a number the client strips what the standard strips. */
  lemma {:induction false} NumberIsTrimmed(s: bytes)
    requires IsNumber(StripBlanks(s))
    ensures Trim(s) == StripBlanks(s)
    decreases |s|
  {
    hide TrimEnd;
    if Blank(s[0]) {
      NumberIsTrimmed(s[1..]);
    } else {
      StripKeepsFirst(s);
      TrimStartStops(s);
      if Blank(s[|s| - 1]) {
        var front := s[..|s| - 1];
        NumberIsTrimmed(front);
        TrimStartStops(front);
        assert s == front + [s[|s| - 1]];
        TrimEndDropsBlank(front, s[|s| - 1]);
      } else {
        TrimEndStops(s);
      }
    }
  }

  /** Where both readings give a number it is the same. */
  lemma AnnouncedIsDeclared(h: Header, size: nat, n: nat)
    requires DeclaredLength(h) == Some(size) && AllAre(Elements(h.value), n)
    ensures n == size
  {
    hide Trim, StripBlanks, Digits, ValidUtf8;
    NumberIsNoList(h.value);
    BeforeWhole(h.value, 44);
    assert Elements(h.value) == [StripBlanks(h.value)];
    assert IsNumber(Elements(h.value)[0]);
    NumberIsTrimmed(h.value);
  }

  lemma LengthsCoincide(headers: seq<Header>, size: nat, n: nat)
    requires HasLength(headers) && LengthsMatch(headers, size) && Announces(headers, n)
    ensures n == size
  {
    hide IsLength, Elements, DeclaredLength, AllAre;
    var i :| 0 <= i < |headers| && IsLength(headers[i]);
    AnnouncedIsDeclared(headers[i], size, n);
  }

  // ---------------------------------------------------------------------
  // When they agree.
  // ---------------------------------------------------------------------

  /** The decoder fails exactly on bytes that no framing within the limit fits. */
  lemma UndecodedIff(received: bytes, limit: nat)
    ensures Decode(received, limit).Err? <==>
              forall frames, last, tail :: Framing(received, frames, last, tail) ==> |Payload(frames)| > limit
  {
    hide Decode, GoodTail, GoodSizeLine, GoodFrames, Render, Payload;
    forall frames, last, tail | Framing(received, frames, last, tail)
      ensures |Payload(frames)| <= limit ==> Decode(received, limit).Ok?
    {
      FramedBodyDecodes(frames, last, tail, limit);
    }
    if Decode(received, limit).Ok? {
      var frames, last, tail := DecodedBodyIsFramed(received, limit);
      assert Framing(received, frames, last, tail);
    }
  }

  lemma RefusedIff(status: nat, headers: seq<Header>, received: bytes, limit: nat)
    ensures Refused(status, headers, received, limit) <==> forall body :: !Hands(status, headers, received, limit, body)
  {
    hide Decode, Framing, LengthsAgree, LengthsMatch, IsChunked;
    UndecodedIff(received, limit);
    if !Refused(status, headers, received, limit) {
      if IsChunked(headers) {
        assert Hands(status, headers, received, limit, Decode(received, limit).value);
      } else {
        assert Hands(status, headers, received, limit, received);
      }
    }
  }

  lemma UndefinedIff(status: nat, headers: seq<Header>, received: bytes, limit: nat)
    ensures Undefined(status, headers, received, limit) <==> forall body :: !Due(status, headers, received, limit, body)
  {
    hide Chunking, Announces, HasCoding, HasLength, ChunkedIsFinal, Content;
    if Bodiless(status) {
      assert Due(status, headers, received, limit, []);
    } else if HasCoding(headers) && ChunkedIsFinal(headers) {
      forall chunks, last, trailers, rest | Chunking(received, chunks, last, trailers, rest)
        ensures |Content(chunks)| <= limit ==> Due(status, headers, received, limit, Content(chunks))
      {
        assert FramedAs(received, Content(chunks));
      }
    } else if !HasCoding(headers) && HasLength(headers) {
      forall n: nat | Announces(headers, n) && n <= |received|
        ensures n <= limit ==> Due(status, headers, received, limit, received[..n])
      {
        assert CutAtLength(headers, received, received[..n]);
      }
    } else {
      assert Due(status, headers, received, limit, received) <==> |received| <= limit;
    }
  }

  /** Under a status without a body: an empty one on both sides. */
  lemma BodilessAgreesIff(status: nat, headers: seq<Header>, received: bytes, limit: nat)
    requires Bodiless(status)
    ensures Agrees(status, headers, received, limit) <==> Ordinary(status, headers, received, limit)
  {
    hide LengthsAgree, LengthsMatch, IsChunked, Decode, GoodTail, GoodSizeLine, GoodFrames, Render;
    assert Due(status, headers, received, limit, []);
    if Decode(received, limit) == Ok([]) {
      var frames, last, tail := DecodedBodyIsFramed(received, limit);
      NothingFramed(frames);
      assert Framing(received, [], last, tail);
    }
    forall last, tail | Framing(received, [], last, tail)
      ensures Decode(received, limit) == Ok([])
    {
      FramedBodyDecodes([], last, tail, limit);
    }
  }

  lemma NothingFramed(frames: seq<Frame>)
    requires GoodFrames(frames) && Payload(frames) == []
    ensures frames == []
  {}

  /** With a coding: chunks on both sides or all bytes on both sides. */
  lemma CodedAgreesIff(status: nat, headers: seq<Header>, received: bytes, limit: nat)
    requires !Bodiless(status) && HasCoding(headers)
    ensures Agrees(status, headers, received, limit) <==>
              || Ordinary(status, headers, received, limit)
              || (Refused(status, headers, received, limit) && Undefined(status, headers, received, limit))
  {
    hide LengthsAgree, LengthsMatch, IsChunked, HasCoding, ChunkedIsFinal, FramedAs, Decode, Palatable, Refused,
      Undefined;
    RefusedIff(status, headers, received, limit);
    UndefinedIff(status, headers, received, limit);
    forall body
      ensures Palatable(received) ==>
              (FramedAs(received, body) && |body| <= limit <==> Decode(received, limit) == Ok(body))
      ensures !Palatable(received) && FramedAs(received, body) ==> Decode(received, limit).Err?
    {
      if Palatable(received) { PalatableIsDecoded(received, limit, body); }
      else if FramedAs(received, body) { UnpalatableIsRefused(received, limit, body); }
    }
    BodyIsShorter(received, limit);
    assert Hands(status, headers, received, limit, received) || !Hands(status, headers, received, limit, received);
    if Decode(received, limit).Ok? {
      var decoded := Decode(received, limit).value;
      assert Hands(status, headers, received, limit, decoded) || !Hands(status, headers, received, limit, decoded);
    }
  }

  /** Without one: a cut that leaves nothing over. */
  lemma PlainAgreesIff(status: nat, headers: seq<Header>, received: bytes, limit: nat)
    requires !Bodiless(status) && !HasCoding(headers)
    ensures Agrees(status, headers, received, limit) <==>
              || Ordinary(status, headers, received, limit)
              || (Refused(status, headers, received, limit) && Undefined(status, headers, received, limit))
  {
    hide IsLength, Elements, DeclaredLength, AllAre, IsTransferEncoding, LengthsAgree, Decode, Refused, Undefined;
    RefusedIff(status, headers, received, limit);
    UndefinedIff(status, headers, received, limit);
    assert !IsChunked(headers);
    var whole := received[..|received|];
    assert whole == received;
    assert Hands(status, headers, received, limit, received) || !Hands(status, headers, received, limit, received);
    if !HasLength(headers) {
      assert Announces(headers, 0);
      assert LengthsMatch(headers, |received|);
      NothingDeclared(headers, limit);
    } else {
      forall n: nat | Announces(headers, n) && LengthsMatch(headers, |received|)
        ensures n == |received|
      {
        LengthsCoincide(headers, |received|, n);
      }
    }
  }

  lemma NothingDeclared(headers: seq<Header>, limit: nat)
    requires !HasLength(headers)
    ensures LengthsAgree(headers, limit)
  {}

  /** The client delivers what section 6.3 calls the body, within the limit, if
      and only if the response is ordinary, or is one the client refuses and the
      standard gives no such body: conditions on head and bytes alone. */
  lemma FollowsSection63Iff(status: nat, headers: seq<Header>, received: bytes, limit: nat)
    ensures Agrees(status, headers, received, limit) <==>
              || Ordinary(status, headers, received, limit)
              || (Refused(status, headers, received, limit) && Undefined(status, headers, received, limit))
  {
    hide Agrees, Ordinary, Refused, HasCoding, ChunkedIsFinal;
    if Bodiless(status) {
      BodilessAgreesIff(status, headers, received, limit);
    } else if HasCoding(headers) {
      CodedAgreesIff(status, headers, received, limit);
    } else {
      PlainAgreesIff(status, headers, received, limit);
    }
  }

  // ---------------------------------------------------------------------
  // Where they differ.
  // ---------------------------------------------------------------------

  function Named(name: string, value: string): Header
    requires forall i :: 0 <= i < |name| ==> name[i] < 128 as char
    requires forall i :: 0 <= i < |value| ==> value[i] < 128 as char
  {
    Header(Ascii(name), Ascii(value))
  }

  /** A 204 has no body, but bytes that follow its head are delivered. */
  lemma BytesAfterNoContent(received: bytes, limit: nat)
    requires 0 < |received| <= limit
    ensures Hands(204, [], received, limit, received)
    ensures Due(204, [], received, limit, [])
    ensures !Agrees(204, [], received, limit)
  {
    hide Decode;
    assert Hands(204, [], received, limit, received) && !Due(204, [], received, limit, received);
  }

  /** A body with more bytes behind it is not cut at its length but refused. */
  lemma BytesAfterTheLength(limit: nat)
    requires limit > 0
    ensures var headers := [Named("content-length", "1")];
            Due(200, headers, [0, 0], limit, [0]) && forall body :: !Hands(200, headers, [0, 0], limit, body)
  {
    hide Decode;
    var headers := [Named("content-length", "1")];
    var one, received: bytes := [49], [0, 0];
    assert headers[0].value == one;
    OneIsANumber();
    assert IsLength(headers[0]);
    assert Announces(headers, 1);
    assert received[..1] == [0];
    assert CutAtLength(headers, received, [0]);
  }

  lemma OneIsANumber()
    ensures Elements([49]) == [[49]] && AllAre([[49]], 1)
    ensures DeclaredLength(Header(Ascii("content-length"), [49])) == Some(1)
  {
    var one: bytes := [49];
    assert one[..0] == [];
    BeforeWhole(one, 44);
    NumberIsTrimmed(one);
  }

  predicate IsWord(s: bytes) { s != [] && forall i :: 0 <= i < |s| ==> 97 <= s[i] <= 122 }

  lemma Unpadded(s: bytes)
    requires IsWord(s)
    ensures StripBlanks(s) == s && Trim(s) == s && Before(s, 44) == s
  {
    assert SpaceAt(s, 0) == 0 && SpaceAtEnd(s) == 0;
    BeforeWhole(s, 44);
  }

  lemma TwoWords(first: bytes, second: bytes)
    requires IsWord(first) && IsWord(second)
    ensures Elements(first + [44] + second) == [first, second]
    ensures EqIgnoreCase(first, Ascii("chunked")) ==> ListsChunked(first + [44] + second)
    ensures ValidUtf8(first + [44] + second)
  {
    hide StripBlanks, Trim, EqIgnoreCase, ValidUtf8;
    var list := first + [44] + second;
    assert list == first + ([44] + second);
    BeforeSeparator(first, [44] + second, 44);
    Unpadded(first);
    Unpadded(second);
    assert list[|first| + 1..] == second;
    assert Elements(second) == [second];
    AsciiIsUtf8(list);
  }

  lemma AsciiIsUtf8(s: bytes)
    requires IsAscii(s)
    ensures ValidUtf8(s)
  {
    AsciiPrefixIsNeutral(s, []);
    assert s + [] == s;
  }

  /** Under `chunked,gzip`, or another coding in its place, the body is all
      bytes, but the client unframes it. */
  lemma ChunkedBelowAnotherCoding(other: bytes, limit: nat)
    requires IsWord(other) && !EqIgnoreCase(other, Ascii("chunked")) && limit >= 5
    ensures var headers := [Header(Ascii("transfer-encoding"), Ascii("chunked") + [44] + other)];
            var received := Encode([], ZERO, []);
            && Hands(200, headers, received, limit, [])
            && Due(200, headers, received, limit, received) && received != []
  {
    hide Decode, ListsChunked, Elements, ValidUtf8, Spells;
    var h := Header(Ascii("transfer-encoding"), Ascii("chunked") + [44] + other);
    TwoWords(Ascii("chunked"), other);
    assert Codings([h]) == Elements(h.value) + Codings([h][1..]);
    assert !ChunkedIsFinal([h]);
    assert [h][0] == h && IsChunked([h]);
    PlainSizes();
    AsciiIsUtf8(ZERO.extension);
    RoundTrip([], ZERO, [], limit);
  }
}
