/** Response framing (`parse_response`, `read_response`) and the redirect loop
    (`fetch_capped`) of the internal HTTP client. Status line and headers arrive
    already split: the header parser is a library. */
module HttpResponse {
  import opened Common
  import opened Bytes
  import opened ChunkedBody

  const MAX_REDIRECTS: nat := 5
  const MAX_HEADER_BYTES: nat := 64 * 1024

  datatype Header = Header(name: bytes, value: bytes)

  /** What the header parser makes of a buffer. */
  datatype Head =
    | Malformed
    | Partial
    | Complete(bodyStart: nat, status: Option<nat>, headers: seq<Header>)

  datatype Outcome = Body(body: bytes) | Redirect(location: bytes)

  datatype ResponseError =
    | MalformedHead
    | IncompleteHead
    | NoStatus
    | NonUtf8Location
    | NoLocation
    | BadStatus(status: nat)
    | InvalidLength
    | ExceedsLimit
    | ConflictingLengths
    | LengthMismatch
    | BadChunks(error: ChunkError)
    | BadUrl
    | TooManyRedirects

  function Ascii(s: string): (r: bytes)
    requires forall i :: 0 <= i < |s| ==> s[i] < 128 as char
    ensures |r| == |s|
  {
    seq(|s|, (i: nat) requires i < |s| && s[i] < 128 as char => s[i] as int)
  }

  function LowerByte(b: byte): byte { if 65 <= b <= 90 then b + 32 else b }

  predicate EqIgnoreCase(a: bytes, b: bytes) {
    |a| == |b| && forall i :: 0 <= i < |a| ==> LowerByte(a[i]) == LowerByte(b[i])
  }

  /** Two bytes are alike exactly when equal or the two cases of one letter. */
  lemma CaseAside(a: byte, b: byte)
    ensures EqIgnoreCase([a], [b]) <==> a == b || (65 <= a <= 90 && b == a + 32) || (65 <= b <= 90 && a == b + 32)
  {
    assert [a][0] == a && [b][0] == b;
  }

  predicate IsLocation(h: Header) { EqIgnoreCase(h.name, Ascii("location")) }
  predicate IsLength(h: Header) { EqIgnoreCase(h.name, Ascii("content-length")) }
  predicate IsTransferEncoding(h: Header) { EqIgnoreCase(h.name, Ascii("transfer-encoding")) }

  /** The number a Content-Length header declares, if it declares one. */
  function DeclaredLength(h: Header): Option<nat> {
    if ValidUtf8(h.value) then ParseUnsigned(Trim(h.value), 10, USIZE_MAX) else None
  }

  /** Some element of the comma-separated list is `chunked`. */
  predicate ListsChunked(value: bytes)
    decreases |value|
  {
    var first := Before(value, 44);
    || EqIgnoreCase(Trim(first), Ascii("chunked"))
    || (|first| < |value| && ListsChunked(value[|first| + 1..]))
  }

  predicate IsChunked(headers: seq<Header>) {
    exists i :: 0 <= i < |headers| && IsTransferEncoding(headers[i])
                && ValidUtf8(headers[i].value) && ListsChunked(headers[i].value)
  }

  /** Every Content-Length is a number within the limit, and they agree. */
  predicate LengthsAgree(headers: seq<Header>, limit: nat) {
    && (forall i :: 0 <= i < |headers| && IsLength(headers[i]) ==>
          DeclaredLength(headers[i]).Some? && DeclaredLength(headers[i]).value <= limit)
    && (forall i, j :: 0 <= i < j < |headers| && IsLength(headers[i]) && IsLength(headers[j]) ==>
          DeclaredLength(headers[i]) == DeclaredLength(headers[j]))
  }

  predicate LengthsMatch(headers: seq<Header>, size: nat) {
    forall i :: 0 <= i < |headers| && IsLength(headers[i]) ==> DeclaredLength(headers[i]) == Some(size)
  }

  /** What the client delivers: the decoded chunks if any coding is `chunked`,
      else all that came before the connection closed, if it is as long as
      announced; each within the limit, and only if what is announced is in order. */
  predicate Delivers(headers: seq<Header>, received: bytes, limit: nat, body: bytes) {
    && LengthsAgree(headers, limit)
    && if IsChunked(headers) then Decode(received, limit) == Ok(body)
       else received == body && |body| <= limit && LengthsMatch(headers, |body|)
  }

  predicate FirstLocation(headers: seq<Header>, i: nat) {
    i < |headers| && IsLocation(headers[i]) && forall j :: 0 <= j < i ==> !IsLocation(headers[j])
  }

  method FindLocation(headers: seq<Header>) returns (r: Option<bytes>)
    ensures r.None? ==> forall i :: 0 <= i < |headers| ==> !IsLocation(headers[i])
    ensures r.Some? ==> exists i: nat :: FirstLocation(headers, i) && headers[i].value == r.value
  {
    for i := 0 to |headers|
      invariant forall j :: 0 <= j < i ==> !IsLocation(headers[j])
    {
      if IsLocation(headers[i]) {
        assert FirstLocation(headers, i);
        return Some(headers[i].value);
      }
    }
    return None;
  }

  /** The Content-Length loop: the agreed length, or why there is none. */
  method AgreedLength(headers: seq<Header>, limit: nat) returns (r: Result<Option<nat>, ResponseError>)
    ensures r.Ok? <==> LengthsAgree(headers, limit)
    ensures r.Ok? && r.value.None? ==> forall i :: 0 <= i < |headers| ==> !IsLength(headers[i])
    ensures r.Ok? && r.value.Some? ==>
              && (exists i :: 0 <= i < |headers| && IsLength(headers[i]))
              && LengthsMatch(headers, r.value.value)
  {
    hide IsLength, DeclaredLength;
    var contentLength: Option<nat> := None;
    for i := 0 to |headers|
      invariant LengthsAgree(headers[..i], limit)
      invariant contentLength.None? ==> forall j :: 0 <= j < i ==> !IsLength(headers[j])
      invariant contentLength.Some? ==>
                  && (exists j :: 0 <= j < i && IsLength(headers[j]))
                  && (forall j :: 0 <= j < i && IsLength(headers[j]) ==> DeclaredLength(headers[j]) == contentLength)
    {
      assert headers[..i + 1] == headers[..i] + [headers[i]];
      if IsLength(headers[i]) {
        var declared := DeclaredLength(headers[i]);
        if declared.None? { return Err(InvalidLength); }
        if declared.value > limit { return Err(ExceedsLimit); }
        if contentLength.Some? && contentLength != declared {
          return Err(ConflictingLengths);
        }
        contentLength := declared;
      }
    }
    assert headers[..|headers|] == headers;
    return Ok(contentLength);
  }

  predicate Success(status: Option<nat>) { status.Some? && 200 <= status.value < 300 }
  predicate Redirection(status: Option<nat>) { status.Some? && 300 <= status.value < 400 }

  method ParseResponse(buf: bytes, head: Head, limit: nat) returns (r: Result<Outcome, ResponseError>)
    requires head.Complete? ==> head.bodyStart <= |buf|
    // A body is delivered exactly when a complete success head frames it so.
    ensures forall b :: r == Ok(Body(b)) <==>
              head.Complete? && Success(head.status) && Delivers(head.headers, buf[head.bodyStart..], limit, b)
    ensures r.Ok? && r.value.Body? ==> |r.value.body| <= limit
    // A redirect is followed exactly to the first Location of a 3xx response.
    ensures forall l :: r == Ok(Redirect(l)) <==>
              && head.Complete? && Redirection(head.status)
              && exists i: nat :: FirstLocation(head.headers, i) && head.headers[i].value == l && ValidUtf8(l)
  {
    hide IsLocation, LengthsAgree, LengthsMatch, IsChunked, Decode, ValidUtf8;
    if head.Malformed? { return Err(MalformedHead); }
    if head.Partial? { return Err(IncompleteHead); }
    if head.status.None? { return Err(NoStatus); }
    var status := head.status.value;
    if 300 <= status < 400 {
      var location := FindLocation(head.headers);
      if location.None? { return Err(NoLocation); }
      if !ValidUtf8(location.value) { return Err(NonUtf8Location); }
      return Ok(Redirect(location.value));
    }
    if !(200 <= status < 300) { return Err(BadStatus(status)); }
    var contentLength := AgreedLength(head.headers, limit);
    if contentLength.Err? { return Err(contentLength.error); }
    var received := buf[head.bodyStart..];
    if IsChunked(head.headers) {
      var decoded := DecodeChunked(received, limit);
      if decoded.Err? { return Err(BadChunks(decoded.error)); }
      ghost var frames, last, tail := DecodedBodyIsFramed(received, limit);
      return Ok(Body(decoded.value));
    }
    DeclaredOrNot(head.headers, contentLength.value, |received|);
    if contentLength.value.Some? && contentLength.value.value != |received| {
      return Err(LengthMismatch);
    }
    if |received| > limit { return Err(ExceedsLimit); }
    return Ok(Body(received));
  }

  lemma DeclaredOrNot(headers: seq<Header>, agreed: Option<nat>, size: nat)
    requires agreed.None? ==> forall i :: 0 <= i < |headers| ==> !IsLength(headers[i])
    requires agreed.Some? ==>
               (exists i :: 0 <= i < |headers| && IsLength(headers[i])) && LengthsMatch(headers, agreed.value)
    ensures LengthsMatch(headers, size) <==> (agreed.None? || agreed.value == size)
  {
  }

  /** A length that is no number, beyond the limit, or contradicted by another is
      reason enough to deliver nothing. */
  lemma BadLengthIsRefused(headers: seq<Header>, received: bytes, limit: nat, body: bytes, i: nat, j: nat)
    requires i < |headers| && j < |headers| && IsLength(headers[i]) && IsLength(headers[j])
    requires
      || DeclaredLength(headers[i]).None?
      || DeclaredLength(headers[i]).value > limit
      || DeclaredLength(headers[i]) != DeclaredLength(headers[j])
    ensures !Delivers(headers, received, limit, body)
  {
    hide IsLength, DeclaredLength, Decode, IsChunked;
  }

  /** The text between i and j stands between commas or the ends. */
  predicate IsElement(value: bytes, i: nat, j: nat) {
    && i <= j <= |value| && 44 !in value[i..j]
    && (i == 0 || value[i - 1] == 44) && (j == |value| || value[j] == 44)
  }

  predicate ChunkedAt(value: bytes, i: nat, j: nat) {
    IsElement(value, i, j) && EqIgnoreCase(Trim(value[i..j]), Ascii("chunked"))
  }

  /** By position: `chunked` is listed exactly when it is an element. */
  lemma {:induction false} ListsChunkedIff(value: bytes)
    ensures ListsChunked(value) <==> exists i: nat, j: nat :: ChunkedAt(value, i, j)
    decreases |value|
  {
    hide Trim, EqIgnoreCase, IsElement;
    var first, k := Before(value, 44), |Before(value, 44)| + 1;
    BeforeIsFirst(value);
    StartsWithElement(value);
    assert ChunkedAt(value, 0, |first|) <==> EqIgnoreCase(Trim(first), Ascii("chunked"));
    if |first| < |value| {
      var rest := value[k..];
      ListsChunkedIff(rest);
      if i: nat, j: nat :| ChunkedAt(rest, i, j) {
        ElementBehind(value, i, j);
        assert ChunkedAt(value, i + k, j + k);
      }
    }
    if i: nat, j: nat :| ChunkedAt(value, i, j) {
      if i < k {
        FirstElement(value, i, j);
      } else {
        LaterElement(value, i, j);
        assert ChunkedAt(value[k..], i - k, j - k);
      }
    }
  }

  lemma StartsWithElement(value: bytes)
    ensures var k := |Before(value, 44)|; k <= |value| && IsElement(value, 0, k) && value[0..k] == Before(value, 44)
  {
    BeforeIsFirst(value);
  }

  lemma LaterElement(value: bytes, i: nat, j: nat)
    requires IsElement(value, i, j) && i > |Before(value, 44)|
    ensures var k := |Before(value, 44)| + 1;
      k <= i <= j <= |value| && IsElement(value[k..], i - k, j - k) && value[k..][i - k..j - k] == value[i..j]
  {
    var k := |Before(value, 44)| + 1;
    assert value[k..][i - k..j - k] == value[i..j];
  }

  lemma ElementBehind(value: bytes, i: nat, j: nat)
    requires |Before(value, 44)| < |value| && IsElement(value[|Before(value, 44)| + 1..], i, j)
    ensures var k := |Before(value, 44)| + 1;
      && i <= j && j + k <= |value|
      && IsElement(value, i + k, j + k) && value[k..][i..j] == value[i + k..j + k]
  {
    BeforeIsFirst(value);
    var k := |Before(value, 44)| + 1;
    assert value[k..][i..j] == value[i + k..j + k];
  }

  lemma {:induction false} BeforeIsFirst(value: bytes)
    ensures Before(value, 44) <= value && 44 !in Before(value, 44)
    ensures |Before(value, 44)| < |value| ==> value[|Before(value, 44)|] == 44
    decreases |value|
  {
    if value != [] && value[0] != 44 { BeforeIsFirst(value[1..]); }
  }

  lemma FirstElement(value: bytes, i: nat, j: nat)
    requires IsElement(value, i, j) && i <= |Before(value, 44)|
    ensures i == 0 && j == |Before(value, 44)|
  {
    var first := Before(value, 44);
    BeforeIsFirst(value);
    assert forall k :: 0 <= k < |first| ==> first[k] == value[k] && value[k] != 44;
    assert forall k :: i <= k < j ==> value[k] == value[i..j][k - i] && value[k] != 44;
  }

  /** A transfer cut short is never delivered, whether its end was announced by
      Content-Length or by the chunked framing. */
  lemma TruncatedResponseIsNotDelivered(headers: seq<Header>, whole: bytes, p: bytes, limit: nat, body: bytes,
                                        frames: seq<Frame>, last: bytes, trailers: seq<bytes>)
    requires StrictPrefix(p, whole)
    requires if IsChunked(headers)
             then GoodFrames(frames) && GoodSizeLine(last, 0) && GoodTrailers(trailers)
                  && whole == Render(frames, last, TrailerBlock(trailers))
             else (exists i :: 0 <= i < |headers| && IsLength(headers[i])) && LengthsMatch(headers, |whole|)
    ensures !Delivers(headers, p, limit, body)
  {
    hide IsLength, DeclaredLength, Decode, IsChunked;
    if IsChunked(headers) {
      TruncationIsRejected(frames, last, trailers, p, limit);
    } else {
      var i :| 0 <= i < |headers| && IsLength(headers[i]);
      assert |p| < |whole|;
    }
  }

  // ---------------------------------------------------------------------
  // The read loop and its cap.
  // ---------------------------------------------------------------------

  /** All bytes up to the first empty read, which is the end of the stream. */
  function UntilEof(packets: seq<bytes>): bytes {
    if packets == [] || packets[0] == [] then [] else packets[0] + UntilEof(packets[1..])
  }

  function ReadCap(limit: nat): nat {
    if limit + MAX_HEADER_BYTES <= USIZE_MAX then limit + MAX_HEADER_BYTES else USIZE_MAX
  }

  /** The buffering loop of `read_response`: the whole stream or a refusal. */
  method ReadAll(packets: seq<bytes>, limit: nat) returns (r: Result<bytes, ResponseError>)
    ensures r == if |UntilEof(packets)| <= ReadCap(limit) then Ok(UntilEof(packets)) else Err(ExceedsLimit)
  {
    var buf: bytes := [];
    var i := 0;
    while i < |packets|
      invariant 0 <= i <= |packets| && |buf| <= ReadCap(limit)
      invariant UntilEof(packets) == buf + UntilEof(packets[i..])
    {
      var n := packets[i];
      if n == [] { break; }
      if |buf| + |n| > ReadCap(limit) { return Err(ExceedsLimit); }
      assert buf + (n + UntilEof(packets[i..][1..])) == (buf + n) + UntilEof(packets[i + 1..]);
      buf := buf + n;
      i := i + 1;
    }
    assert UntilEof(packets[i..]) == [];
    assert buf + [] == buf;
    return Ok(buf);
  }

  const ONE := SizeText([49], [])
  const ZERO := SizeText([48], [])

  /** `n` chunks of one zero byte each, without extensions. */
  function OneByteChunks(n: nat): seq<Chunk> {
    if n == 0 then [] else [Chunk([0], ONE)] + OneByteChunks(n - 1)
  }

  lemma PlainSizes()
    ensures Spells(ONE, 1) && Spells(ZERO, 0)
  {
    assert ExtensionFrom([], 0);
    assert ONE.digits[..0] == [] && ZERO.digits[..0] == [];
  }

  lemma {:induction false} OneByteChunksAreLong(n: nat)
    ensures Encodable(OneByteChunks(n)) && AllUtf8(OneByteChunks(n), ZERO) && |Content(OneByteChunks(n))| == n
    ensures |Encode(OneByteChunks(n), ZERO, [])| == 6 * n + 5
    decreases n
  {
    hide Spells;
    PlainSizes();
    if n > 0 {
      OneByteChunksAreLong(n - 1);
      var chunks := OneByteChunks(n);
      assert chunks[1..] == OneByteChunks(n - 1);
      RenderFirst(chunks, SizeLine(ZERO), TrailerBlock([]));
    }
  }

  /** "A chunked body within the limit is delivered" is false of the whole
      client: the cap on what is read counts the framing, and framing can
      outweigh its headroom. Here a body of exactly the limit is refused. */
  lemma FramingCanExceedTheReadCap(limit: nat)
    requires limit > 13106
    ensures exists chunks ::
              && Encodable(chunks) && |Content(chunks)| == limit
              && Decode(Encode(chunks, ZERO, []), limit) == Ok(Content(chunks))
              && |Encode(chunks, ZERO, [])| > ReadCap(limit)
  {
    hide Decode, Spells;
    OneByteChunksAreLong(limit);
    PlainSizes();
    RoundTrip(OneByteChunks(limit), ZERO, [], limit);
  }

  /** The client as a whole: what arrives fits the read cap, has a complete
      success head, and is framed within the limit. */
  predicate Receives(packets: seq<bytes>, parse: bytes -> Head, limit: nat, body: bytes) {
    var buf := UntilEof(packets);
    && |buf| <= ReadCap(limit)
    && parse(buf).Complete? && Success(parse(buf).status) && parse(buf).bodyStart <= |buf|
    && Delivers(parse(buf).headers, buf[parse(buf).bodyStart..], limit, body)
  }

  method ReadResponse(packets: seq<bytes>, parse: bytes -> Head, limit: nat) returns (r: Result<Outcome, ResponseError>)
    requires forall s :: parse(s).Complete? ==> parse(s).bodyStart <= |s|
    ensures forall b :: r == Ok(Body(b)) <==> Receives(packets, parse, limit, b)
  {
    hide Delivers;
    var buf := ReadAll(packets, limit);
    if buf.Err? { return Err(buf.error); }
    r := ParseResponse(buf.value, parse(buf.value), limit);
  }

  /** The exact condition: a chunked response whose body is within the limit is
      received if and only if head and framing together fit the read cap and
      every extension is UTF-8. */
  lemma ChunkedResponseGetsThrough(head: bytes, chunks: seq<Chunk>, last: SizeText, trailers: seq<bytes>,
                                   packets: seq<bytes>, parse: bytes -> Head, limit: nat)
    requires Encodable(chunks) && Spells(last, 0) && |Content(chunks)| <= limit
    requires UntilEof(packets) == head + Encode(chunks, last, trailers)
    requires var h := parse(UntilEof(packets));
             h.Complete? && h.bodyStart == |head| && Success(h.status) && IsChunked(h.headers) &&
               LengthsAgree(h.headers, limit)
    ensures Receives(packets, parse, limit, Content(chunks)) <==>
              |head| + |Encode(chunks, last, trailers)| <= ReadCap(limit) && AllUtf8(chunks, last)
  {
    hide IsChunked, LengthsAgree, Decode, Spells;
    assert UntilEof(packets)[|head|..] == Encode(chunks, last, trailers);
    RoundTrip(chunks, last, trailers, limit);
  }

  // ---------------------------------------------------------------------
  // Redirects.
  // ---------------------------------------------------------------------

  predicate Sensitive(h: Header) {
    || EqIgnoreCase(h.name, Ascii("authorization"))
    || EqIgnoreCase(h.name, Ascii("cookie"))
    || EqIgnoreCase(h.name, Ascii("cookie2"))
    || EqIgnoreCase(h.name, Ascii("proxy-authorization"))
    || EqIgnoreCase(h.name, Ascii("www-authenticate"))
  }

  /** The headers that survive a change of origin, in order. */
  function Retained(headers: seq<Header>): seq<Header> {
    if headers == [] then []
    else (if Sensitive(headers[0]) then [] else [headers[0]]) + Retained(headers[1..])
  }

  lemma {:induction false} RetainedAreHarmless(headers: seq<Header>)
    ensures forall i :: 0 <= i < |Retained(headers)| ==> !Sensitive(Retained(headers)[i])
    ensures Retained(Retained(headers)) == Retained(headers)
    decreases |headers|
  {
    hide Sensitive;
    if headers != [] {
      RetainedAreHarmless(headers[1..]);
      var rest := Retained(headers[1..]);
      if !Sensitive(headers[0]) {
        assert Retained(headers) == [headers[0]] + rest;
        assert Retained(headers)[1..] == rest;
      } else {
        assert Retained(headers) == rest;
      }
    }
  }

  /** Everything else is kept, in its place. */
  lemma {:induction false} RetainedKeepsTheRest(headers: seq<Header>, i: nat)
    requires i < |headers|
    ensures Retained(headers) ==
            Retained(headers[..i]) + (if Sensitive(headers[i]) then [] else [headers[i]]) + Retained(headers[i + 1..])
    decreases |headers|
  {
    hide Sensitive;
    if i > 0 {
      RetainedKeepsTheRest(headers[1..], i - 1);
      assert headers[1..][..i - 1] == headers[..i][1..] && headers[1..][i..] == headers[i + 1..];
    } else {
      assert Retained(headers[..0]) == [];
    }
  }

  /** The headers meant, by name in any case. */
  lemma CredentialNames(h: Header)
    ensures Sensitive(h) <==>
            exists name :: name in ["authorization", "cookie", "cookie2", "proxy-authorization", "www-authenticate"]
                           && IsAsciiText(name) && EqIgnoreCase(h.name, Ascii(name))
  {
    hide EqIgnoreCase;
    var names := ["authorization", "cookie", "cookie2", "proxy-authorization", "www-authenticate"];
    assert forall k :: 0 <= k < |names| ==> names[k] in names && IsAsciiText(names[k]);
    if Sensitive(h) {
      assert exists k :: 0 <= k < |names| && EqIgnoreCase(h.name, Ascii(names[k])) by {
        if EqIgnoreCase(h.name, Ascii(names[0])) {} else if EqIgnoreCase(h.name, Ascii(names[1])) {}
        else if EqIgnoreCase(h.name, Ascii(names[2])) {} else if EqIgnoreCase(h.name, Ascii(names[3])) {}
        else { assert EqIgnoreCase(h.name, Ascii(names[4])); }
      }
    }
  }

  predicate IsAsciiText(s: string) { forall i :: 0 <= i < |s| ==> s[i] < 128 as char }

  /** One request the client sent: where to, and with which headers. */
  datatype Request<U> = Request(url: U, headers: seq<Header>)

  /** The world the loop runs in: origins, URL joining, and the response to a
      request, which may differ from attempt to attempt. */
  datatype Web<!U, !O> = Web(
    origin: U -> O,
    join: (U, bytes) -> Option<U>,
    fetchOne: (nat, Request<U>) -> Result<Outcome, ResponseError>)

  /** Requests `0..n` all went to one origin. */
  ghost predicate OneOrigin<U, O>(web: Web<U, O>, sent: seq<Request<U>>, n: nat)
    requires n < |sent|
  {
    forall i :: 0 <= i <= n ==> web.origin(sent[i].url) == web.origin(sent[0].url)
  }

  /** The log of a run: each request carries the caller's headers while every
      hop so far stayed on one origin, and only the harmless ones after that. */
  ghost predicate HeadersFollowOrigin<U, O>(web: Web<U, O>, given: seq<Header>, sent: seq<Request<U>>) {
    forall n :: 0 <= n < |sent| ==>
      sent[n].headers == if OneOrigin(web, sent, n) then given else Retained(given)
  }

  /** Each request but the first answers the redirect of the one before it. */
  ghost predicate FollowsRedirects<U, O>(web: Web<U, O>, sent: seq<Request<U>>) {
    forall n: nat :: 0 < n < |sent| ==> RedirectedTo(web, n - 1, sent[n - 1], sent[n].url)
  }

  ghost predicate RedirectedTo<U, O>(web: Web<U, O>, attempt: nat, request: Request<U>, url: U) {
    match web.fetchOne(attempt, request)
    case Ok(Redirect(l)) => web.join(request.url, l) == Some(url)
    case _ => false
  }

  method FetchCapped<U, O(==)>(web: Web<U, O>, start: Option<U>, given: seq<Header>)
    returns (r: Result<bytes, ResponseError>, sent: seq<Request<U>>)
    ensures |sent| <= MAX_REDIRECTS + 1
    ensures start.Some? ==> |sent| > 0 && sent[0] == Request(start.value, given)
    ensures HeadersFollowOrigin(web, given, sent) && FollowsRedirects(web, sent)
    ensures r.Ok? ==> |sent| > 0 && web.fetchOne(|sent| - 1, sent[|sent| - 1]) == Ok(Body(r.value))
    // Giving up on redirects takes the whole budget.
    ensures (&& r == Err(TooManyRedirects)
             && forall n :: 0 <= n < |sent| ==> web.fetchOne(n, sent[n]) != Err(TooManyRedirects)) ==>
              |sent| == MAX_REDIRECTS + 1
  {
    hide Retained, Sensitive;
    sent := [];
    if start.None? { return Err(BadUrl), sent; }
    var current, headers := start.value, given;
    ghost var stayed := true;
    for attempt := 0 to MAX_REDIRECTS + 1
      invariant |sent| == attempt
      invariant attempt > 0 ==> sent[0] == Request(start.value, given)
      invariant attempt == 0 ==> current == start.value && headers == given
      invariant HeadersFollowOrigin(web, given, sent) && FollowsRedirects(web, sent)
      invariant headers == if stayed then given else Retained(given)
      invariant stayed <==>
                || attempt == 0
                || (OneOrigin(web, sent, attempt - 1) && web.origin(current) == web.origin(start.value))
      invariant attempt > 0 ==> RedirectedTo(web, attempt - 1, sent[attempt - 1], current)
    {
      ghost var earlier := sent;
      sent := sent + [Request(current, headers)];
      OriginSoFar(web, earlier, sent[attempt]);
      Extended(web, given, earlier, sent[attempt]);
      var outcome := web.fetchOne(attempt, sent[attempt]);
      if outcome.Err? { return Err(outcome.error), sent; }
      if outcome.value.Body? { return Ok(outcome.value.body), sent; }
      var next := web.join(current, outcome.value.location);
      if next.None? { return Err(BadUrl), sent; }
      if web.origin(current) != web.origin(next.value) {
        RetainedAreHarmless(given);
        headers := Retained(headers);
        stayed := false;
      }
      current := next.value;
    }
    return Err(TooManyRedirects), sent;
  }

  lemma OriginSoFar<U, O>(web: Web<U, O>, sent: seq<Request<U>>, last: Request<U>)
    ensures OneOrigin(web, sent + [last], |sent|) <==>
              |sent| == 0 || (OneOrigin(web, sent, |sent| - 1) && web.origin(last.url) == web.origin(sent[0].url))
  {
    var longer := sent + [last];
    assert longer[|sent|] == last;
    assert forall i :: 0 <= i < |sent| ==> longer[i] == sent[i];
    if |sent| > 0 && OneOrigin(web, longer, |sent|) {
      forall i | 0 <= i <= |sent| - 1
        ensures web.origin(sent[i].url) == web.origin(sent[0].url)
      {
        assert web.origin(longer[i].url) == web.origin(longer[0].url);
      }
    }
  }

  lemma Extended<U, O>(web: Web<U, O>, given: seq<Header>, sent: seq<Request<U>>, last: Request<U>)
    requires HeadersFollowOrigin(web, given, sent) && FollowsRedirects(web, sent)
    requires |sent| > 0 ==> RedirectedTo(web, |sent| - 1, sent[|sent| - 1], last.url)
    requires last.headers == if OneOrigin(web, sent + [last], |sent|) then given else Retained(given)
    ensures HeadersFollowOrigin(web, given, sent + [last]) && FollowsRedirects(web, sent + [last])
  {
    var longer := sent + [last];
    forall n | 0 <= n < |sent|
      ensures OneOrigin(web, longer, n) == OneOrigin(web, sent, n)
    {
      assert forall i :: 0 <= i <= n ==> longer[i] == sent[i];
    }
    forall n: nat | 0 < n < |longer|
      ensures RedirectedTo(web, n - 1, longer[n - 1], longer[n].url)
    {
      assert longer[n - 1] == sent[n - 1];
      if n < |sent| { assert longer[n] == sent[n]; }
    }
  }

  /** No credential ever reaches an origin other than the first: a request that
      carries a sensitive header went, like all before it, to that origin. */
  lemma CredentialsStayHome<U, O>(web: Web<U, O>, given: seq<Header>, sent: seq<Request<U>>, n: nat, h: Header)
    requires HeadersFollowOrigin(web, given, sent) && n < |sent|
    requires h in sent[n].headers && Sensitive(h)
    ensures OneOrigin(web, sent, n) && web.origin(sent[n].url) == web.origin(sent[0].url)
  {
    RetainedAreHarmless(given);
  }
}
