/**
 * The hyper integration of the oldest generation (src/hyper_loader.rs): a
 * body that sends a static slice in chunks of at most 8 KiB, and a
 * responder that serves GET requests from a loader. The responder reads a
 * content type and an ETag per file, which the oldest loader's descriptor
 * does not carry, so it is modelled against a descriptor that does.
 */
module LegacyHyper {
  import opened Wrappers
  import opened Bytes
  import opened Seqs
  import opened Http

  /** `StaticBody::CHUNK_SIZE`: the most bytes sent by one poll. */
  const CHUNK_SIZE: nat := 8 * 1024

  /** `StaticBody`: the part of the slice not sent yet. */
  datatype StaticBody = StaticBody(pending: seq<byte>)

  /** `StaticBody::new`: the whole slice is pending. */
  function New(content: seq<byte>): (b: StaticBody)
    ensures Flatten(Chunks(b)) == content
  {
    var b := StaticBody(content);
    ChunksRebuildContent(b);
    b
  }

  /** `StaticBody::default`: nothing pending, so the body ends at once. */
  function Default(): (b: StaticBody)
    ensures IsEndStream(b) && Chunks(b) == []
  {
    StaticBody([])
  }

  /** `is_end_stream`: nothing is pending. */
  function IsEndStream(b: StaticBody): (r: bool)
    ensures r <==> Chunks(b) == []
  {
    |b.pending| <= 0
  }

  /** `size_hint`: exact, the number of bytes the remaining polls deliver. */
  function SizeHintOf(b: StaticBody): (r: SizeHint)
    ensures r.upper == Some(r.lower)
    ensures r.lower == |Flatten(Chunks(b))|
  {
    ChunksRebuildContent(b);
    ExactSize(|b.pending|)
  }

  /** What one `poll_data` yields, and the body after it. */
  datatype Polled = Polled(chunk: Option<seq<byte>>, after: StaticBody)

  /**
   * `poll_data`: at the end of the stream, nothing; otherwise the next
   * min(CHUNK_SIZE, pending) bytes, and the pending slice moves past them.
   */
  function PollData(b: StaticBody): (r: Polled)
    ensures r.chunk.None? <==> |b.pending| == 0
    ensures r.chunk.None? ==> r.after == b
    ensures r.chunk.Some? ==>
              && 0 < |r.chunk.value| <= CHUNK_SIZE
              && b.pending == r.chunk.value + r.after.pending
              && (|r.chunk.value| == CHUNK_SIZE || |r.after.pending| == 0)
  {
    if |b.pending| <= 0 then Polled(None, b)
    else
      var end := if CHUNK_SIZE < |b.pending| then CHUNK_SIZE else |b.pending|;
      assert b.pending == b.pending[..end] + b.pending[end..];
      Polled(Some(b.pending[..end]), StaticBody(b.pending[end..]))
  }

  /** The chunks a consumer collects by polling until the end. */
  function Chunks(b: StaticBody): (chunks: seq<seq<byte>>)
    decreases |b.pending|
  {
    var polled := PollData(b);
    match polled.chunk
    case None => []
    case Some(c) => [c] + Chunks(polled.after)
  }

  /** The number of chunks a slice of `n` bytes is sent in: `n` divided by the chunk size, rounded up. */
  function ChunkCount(n: nat): nat
  {
    (n + CHUNK_SIZE - 1) / CHUNK_SIZE
  }

  /**
   * The chunks concatenate to the pending bytes; each is non-empty and at
   * most CHUNK_SIZE long, every one but the last is exactly CHUNK_SIZE
   * long, and there are as few of them as that allows.
   */
  lemma {:induction false} ChunksRebuildContent(b: StaticBody)
    ensures Flatten(Chunks(b)) == b.pending
    ensures WellChunked(Chunks(b))
    ensures |Chunks(b)| == ChunkCount(|b.pending|)
    decreases |b.pending|
  {
    var polled := PollData(b);
    if polled.chunk.Some? {
      var c := polled.chunk.value;
      var rest := Chunks(polled.after);
      ChunksRebuildContent(polled.after);
      assert Chunks(b) == [c] + rest;
      PrependChunk(c, rest);
      ChunkCountStep(|b.pending|, |c|);
    }
  }

  /** Every chunk is non-empty and at most CHUNK_SIZE long, and all but the last are full. */
  predicate WellChunked(chunks: seq<seq<byte>>)
  {
    && (forall k :: 0 <= k < |chunks| ==> 0 < |chunks[k]| <= CHUNK_SIZE)
    && (forall k :: 0 <= k < |chunks| - 1 ==> |chunks[k]| == CHUNK_SIZE)
  }

  /** A full chunk, or a last one, may go in front of well-chunked bytes. */
  lemma PrependChunk(c: seq<byte>, rest: seq<seq<byte>>)
    requires 0 < |c| <= CHUNK_SIZE && (|c| == CHUNK_SIZE || rest == [])
    requires WellChunked(rest)
    ensures WellChunked([c] + rest)
  {
    var all := [c] + rest;
    forall k | 0 < k < |all|
      ensures all[k] == rest[k - 1]
    {
    }
  }

  /** Taking one chunk off `n` bytes leaves one chunk fewer. */
  lemma ChunkCountStep(n: nat, taken: nat)
    requires 0 < taken <= CHUNK_SIZE && taken <= n && (taken == CHUNK_SIZE || taken == n)
    ensures ChunkCount(n) == 1 + ChunkCount(n - taken)
  {
  }

  /**
   * A consumer's loop: poll until the end of the stream, collecting the
   * chunks. It collects exactly the chunks of the body, and so exactly the
   * content.
   */
  method Drain(content: seq<byte>) returns (chunks: seq<seq<byte>>)
    ensures chunks == Chunks(New(content))
    ensures Flatten(chunks) == content
  {
    var body := New(content);
    chunks := [];
    while |body.pending| > 0
      invariant chunks + Chunks(body) == Chunks(New(content))
      decreases |body.pending|
    {
      var polled := PollData(body);
      var c := polled.chunk.value;
      assert Chunks(body) == [c] + Chunks(polled.after);
      assert chunks + Chunks(body) == (chunks + [c]) + Chunks(polled.after);
      chunks := chunks + [c];
      body := polled.after;
    }
    assert chunks + Chunks(body) == chunks;
  }

  /** The descriptor the responder serves: content type, ETag and content. */
  datatype ServedFile = ServedFile(contentType: Text, etag: Text, content: seq<byte>)

  /** The request parts `respond` reads: method, URI path and headers. */
  datatype Request = Request(verb: Method, path: Text, headers: HeaderMap)

  /** The request carries an `If-None-Match` equal, byte for byte, to the file's ETag. */
  predicate EtagMatches(headers: HeaderMap, f: ServedFile)
  {
    IfNoneMatch in headers && headers[IfNoneMatch] == f.etag
  }

  /** `respond` reaches the builder of a 200 response for this request. */
  predicate ReachesOk(files: map<Text, ServedFile>, req: Request)
  {
    req.verb.Get? && req.path in files && !EtagMatches(req.headers, files[req.path])
  }

  /**
   * `respond` returns rather than panics: a 200 is built from the content
   * type and ETag as strings, and the builder's `unwrap` panics on one that
   * is not a valid header value.
   */
  predicate Responds(files: map<Text, ServedFile>, req: Request)
  {
    ReachesOk(files, req) ==>
      ValidHeaderValue(files[req.path].contentType) && ValidHeaderValue(files[req.path].etag)
  }

  /** A status with no headers and the default, empty body. */
  function Bare(status: nat): (r: Response<StaticBody>)
    ensures r.status == status && r.headers == [] && Chunks(r.body) == []
  {
    Response(status, [], Default())
  }

  /**
   * `Responder::respond`. Only GET is served; the path is looked up in the
   * loader; a matching `If-None-Match` gives a bare 304; otherwise a 200
   * with content type, content length and ETag, and the content as the body.
   */
  function Respond(files: map<Text, ServedFile>, req: Request): (r: Response<StaticBody>)
    requires Responds(files, req)
    // the method is checked first, then the path, then the ETag
    ensures r.status == METHOD_NOT_ALLOWED <==> !req.verb.Get?
    ensures r.status == NOT_FOUND <==> req.verb.Get? && req.path !in files
    ensures r.status == NOT_MODIFIED <==>
              req.verb.Get? && req.path in files && EtagMatches(req.headers, files[req.path])
    ensures r.status == OK <==> ReachesOk(files, req)
    // everything but a 200 is bare
    ensures r.status != OK ==> r.headers == [] && Chunks(r.body) == []
    ensures r.status == OK ==>
              var f := files[req.path];
              && HeaderGet(r.headers, ContentType) == Some(f.contentType)
              && HeaderGet(r.headers, ETag) == Some(f.etag)
              && HeaderGet(r.headers, ContentLength).Some?
              && ParseDecimal(HeaderGet(r.headers, ContentLength).value) == Some(|f.content|)
              && HeaderGet(r.headers, ContentEncoding).None?
              && Flatten(Chunks(r.body)) == f.content
    ensures forall k :: 0 <= k < |r.headers| ==> ValidHeaderValue(r.headers[k].value)
  {
    if !req.verb.Get? then Bare(METHOD_NOT_ALLOWED)
    else if req.path !in files then Bare(NOT_FOUND)
    else
      var f := files[req.path];
      if IfNoneMatch in req.headers && req.headers[IfNoneMatch] == f.etag then Bare(NOT_MODIFIED)
      else Ok(f)
  }

  /** The 200 the builder makes for a file: its headers, and its content as the body. */
  function Ok(f: ServedFile): (r: Response<StaticBody>)
    requires ValidHeaderValue(f.contentType) && ValidHeaderValue(f.etag)
    ensures r.status == OK
    ensures HeaderGet(r.headers, ContentType) == Some(f.contentType)
    ensures HeaderGet(r.headers, ETag) == Some(f.etag)
    ensures HeaderGet(r.headers, ContentLength).Some?
    ensures ParseDecimal(HeaderGet(r.headers, ContentLength).value) == Some(|f.content|)
    ensures HeaderGet(r.headers, ContentEncoding).None?
    ensures Flatten(Chunks(r.body)) == f.content
    ensures forall k :: 0 <= k < |r.headers| ==> ValidHeaderValue(r.headers[k].value)
  {
    DecimalRoundTrip(|f.content|);
    OkHeadersValid(f.contentType, |f.content|, f.etag);
    Response(OK, OkHeaders(f.contentType, |f.content|, f.etag), New(f.content))
  }

  /** The builder's `unwrap` does not panic: every header of a 200 is valid when its inputs are. */
  lemma OkHeadersValid(contentType: HeaderValue, length: nat, etag: HeaderValue)
    requires ValidHeaderValue(contentType) && ValidHeaderValue(etag)
    ensures forall k :: 0 <= k < |OkHeaders(contentType, length, etag)| ==>
              ValidHeaderValue(OkHeaders(contentType, length, etag)[k].value)
  {
    DecimalRoundTrip(length);
    var last := [Header(ETag, etag)];
    ValidHeadersCons(Header(ETag, etag), []);
    ValidHeadersCons(Header(ContentLength, Decimal(length)), last);
    ValidHeadersCons(Header(ContentType, contentType), [Header(ContentLength, Decimal(length))] + last);
  }

  /** The headers of a 200, in the order the builder adds them. */
  function OkHeaders(contentType: HeaderValue, length: nat, etag: HeaderValue): (hs: seq<Header>)
    ensures HeaderGet(hs, ContentType) == Some(contentType)
    ensures HeaderGet(hs, ContentLength) == Some(Decimal(length))
    ensures HeaderGet(hs, ETag) == Some(etag)
    ensures HeaderGet(hs, ContentEncoding).None?
  {
    var last := [Header(ETag, etag)];
    HeaderGetCons(Header(ETag, etag), [], ContentEncoding);
    var middle := [Header(ContentLength, Decimal(length))] + last;
    HeaderGetCons(Header(ContentLength, Decimal(length)), last, ETag);
    HeaderGetCons(Header(ContentLength, Decimal(length)), last, ContentEncoding);
    var all := [Header(ContentType, contentType)] + middle;
    HeaderGetCons(Header(ContentType, contentType), middle, ContentLength);
    HeaderGetCons(Header(ContentType, contentType), middle, ETag);
    HeaderGetCons(Header(ContentType, contentType), middle, ContentEncoding);
    all
  }

  /**
   * A 200 announces as its length exactly the number of bytes its chunks
   * carry, and sends them in full-sized chunks except perhaps the last.
   */
  lemma {:induction false} OkLengthMatchesChunks(files: map<Text, ServedFile>, req: Request)
    requires Responds(files, req) && ReachesOk(files, req)
    ensures var r := Respond(files, req);
            && ParseDecimal(HeaderGet(r.headers, ContentLength).value) == Some(|Flatten(Chunks(r.body))|)
            && |Chunks(r.body)| == ChunkCount(|files[req.path].content|)
            && WellChunked(Chunks(r.body))
  {
    var r := Respond(files, req);
    ChunksRebuildContent(r.body);
  }

  /** HEAD is not served (GET only), even for a path the loader holds. */
  lemma HeadRefused(files: map<Text, ServedFile>, path: Text, headers: HeaderMap)
    ensures Responds(files, Request(Head, path, headers))
    ensures Respond(files, Request(Head, path, headers)) == Bare(METHOD_NOT_ALLOWED)
  {
  }
}
