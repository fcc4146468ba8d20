/**
 * The hyper integration of the loader crate (loader/src/hyper_loader.rs):
 * a responder over the loader's files that serves GET only, answers a
 * matching `If-None-Match` with a bare 304, and sends the gzip variant
 * whenever the client lists "gzip" exactly and the file has one, whatever
 * its length.
 */
module HyperResponder {
  import opened Wrappers
  import opened Bytes
  import opened Seqs
  import opened Http
  import ContentEncoding
  import RecordFormat
  import RecordLoader
  import PathMap

  /** "gzip", the only encoding this responder recognises. */
  const GZIP: seq<byte> := ContentEncoding.GZIP
  /** ", ", the separator the `accept-encoding` value is split on. */
  const SEPARATOR: seq<byte> := ContentEncoding.SEPARATOR

  /** `ResponderError`. */
  datatype ResponderError = HttpMethodNotSupported | LoaderPathNotFound | UnparsableAcceptEncoding

  /** `ResponderError::as_http_status_code`: a distinct client-error status per error. */
  function AsHttpStatusCode(e: ResponderError): (s: nat)
    ensures s == METHOD_NOT_ALLOWED <==> e.HttpMethodNotSupported?
    ensures s == NOT_FOUND <==> e.LoaderPathNotFound?
    ensures s == BAD_REQUEST <==> e.UnparsableAcceptEncoding?
  {
    match e
    case HttpMethodNotSupported => METHOD_NOT_ALLOWED
    case LoaderPathNotFound => NOT_FOUND
    case UnparsableAcceptEncoding => BAD_REQUEST
  }

  /** `ResponderError::as_default_response`: the status alone, no headers, an empty body. */
  function AsDefaultResponse(e: ResponderError): (r: Response<seq<byte>>)
    ensures r.status == AsHttpStatusCode(e) && r.headers == [] && r.body == []
  {
    Response(AsHttpStatusCode(e), [], [])
  }

  /**
   * The `for_each` over the tokens of `accept-encoding`: the flag is set by
   * a token that is exactly "gzip" and never cleared.
   */
  function ScanTokens(tokens: seq<Text>, accepted: bool): bool
    decreases |tokens|
  {
    if |tokens| == 0 then accepted else ScanTokens(tokens[1..], accepted || tokens[0] == GZIP)
  }

  /** The scan ends with the flag set exactly when it started set or some token is "gzip". */
  lemma {:induction false} ScanFindsGzip(tokens: seq<Text>, accepted: bool)
    ensures ScanTokens(tokens, accepted) <==> accepted || GZIP in tokens
    decreases |tokens|
  {
    if |tokens| > 0 {
      ScanFindsGzip(tokens[1..], accepted || tokens[0] == GZIP);
      assert tokens == [tokens[0]] + tokens[1..];
    }
  }

  /**
   * Reading `accept-encoding`: without the header gzip is not accepted; a
   * value that is not a visible-ASCII string is an error; otherwise gzip is
   * accepted when some ", "-separated token is exactly "gzip", so neither a
   * weight (";q=") nor a different spacing is understood.
   */
  function GzipAccepted(headers: HeaderMap): (r: Result<bool, ResponderError>)
    ensures r.Failure? <==> AcceptEncoding in headers && ToStr(headers[AcceptEncoding]).None?
    ensures r.Failure? ==> r.error == UnparsableAcceptEncoding
    ensures r == Success(true) <==>
              AcceptEncoding in headers && ToStr(headers[AcceptEncoding]).Some? &&
              GZIP in Split(headers[AcceptEncoding], SEPARATOR)
  {
    if AcceptEncoding !in headers then Success(false)
    else match ToStr(headers[AcceptEncoding])
      case None => Failure(UnparsableAcceptEncoding)
      case Some(s) =>
        ScanFindsGzip(Split(s, SEPARATOR), false);
        Success(ScanTokens(Split(s, SEPARATOR), false))
  }

  /** The request carries an `If-None-Match` equal, byte for byte, to the file's ETag. */
  predicate EtagMatches(headers: HeaderMap, f: RecordLoader.LoadedFile)
  {
    IfNoneMatch in headers && headers[IfNoneMatch] == f.etag
  }

  /** The request gets past every check and a 200 is built. */
  predicate ReachesOk(files: map<Text, RecordLoader.LoadedFile>, m: Method, path: Text, headers: HeaderMap)
  {
    m.Get? && path in files && !EtagMatches(headers, files[path]) && GzipAccepted(headers).Success?
  }

  /**
   * `parts_respond_or_error` returns rather than panics: a 200 is built
   * from the content type and ETag as strings, and the builder's `unwrap`
   * panics on one that is not a valid header value.
   */
  predicate Responds(files: map<Text, RecordLoader.LoadedFile>, m: Method, path: Text, headers: HeaderMap)
  {
    ReachesOk(files, m, path, headers) ==>
      ValidHeaderValue(files[path].contentType) && ValidHeaderValue(files[path].etag)
  }

  /** The gzip variant is sent: accepted and stored; its length is not compared with the content's. */
  predicate SendsGzip(accepted: bool, f: RecordLoader.LoadedFile)
  {
    accepted && f.contentGzip.Some?
  }

  /** The headers of a 200, in the order the builder adds them. */
  function OkHeaders(contentType: HeaderValue, length: nat, encoding: HeaderValue, etag: HeaderValue)
    : (hs: seq<Header>)
    ensures HeaderGet(hs, ContentType) == Some(contentType)
    ensures HeaderGet(hs, ContentLength) == Some(Decimal(length))
    ensures HeaderGet(hs, ContentEncoding) == Some(encoding)
    ensures HeaderGet(hs, ETag) == Some(etag)
    ensures HeaderGet(hs, CacheControl).None?
  {
    var last := [Header(ETag, etag)];
    HeaderGetCons(Header(ETag, etag), [], CacheControl);
    var third := [Header(ContentEncoding, encoding)] + last;
    HeaderGetCons(Header(ContentEncoding, encoding), last, ETag);
    HeaderGetCons(Header(ContentEncoding, encoding), last, CacheControl);
    var second := [Header(ContentLength, Decimal(length))] + third;
    HeaderGetCons(Header(ContentLength, Decimal(length)), third, ContentEncoding);
    HeaderGetCons(Header(ContentLength, Decimal(length)), third, ETag);
    HeaderGetCons(Header(ContentLength, Decimal(length)), third, CacheControl);
    var all := [Header(ContentType, contentType)] + second;
    HeaderGetCons(Header(ContentType, contentType), second, ContentLength);
    HeaderGetCons(Header(ContentType, contentType), second, ContentEncoding);
    HeaderGetCons(Header(ContentType, contentType), second, ETag);
    HeaderGetCons(Header(ContentType, contentType), second, CacheControl);
    all
  }

  /** With valid content type, encoding and ETag, every header of a 200 is valid. */
  lemma OkHeadersValid(contentType: HeaderValue, length: nat, encoding: HeaderValue, etag: HeaderValue)
    requires ValidHeaderValue(contentType) && ValidHeaderValue(encoding) && ValidHeaderValue(etag)
    ensures ValidHeaders(OkHeaders(contentType, length, encoding, etag))
  {
    DecimalRoundTrip(length);
    var last := [Header(ETag, etag)];
    var third := [Header(ContentEncoding, encoding)] + last;
    var second := [Header(ContentLength, Decimal(length))] + third;
    ValidHeadersCons(Header(ETag, etag), []);
    ValidHeadersCons(Header(ContentEncoding, encoding), last);
    ValidHeadersCons(Header(ContentLength, Decimal(length)), third);
    ValidHeadersCons(Header(ContentType, contentType), second);
  }

  /** A 200 carrying `body`, labelled with the given content type, encoding and ETag. */
  function Ok(contentType: HeaderValue, encoding: HeaderValue, etag: HeaderValue, body: seq<byte>)
    : (r: Response<seq<byte>>)
    requires ValidHeaderValue(contentType) && ValidHeaderValue(encoding) && ValidHeaderValue(etag)
    ensures r.status == OK && r.body == body
    ensures HeaderGet(r.headers, ContentType) == Some(contentType)
    ensures HeaderGet(r.headers, ContentEncoding) == Some(encoding)
    ensures HeaderGet(r.headers, ETag) == Some(etag)
    ensures HeaderGet(r.headers, ContentLength).Some?
    ensures ParseDecimal(HeaderGet(r.headers, ContentLength).value) == Some(|body|)
    ensures forall k :: 0 <= k < |r.headers| ==> ValidHeaderValue(r.headers[k].value)
  {
    DecimalRoundTrip(|body|);
    OkHeadersValid(contentType, |body|, encoding, etag);
    Response(OK, OkHeaders(contentType, |body|, encoding, etag), body)
  }

  /** The 200 for a file, with the gzip variant or the content as chosen. */
  function OkResponse(f: RecordLoader.LoadedFile, accepted: bool): (r: Response<seq<byte>>)
    requires ValidHeaderValue(f.contentType) && ValidHeaderValue(f.etag)
    ensures r.status == OK
    ensures SendsGzip(accepted, f) ==>
              r.body == f.contentGzip.value &&
              HeaderGet(r.headers, ContentEncoding) == Some(ContentEncoding.EncodingValue(ContentEncoding.Gzip))
    ensures !SendsGzip(accepted, f) ==>
              r.body == f.content &&
              HeaderGet(r.headers, ContentEncoding) == Some(ContentEncoding.EncodingValue(ContentEncoding.Identity))
    ensures HeaderGet(r.headers, ContentType) == Some(f.contentType)
    ensures HeaderGet(r.headers, ETag) == Some(f.etag)
    ensures HeaderGet(r.headers, ContentLength).Some?
    ensures ParseDecimal(HeaderGet(r.headers, ContentLength).value) == Some(|r.body|)
    ensures forall k :: 0 <= k < |r.headers| ==> ValidHeaderValue(r.headers[k].value)
  {
    if SendsGzip(accepted, f) then
      ContentEncoding.EncodingValueValid(ContentEncoding.Gzip);
      Ok(f.contentType, ContentEncoding.EncodingValue(ContentEncoding.Gzip), f.etag, f.contentGzip.value)
    else
      ContentEncoding.EncodingValueValid(ContentEncoding.Identity);
      Ok(f.contentType, ContentEncoding.EncodingValue(ContentEncoding.Identity), f.etag, f.content)
  }

  /**
   * `Responder::parts_respond_or_error`. Only GET is served; the path is
   * looked up in the loader; a matching `If-None-Match` gives a bare 304;
   * only then is `accept-encoding` read, and a 200 is built.
   */
  function PartsRespondOrError(files: map<Text, RecordLoader.LoadedFile>, m: Method, path: Text,
                               headers: HeaderMap): (r: Result<Response<seq<byte>>, ResponderError>)
    requires Responds(files, m, path, headers)
    // the method is checked first, then the path, then the ETag, then accept-encoding
    ensures r == Failure(HttpMethodNotSupported) <==> !m.Get?
    ensures r == Failure(LoaderPathNotFound) <==> m.Get? && path !in files
    ensures r == Failure(UnparsableAcceptEncoding) <==>
              && m.Get? && path in files
              && !EtagMatches(headers, files[path])
              && GzipAccepted(headers).Failure?
    // a bare 304 exactly when the ETag matches
    ensures r.Success? ==> m.Get? && path in files
    ensures r.Success? && r.value.status == NOT_MODIFIED <==> m.Get? && path in files && EtagMatches(headers, files[path])
    ensures r.Success? && r.value.status == NOT_MODIFIED ==> r.value.headers == [] && r.value.body == []
    // otherwise a 200 with the chosen bytes
    ensures r.Success? && r.value.status != NOT_MODIFIED ==>
              ReachesOk(files, m, path, headers) &&
              r.value == OkResponse(files[path], GzipAccepted(headers).value)
  {
    if !m.Get? then Failure(HttpMethodNotSupported)
    else if path !in files then Failure(LoaderPathNotFound)
    else
      var f := files[path];
      if IfNoneMatch in headers && headers[IfNoneMatch] == f.etag then
        Success(Response(NOT_MODIFIED, [], []))
      else match GzipAccepted(headers)
        case Failure(e) => Failure(e)
        case Success(accepted) => Success(OkResponse(f, accepted))
  }

  /** `Responder::parts_respond`: errors become their default responses. */
  function PartsRespond(files: map<Text, RecordLoader.LoadedFile>, m: Method, path: Text, headers: HeaderMap)
    : (r: Response<seq<byte>>)
    requires Responds(files, m, path, headers)
    ensures PartsRespondOrError(files, m, path, headers).Success? <==> r.status == OK || r.status == NOT_MODIFIED
    ensures PartsRespondOrError(files, m, path, headers).Failure? ==>
              r == AsDefaultResponse(PartsRespondOrError(files, m, path, headers).error)
    ensures PartsRespondOrError(files, m, path, headers).Success? ==>
              r == PartsRespondOrError(files, m, path, headers).value
  {
    match PartsRespondOrError(files, m, path, headers)
    case Success(response) => response
    case Failure(e) => AsDefaultResponse(e)
  }

  /**
   * A matching ETag wins over a malformed `accept-encoding`: the value is
   * read only after the conditional check, so a 304 is returned where
   * otherwise a 400 would be.
   */
  lemma {:induction false} ConditionalBeforeEncoding(files: map<Text, RecordLoader.LoadedFile>, path: Text,
                                                     headers: HeaderMap)
    requires path in files && Responds(files, Get, path, headers)
    requires GzipAccepted(headers).Failure?
    ensures EtagMatches(headers, files[path]) ==> PartsRespond(files, Get, path, headers).status == NOT_MODIFIED
    ensures !EtagMatches(headers, files[path]) ==> PartsRespond(files, Get, path, headers).status == BAD_REQUEST
  {
    var r := PartsRespondOrError(files, Get, path, headers);
    if !EtagMatches(headers, files[path]) {
      assert r == Failure(UnparsableAcceptEncoding);
    }
  }

  /**
   * Whatever this responder accepts as gzip, the newer parser of the
   * loader crate accepts too, and both reject the same header values.
   */
  lemma {:induction false} NewerParserAgrees(headers: HeaderMap)
    ensures GzipAccepted(headers).Failure? <==> ContentEncoding.FromHeaders(headers).Failure?
    ensures GzipAccepted(headers) == Success(true) ==> ContentEncoding.FromHeaders(headers).value.gzip
  {
    if GzipAccepted(headers) == Success(true) {
      var tokens := Split(headers[AcceptEncoding], SEPARATOR);
      var k :| 0 <= k < |tokens| && tokens[k] == GZIP;
      PlainGzip();
      assert ContentEncoding.ExtractAlgorithm(tokens[k]) == GZIP;
    }
  }

  /** "gzip" carries no weight: it is its own algorithm. */
  lemma PlainGzip()
    ensures ContentEncoding.ExtractAlgorithm(GZIP) == GZIP
  {
    ContentEncoding.FirstByteAbsent(GZIP, ContentEncoding.QUALITY);
  }

  /** "gzip;q=1" */
  const WEIGHTED_GZIP: seq<byte> := GZIP + ContentEncoding.QUALITY + [0x31]

  /**
   * The converse fails: a weighted "gzip;q=1" is gzip to the newer parser
   * but not to this responder, which then sends the identity content.
   */
  lemma WeightedGzipIgnored(f: RecordLoader.LoadedFile)
    requires ValidHeaderValue(f.contentType) && ValidHeaderValue(f.etag)
    requires f.contentGzip.Some? && IfNoneMatch !in map[AcceptEncoding := WEIGHTED_GZIP]
    ensures GzipAccepted(map[AcceptEncoding := WEIGHTED_GZIP]) == Success(false)
    ensures ContentEncoding.FromHeaders(map[AcceptEncoding := WEIGHTED_GZIP]).value.gzip
    ensures PartsRespond(map[[] := f], Get, [], map[AcceptEncoding := WEIGHTED_GZIP]).body == f.content
  {
    ContentEncoding.FirstByteAbsent([0x31], ContentEncoding.SEPARATOR);
    ContentEncoding.WeightedGzipToken([0x31]);
    assert WEIGHTED_GZIP == [0x67, 0x7A, 0x69, 0x70, 0x3B, 0x71, 0x3D, 0x31];
    forall i | 0 <= i < |WEIGHTED_GZIP|
      ensures IsVisibleAscii(WEIGHTED_GZIP[i])
    {
    }
    assert ToStr(WEIGHTED_GZIP) == Some(WEIGHTED_GZIP);
    assert WEIGHTED_GZIP != GZIP by {
      assert |WEIGHTED_GZIP| != |GZIP|;
    }
  }

  /**
   * Unlike the newer responder, the gzip variant is sent even when it is
   * longer than the content: a client that accepts gzip gets the stored
   * variant, however long.
   */
  lemma GzipSentWhateverItsLength(f: RecordLoader.LoadedFile, headers: HeaderMap)
    requires Responds(map[[] := f], Get, [], headers) && ReachesOk(map[[] := f], Get, [], headers)
    requires GzipAccepted(headers) == Success(true) && f.contentGzip.Some?
    ensures PartsRespond(map[[] := f], Get, [], headers).body == f.contentGzip.value
  {
  }

  /**
   * Serving a stored pack: loading the records of descriptors with distinct
   * paths and asking for one of them with no headers gives a 200 carrying
   * that file's content as written, announced as identity.
   */
  lemma {:induction false} ServesStoredContent(ds: seq<RecordFormat.FileDescriptor>, i: nat)
    requires RecordFormat.AllFitLimits(ds) && RecordFormat.DistinctPaths(ds) && i < |ds|
    requires ValidHeaderValue(ds[i].contentType) && ValidHeaderValue(ds[i].etag)
    ensures RecordLoader.Load(RecordFormat.Records(ds)).Success?
    ensures var files := RecordLoader.Load(RecordFormat.Records(ds)).value;
            && Responds(files, Get, ds[i].packPath, map[])
            && PartsRespond(files, Get, ds[i].packPath, map[]).status == OK
            && PartsRespond(files, Get, ds[i].packPath, map[]).body == ds[i].content
  {
    RecordLoader.RoundTrip(ds);
    var files := RecordLoader.Load(RecordFormat.Records(ds)).value;
    assert PathMap.Get(files, ds[i].packPath) == Some(RecordLoader.Loaded(ds[i]));
    assert files[ds[i].packPath] == RecordLoader.Loaded(ds[i]);
  }
}
