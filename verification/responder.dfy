/**
 * The responder (loader/src/responder.rs): answers a GET or HEAD request
 * for a path from a pack, with a 304 for a matching `If-None-Match`, with
 * negotiated content encoding otherwise, and with a default error response
 * when the request cannot be served.
 */
module Responder {
  import opened Wrappers
  import opened Bytes
  import opened Http
  import opened LoaderFile
  import opened LoaderPack
  import LoaderCacheControl
  import opened ContentEncoding
  import OneShotBody

  /** `ResponderRespondError`. */
  datatype RespondError = HttpMethodNotSupported | PackPathNotFound | UnparsableAcceptEncoding

  /** `ResponderRespondError::status_code`. */
  function StatusCode(e: RespondError): (s: nat)
    ensures s == METHOD_NOT_ALLOWED <==> e.HttpMethodNotSupported?
    ensures s == NOT_FOUND <==> e.PackPathNotFound?
    ensures s == BAD_REQUEST <==> e.UnparsableAcceptEncoding?
  {
    match e
    case HttpMethodNotSupported => METHOD_NOT_ALLOWED
    case PackPathNotFound => NOT_FOUND
    case UnparsableAcceptEncoding => BAD_REQUEST
  }

  /** `ResponderRespondError::into_response`: the status alone, no headers, an empty body. */
  function IntoResponse(e: RespondError): (r: Response<OneShotBody.Body>)
    ensures r.status == StatusCode(e)
    ensures r.headers == [] && OneShotBody.Data(r.body) == [] && OneShotBody.Valid(r.body)
  {
    Response(StatusCode(e), [], OneShotBody.Empty())
  }

  /** The request carries an `If-None-Match` equal, byte for byte, to the file's ETag. */
  predicate EtagMatches(headers: HeaderMap, f: FileView)
  {
    IfNoneMatch in headers && headers[IfNoneMatch] == f.etag
  }

  /**
   * Whether serving `f` reaches a `HeaderValue::from_str(..).unwrap()` that
   * panics: the ETag is read for any `If-None-Match` comparison, and both
   * content type and ETag are read when a 200 response is built.
   */
  predicate Panics(f: FileView, headers: HeaderMap)
  {
    || (IfNoneMatch in headers && !ValidHeaderValue(f.etag))
    || (&& !EtagMatches(headers, f)
        && FromHeaders(headers).Success?
        && !(ValidHeaderValue(f.contentType) && ValidHeaderValue(f.etag)))
  }

  predicate ServesBody(m: Method)
  {
    m.Get? || m.Head?
  }

  /** `respond` returns (rather than panics) on this request. */
  predicate Responds(src: PackSource, m: Method, path: Text, headers: HeaderMap)
  {
    ServesBody(m) && GetFileByPath(src, path).Some? ==>
      !Panics(GetFileByPath(src, path).value, headers)
  }

  /**
   * The headers of a 200 response, in the order the builder adds them; each
   * name occurs once, so each value is found by name.
   */
  function OkHeaders(contentType: HeaderValue, etag: HeaderValue, cacheControl: HeaderValue,
                     length: nat, encoding: HeaderValue): (h: seq<Header>)
    ensures HeaderGet(h, ContentType) == Some(contentType)
    ensures HeaderGet(h, ETag) == Some(etag)
    ensures HeaderGet(h, CacheControl) == Some(cacheControl)
    ensures HeaderGet(h, ContentLength) == Some(Decimal(length))
    ensures HeaderGet(h, ContentEncoding) == Some(encoding)
    ensures |h| == 5
    ensures h[0].value == contentType && h[1].value == etag && h[2].value == cacheControl
    ensures h[3].value == Decimal(length) && h[4].value == encoding
  {
    var t1 := [Header(ContentEncoding, encoding)];
    assert t1 == [Header(ContentEncoding, encoding)] + [];
    HeaderGetCons(Header(ContentEncoding, encoding), [], ContentEncoding);
    var t2 := [Header(ContentLength, Decimal(length))] + t1;
    HeaderGetCons(Header(ContentLength, Decimal(length)), t1, ContentEncoding);
    HeaderGetCons(Header(ContentLength, Decimal(length)), t1, ContentLength);
    var t3 := [Header(CacheControl, cacheControl)] + t2;
    HeaderGetCons(Header(CacheControl, cacheControl), t2, ContentEncoding);
    HeaderGetCons(Header(CacheControl, cacheControl), t2, ContentLength);
    HeaderGetCons(Header(CacheControl, cacheControl), t2, CacheControl);
    var t4 := [Header(ETag, etag)] + t3;
    HeaderGetCons(Header(ETag, etag), t3, ContentEncoding);
    HeaderGetCons(Header(ETag, etag), t3, ContentLength);
    HeaderGetCons(Header(ETag, etag), t3, CacheControl);
    HeaderGetCons(Header(ETag, etag), t3, ETag);
    var h := [Header(ContentType, contentType)] + t4;
    HeaderGetCons(Header(ContentType, contentType), t4, ContentEncoding);
    HeaderGetCons(Header(ContentType, contentType), t4, ContentLength);
    HeaderGetCons(Header(ContentType, contentType), t4, CacheControl);
    HeaderGetCons(Header(ContentType, contentType), t4, ETag);
    HeaderGetCons(Header(ContentType, contentType), t4, ContentType);
    h
  }

  /** The headers of a 200 response are valid when the values put in them are. */
  lemma OkHeadersValid(contentType: HeaderValue, etag: HeaderValue, cacheControl: HeaderValue,
                       length: nat, encoding: HeaderValue)
    requires ValidHeaderValue(contentType) && ValidHeaderValue(etag)
    requires ValidHeaderValue(cacheControl) && ValidHeaderValue(encoding)
    ensures var h := OkHeaders(contentType, etag, cacheControl, length, encoding);
            forall k :: 0 <= k < |h| ==> ValidHeaderValue(h[k].value)
  {
    DecimalRoundTrip(length);
    var h := OkHeaders(contentType, etag, cacheControl, length, encoding);
    forall k | 0 <= k < |h|
      ensures ValidHeaderValue(h[k].value)
    {
      if k == 0 {} else if k == 1 {} else if k == 2 {} else if k == 3 {} else {}
    }
  }

  /**
   * The 200 response for a served file whose ETag did not match: headers
   * describing the chosen variant, its bytes as the body unless HEAD.
   */
  function FullResponse(m: Method, f: FileView, accepted: EncodingAccepted): (r: Response<OneShotBody.Body>)
    requires ValidHeaderValue(f.contentType) && ValidHeaderValue(f.etag)
    ensures var chosen := Resolve(accepted, f);
            && r.status == OK
            && HeaderGet(r.headers, ContentType) == Some(f.contentType)
            && HeaderGet(r.headers, ETag) == Some(f.etag)
            && HeaderGet(r.headers, CacheControl) == Some(LoaderCacheControl.Render(f.cacheControl))
            && HeaderGet(r.headers, ContentLength).Some?
            && ParseDecimal(HeaderGet(r.headers, ContentLength).value) == Some(|chosen.content|)
            && HeaderGet(r.headers, ContentEncoding) == Some(EncodingValue(chosen.encoding))
            && OneShotBody.Valid(r.body)
            && OneShotBody.Data(r.body) == (if m.Get? then chosen.content else [])
    ensures forall k :: 0 <= k < |r.headers| ==> ValidHeaderValue(r.headers[k].value)
  {
    var chosen := Resolve(accepted, f);
    var cacheControl := LoaderCacheControl.Render(f.cacheControl);
    var encoding := EncodingValue(chosen.encoding);
    LoaderCacheControl.RenderedValid(f.cacheControl);
    EncodingValueValid(chosen.encoding);
    DecimalRoundTrip(|chosen.content|);
    var headers := OkHeaders(ContentTypeHeader(f), EtagHeader(f), cacheControl, |chosen.content|, encoding);
    OkHeadersValid(ContentTypeHeader(f), EtagHeader(f), cacheControl, |chosen.content|, encoding);
    Response(OK, headers, if m.Get? then OneShotBody.New(chosen.content) else OneShotBody.Empty())
  }

  /** `Responder::respond`. */
  function Respond(src: PackSource, m: Method, path: Text, headers: HeaderMap)
    : (r: Result<Response<OneShotBody.Body>, RespondError>)
    requires Responds(src, m, path, headers)
    // the method is checked first, then the path, then the ETag, then accept-encoding
    ensures r == Failure(HttpMethodNotSupported) <==> !ServesBody(m)
    ensures r == Failure(PackPathNotFound) <==> ServesBody(m) && GetFileByPath(src, path).None?
    ensures r == Failure(UnparsableAcceptEncoding) <==>
              && ServesBody(m)
              && GetFileByPath(src, path).Some?
              && !EtagMatches(headers, GetFileByPath(src, path).value)
              && FromHeaders(headers).Failure?
    // a 304 exactly when the ETag matches; it carries the ETag only and no body
    ensures r.Success? ==> ServesBody(m) && GetFileByPath(src, path).Some?
    ensures r.Success? ==>
              var f := GetFileByPath(src, path).value;
              (r.value.status == NOT_MODIFIED <==> EtagMatches(headers, f)) &&
              (r.value.status == NOT_MODIFIED ==>
                 r.value.headers == [Header(ETag, f.etag)] && OneShotBody.Data(r.value.body) == [])
    // otherwise a 200 describing the chosen variant, with its bytes as the body unless HEAD
    ensures r.Success? && r.value.status != NOT_MODIFIED ==>
              var f := GetFileByPath(src, path).value;
              var chosen := Resolve(FromHeaders(headers).value, f);
              && r.value.status == OK
              && HeaderGet(r.value.headers, ContentType) == Some(f.contentType)
              && HeaderGet(r.value.headers, ETag) == Some(f.etag)
              && HeaderGet(r.value.headers, CacheControl) == Some(LoaderCacheControl.Render(f.cacheControl))
              && HeaderGet(r.value.headers, ContentLength).Some?
              && ParseDecimal(HeaderGet(r.value.headers, ContentLength).value) == Some(|chosen.content|)
              && HeaderGet(r.value.headers, ContentEncoding) == Some(EncodingValue(chosen.encoding))
              && OneShotBody.Valid(r.value.body)
              && OneShotBody.Data(r.value.body) == (if m.Get? then chosen.content else [])
    ensures r.Success? ==> forall k :: 0 <= k < |r.value.headers| ==> ValidHeaderValue(r.value.headers[k].value)
  {
    if !ServesBody(m) then Failure(HttpMethodNotSupported)
    else match GetFileByPath(src, path)
      case None => Failure(PackPathNotFound)
      case Some(f) =>
        if IfNoneMatch in headers && headers[IfNoneMatch] == EtagHeader(f) then
          Success(Response(NOT_MODIFIED, [Header(ETag, EtagHeader(f))], OneShotBody.Empty()))
        else match FromHeaders(headers)
          case Failure(_) => Failure(UnparsableAcceptEncoding)
          case Success(accepted) => Success(FullResponse(m, f, accepted))
  }

  /** `Responder::respond_flatten`: errors become their default responses. */
  function RespondFlatten(src: PackSource, m: Method, path: Text, headers: HeaderMap)
    : (r: Response<OneShotBody.Body>)
    requires Responds(src, m, path, headers)
    ensures Respond(src, m, path, headers).Success? <==> r.status == OK || r.status == NOT_MODIFIED
    ensures Respond(src, m, path, headers).Failure? ==>
              r.status == StatusCode(Respond(src, m, path, headers).error) && r.headers == []
    ensures Respond(src, m, path, headers).Success? ==> r == Respond(src, m, path, headers).value
    ensures Respond(src, m, path, headers).Failure? ==> r == IntoResponse(Respond(src, m, path, headers).error)
    ensures !ServesBody(m) ==> r.status == METHOD_NOT_ALLOWED
  {
    match Respond(src, m, path, headers)
    case Success(response) => response
    case Failure(e) => IntoResponse(e)
  }

  /**
   * HEAD answers exactly as GET does, status and headers included, the
   * content length too, but with an empty body.
   */
  lemma HeadMirrorsGet(src: PackSource, path: Text, headers: HeaderMap)
    requires Responds(src, Get, path, headers)
    ensures Responds(src, Head, path, headers)
    ensures Respond(src, Head, path, headers).Success? <==> Respond(src, Get, path, headers).Success?
    ensures Respond(src, Head, path, headers).Success? ==>
              var head := Respond(src, Head, path, headers).value;
              var get := Respond(src, Get, path, headers).value;
              head.status == get.status && head.headers == get.headers && OneShotBody.Data(head.body) == []
    ensures Respond(src, Head, path, headers).Failure? ==>
              Respond(src, Head, path, headers) == Respond(src, Get, path, headers)
  {
  }

  /** Serving from the archived form of a pack answers every request as the owned pack does. */
  lemma ArchivedRespondsAlike(p: Common.Pack, m: Method, path: Text, headers: HeaderMap)
    requires Responds(Owned(p), m, path, headers)
    ensures Responds(Archived(Common.ArchivePack(p)), m, path, headers)
    ensures Respond(Archived(Common.ArchivePack(p)), m, path, headers) == Respond(Owned(p), m, path, headers)
  {
    ArchivedLookupAgrees(p, path);
  }

  /**
   * A matching ETag wins over a malformed `accept-encoding`: the conditional
   * check runs before negotiation, so a 304 is returned where otherwise a
   * 400 would be.
   */
  lemma ConditionalBeforeNegotiation(src: PackSource, m: Method, path: Text, headers: HeaderMap)
    requires ServesBody(m) && GetFileByPath(src, path).Some?
    requires Responds(src, m, path, headers)
    requires FromHeaders(headers).Failure?
    ensures EtagMatches(headers, GetFileByPath(src, path).value) ==>
              RespondFlatten(src, m, path, headers).status == NOT_MODIFIED
    ensures !EtagMatches(headers, GetFileByPath(src, path).value) ==>
              RespondFlatten(src, m, path, headers).status == BAD_REQUEST
  {
  }
}
