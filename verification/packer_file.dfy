/**
 * Building a pack entry (packer/src/file.rs): compressed variants that are
 * kept only when they pay off, the quoted-digest ETag, the cache policy and
 * the content type derived from the file name. The compressors, the SHA3
 * digest and the MIME guess are foreign code and enter as functions.
 */
module PackerFile {
  import opened Wrappers
  import opened Bytes
  import opened Seqs
  import opened Common

  /** The foreign computations entry construction relies on. */
  datatype Collaborators = Collaborators(
    /** the gzip encoder in use (each packer generation configures its own) */
    gzip: seq<byte> -> seq<byte>,
    /** brotli with default parameters */
    brotli: seq<byte> -> seq<byte>,
    /** the lower-case hex rendering of the SHA3-256 digest */
    sha3Hex: seq<byte> -> Text,
    /** `mime_guess::from_path(..).first_or_octet_stream()` */
    guessMime: Text -> Text)

  /** `"` */
  const QUOTE: byte := 0x22
  /** "application/javascript" */
  const APPLICATION_JAVASCRIPT: Text := [
    0x61, 0x70, 0x70, 0x6C, 0x69, 0x63, 0x61, 0x74, 0x69, 0x6F, 0x6E, 0x2F,
    0x6A, 0x61, 0x76, 0x61, 0x73, 0x63, 0x72, 0x69, 0x70, 0x74]
  /** "text/javascript" */
  const TEXT_JAVASCRIPT: Text := [
    0x74, 0x65, 0x78, 0x74, 0x2F, 0x6A, 0x61, 0x76, 0x61, 0x73, 0x63, 0x72, 0x69, 0x70, 0x74]
  /** "text/" */
  const TEXT_PREFIX: Text := [0x74, 0x65, 0x78, 0x74, 0x2F]
  /** "; charset=utf-8" */
  const CHARSET_UTF8: Text := [
    0x3B, 0x20, 0x63, 0x68, 0x61, 0x72, 0x73, 0x65, 0x74, 0x3D, 0x75, 0x74, 0x66, 0x2D, 0x38]

  /** A compressed form worth storing: the content is not empty and the form is strictly shorter. */
  function KeepIfShorter(content: seq<byte>, compressed: seq<byte>): (r: Option<seq<byte>>)
    ensures r.Some? <==> |content| > 0 && |compressed| < |content|
    ensures r.Some? ==> r.value == compressed && |r.value| < |content|
  {
    if |content| == 0 then None
    else if |compressed| >= |content| then None
    else Some(compressed)
  }

  /** `content_gzip_from_content`. */
  function ContentGzipFromContent(c: Collaborators, content: seq<byte>): (r: Option<seq<byte>>)
    ensures r.Some? <==> |content| > 0 && |c.gzip(content)| < |content|
    ensures r.Some? ==> r.value == c.gzip(content)
  {
    if |content| == 0 then None else KeepIfShorter(content, c.gzip(content))
  }

  /** `content_brotli_from_content`. */
  function ContentBrotliFromContent(c: Collaborators, content: seq<byte>): (r: Option<seq<byte>>)
    ensures r.Some? <==> |content| > 0 && |c.brotli(content)| < |content|
    ensures r.Some? ==> r.value == c.brotli(content)
  {
    if |content| == 0 then None else KeepIfShorter(content, c.brotli(content))
  }

  /** `etag_from_content`: the hex digest in double quotes, as an entity tag must be. */
  function EtagFromContent(c: Collaborators, content: seq<byte>): (r: Text)
    ensures |r| == |c.sha3Hex(content)| + 2
    ensures r[0] == QUOTE && r[|r| - 1] == QUOTE
    ensures r[1..|r| - 1] == c.sha3Hex(content)
  {
    var r := [QUOTE] + c.sha3Hex(content) + [QUOTE];
    assert r[1..|r| - 1] == c.sha3Hex(content);
    r
  }

  /**
   * The quoting loses nothing: two contents get the same ETag exactly when
   * their digests agree, so equal content always gets equal ETags.
   */
  lemma EtagTracksDigest(c: Collaborators, a: seq<byte>, b: seq<byte>)
    ensures EtagFromContent(c, a) == EtagFromContent(c, b) <==> c.sha3Hex(a) == c.sha3Hex(b)
    ensures a == b ==> EtagFromContent(c, a) == EtagFromContent(c, b)
  {
    var ea := EtagFromContent(c, a);
    var eb := EtagFromContent(c, b);
    if ea == eb {
      assert c.sha3Hex(a) == ea[1..|ea| - 1] == eb[1..|eb| - 1] == c.sha3Hex(b);
    }
  }

  /**
   * The post-processing in `content_type_from_path`: "application/javascript"
   * becomes "text/javascript", then every "text/" type gets "; charset=utf-8".
   */
  function ContentTypePostProcess(guessed: Text): (r: Text)
    ensures guessed == APPLICATION_JAVASCRIPT ==> r == TEXT_JAVASCRIPT + CHARSET_UTF8
    ensures guessed != APPLICATION_JAVASCRIPT && StartsWith(guessed, TEXT_PREFIX) ==> r == guessed + CHARSET_UTF8
    ensures guessed != APPLICATION_JAVASCRIPT && !StartsWith(guessed, TEXT_PREFIX) ==> r == guessed
  {
    var renamed := if guessed == APPLICATION_JAVASCRIPT then TEXT_JAVASCRIPT else guessed;
    assert StartsWith(TEXT_JAVASCRIPT, TEXT_PREFIX);
    if StartsWith(renamed, TEXT_PREFIX) then renamed + CHARSET_UTF8 else renamed
  }

  /**
   * What a post-processed type looks like: never the old JavaScript name, and
   * a "text/" type always ends in the UTF-8 charset parameter.
   */
  lemma PostProcessedTypes(guessed: Text)
    ensures ContentTypePostProcess(guessed) != APPLICATION_JAVASCRIPT
    ensures var r := ContentTypePostProcess(guessed);
            StartsWith(r, TEXT_PREFIX) ==>
              |r| >= |CHARSET_UTF8| && r[|r| - |CHARSET_UTF8|..] == CHARSET_UTF8
  {
    var r := ContentTypePostProcess(guessed);
    assert APPLICATION_JAVASCRIPT[0] != TEXT_PREFIX[0];
    if guessed == APPLICATION_JAVASCRIPT {
      assert r[|r| - |CHARSET_UTF8|..] == CHARSET_UTF8;
    } else if StartsWith(guessed, TEXT_PREFIX) {
      assert r[|r| - |CHARSET_UTF8|..] == CHARSET_UTF8;
      assert r[0] == TEXT_PREFIX[0];
    } else {
      assert r == guessed;
    }
  }

  /** `content_type_from_path`. */
  function ContentTypeFromPath(c: Collaborators, path: Text): (r: Text)
    ensures var guessed := c.guessMime(path);
            guessed == APPLICATION_JAVASCRIPT ==> r == TEXT_JAVASCRIPT + CHARSET_UTF8
    ensures var guessed := c.guessMime(path);
            guessed != APPLICATION_JAVASCRIPT && StartsWith(guessed, TEXT_PREFIX) ==> r == guessed + CHARSET_UTF8
    ensures var guessed := c.guessMime(path);
            !StartsWith(guessed, TEXT_PREFIX) && guessed != APPLICATION_JAVASCRIPT ==> r == guessed
  {
    ContentTypePostProcess(c.guessMime(path))
  }

  /** `BuildFromContentOptions`. */
  datatype BuildFromContentOptions = BuildFromContentOptions(
    useGzip: bool,
    useBrotli: bool,
    cacheControlOverride: Option<CacheControl>)

  /** `BuildFromContentOptions::default`. */
  function DefaultContentOptions(): BuildFromContentOptions
  {
    BuildFromContentOptions(true, true, None)
  }

  /** `build_from_content`. */
  function BuildFromContent(c: Collaborators, content: seq<byte>, contentType: Text,
                            options: BuildFromContentOptions): (f: File)
    ensures f.content == content && f.contentType == contentType
    ensures VariantsShorter(f)
    ensures |content| == 0 ==> f.contentGzip.None? && f.contentBrotli.None?
    ensures !options.useGzip ==> f.contentGzip.None?
    ensures !options.useBrotli ==> f.contentBrotli.None?
    ensures options.useGzip ==> f.contentGzip == ContentGzipFromContent(c, content)
    ensures options.useBrotli ==> f.contentBrotli == ContentBrotliFromContent(c, content)
    ensures f.etag == EtagFromContent(c, content)
    ensures options.cacheControlOverride.Some? ==> f.cacheControl == options.cacheControlOverride.value
    ensures options.cacheControlOverride.None? ==> f.cacheControl == MaxCache
  {
    var contentGzip := if options.useGzip then ContentGzipFromContent(c, content) else None;
    var contentBrotli := if options.useBrotli then ContentBrotliFromContent(c, content) else None;
    var cacheControl := match options.cacheControlOverride
      case Some(cc) => cc
      case None => MaxCache;
    File(content, contentGzip, contentBrotli, contentType, EtagFromContent(c, content), cacheControl)
  }

  /** `BuildFromPathOptions`. */
  datatype BuildFromPathOptions = BuildFromPathOptions(
    useGzip: bool,
    useBrotli: bool,
    contentTypeOverride: Option<Text>,
    cacheControlOverride: Option<CacheControl>)

  /** Why `fs::read` failed; the file system is not modelled. */
  datatype ReadError = ReadError

  /**
   * `build_from_path`, given what reading the file returned: the override
   * replaces the guessed type, and the remaining options are forwarded.
   */
  function BuildFromPath(c: Collaborators, path: Text, read: Result<seq<byte>, ReadError>,
                         options: BuildFromPathOptions): (r: Result<File, ReadError>)
    ensures r.Failure? <==> read.Failure?
    ensures r.Success? ==> r.value.content == read.value
    ensures r.Success? && options.contentTypeOverride.Some? ==>
              r.value.contentType == options.contentTypeOverride.value
    ensures r.Success? && options.contentTypeOverride.None? ==>
              r.value.contentType == ContentTypeFromPath(c, path)
    ensures r.Success? ==>
              r.value == BuildFromContent(c, read.value, r.value.contentType,
                           BuildFromContentOptions(options.useGzip, options.useBrotli, options.cacheControlOverride))
  {
    match read
    case Failure(e) => Failure(e)
    case Success(content) =>
      var contentType := match options.contentTypeOverride
        case Some(t) => t
        case None => ContentTypeFromPath(c, path);
      Success(BuildFromContent(c, content, contentType,
                BuildFromContentOptions(options.useGzip, options.useBrotli, options.cacheControlOverride)))
  }

  /**
   * With the default options an entry keeps every variant that pays off,
   * gets the longest caching, and a non-empty entry is stored with the
   * variants its compressors shortened.
   */
  lemma DefaultBuild(c: Collaborators, content: seq<byte>, contentType: Text)
    ensures var f := BuildFromContent(c, content, contentType, DefaultContentOptions());
            && f.cacheControl == MaxCache
            && (f.contentGzip.Some? <==> |content| > 0 && |c.gzip(content)| < |content|)
            && (f.contentBrotli.Some? <==> |content| > 0 && |c.brotli(content)| < |content|)
  {
  }
}
