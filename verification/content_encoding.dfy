/**
 * Content negotiation (loader/src/content_encoding.rs): parsing an
 * `accept-encoding` value (section 12.5.3 of RFC 9110, in the simplified way
 * the loader does it) into accepted gzip/brotli flags, and picking the
 * smallest accepted variant a file has.
 */
module ContentEncoding {
  import opened Wrappers
  import opened Bytes
  import opened Seqs
  import opened Http
  import opened LoaderFile

  /** Which encodings besides the always-acceptable identity a client accepts. */
  datatype EncodingAccepted = EncodingAccepted(gzip: bool, brotli: bool)

  /** `from_accept_encoding_header_raw` failed: the value is not a visible-ASCII string. */
  datatype AcceptEncodingError = UnparsableAcceptEncodingValue

  /** "gzip" */
  const GZIP: seq<byte> := [0x67, 0x7A, 0x69, 0x70]
  /** "br" */
  const BR: seq<byte> := [0x62, 0x72]
  /** "identity" */
  const IDENTITY: seq<byte> := [0x69, 0x64, 0x65, 0x6E, 0x74, 0x69, 0x74, 0x79]
  /** ", ": the only separator between list members the parser recognises. */
  const SEPARATOR: seq<byte> := [0x2C, 0x20]
  /** ";q=": the start of a quality weight. */
  const QUALITY: seq<byte> := [0x3B, 0x71, 0x3D]

  /** `EncodingAccepted::none`. */
  function NoneAccepted(): (r: EncodingAccepted)
    ensures !r.gzip && !r.brotli
  {
    EncodingAccepted(false, false)
  }

  /**
   * `extract_algorithm_from_value`: the part before the first ";q=", or the
   * whole value when there is none. The weight is dropped, not read.
   */
  function ExtractAlgorithm(value: Text): (r: Text)
    ensures StartsWith(value, r)
    ensures Contains(value, QUALITY) ==> OccursAt(value, QUALITY, |r|) && !Contains(r, QUALITY)
    ensures !Contains(value, QUALITY) ==> r == value
  {
    match Find(value, QUALITY)
    case None => value
    case Some(i) =>
      var r := value[..i];
      assert !Contains(r, QUALITY) by {
        forall j: nat | j <= |r| && OccursAt(r, QUALITY, j)
          ensures false
        {
          assert j < i;
          assert value[j..j + |QUALITY|] == r[j..j + |QUALITY|];
          assert OccursAt(value, QUALITY, j);
        }
      }
      r
  }

  /** Some token's algorithm is exactly `name`. */
  predicate Names(tokens: seq<Text>, name: Text)
  {
    exists k :: 0 <= k < |tokens| && ExtractAlgorithm(tokens[k]) == name
  }

  /** Adding a token to the end adds exactly its algorithm to the names. */
  lemma NamesSnoc(tokens: seq<Text>, name: Text)
    requires |tokens| > 0
    ensures Names(tokens, name) <==>
              Names(tokens[..|tokens| - 1], name) || ExtractAlgorithm(tokens[|tokens| - 1]) == name
  {
    var init := tokens[..|tokens| - 1];
    if Names(init, name) {
      var k :| 0 <= k < |init| && ExtractAlgorithm(init[k]) == name;
      assert tokens[k] == init[k];
    }
    if Names(tokens, name) {
      var k :| 0 <= k < |tokens| && ExtractAlgorithm(tokens[k]) == name;
      if k < |init| {
        assert init[k] == tokens[k];
      }
    }
  }

  /** The loop of `from_accept_encoding_header_str`: OR the flags over the tokens. */
  function AcceptTokens(tokens: seq<Text>): (r: EncodingAccepted)
    ensures r.gzip <==> Names(tokens, GZIP)
    ensures r.brotli <==> Names(tokens, BR)
  {
    if |tokens| == 0 then NoneAccepted()
    else
      var before := AcceptTokens(tokens[..|tokens| - 1]);
      var algorithm := ExtractAlgorithm(tokens[|tokens| - 1]);
      NamesSnoc(tokens, GZIP);
      NamesSnoc(tokens, BR);
      EncodingAccepted(before.gzip || algorithm == GZIP, before.brotli || algorithm == BR)
  }

  /** `from_accept_encoding_header_str`: split on exactly ", ", then OR over the tokens. */
  function FromHeaderStr(s: Text): (r: EncodingAccepted)
    ensures r.gzip <==> Names(Split(s, SEPARATOR), GZIP)
    ensures r.brotli <==> Names(Split(s, SEPARATOR), BR)
  {
    AcceptTokens(Split(s, SEPARATOR))
  }

  /** `from_accept_encoding_header_raw`: fails unless the value is a visible-ASCII string. */
  function FromHeaderRaw(v: HeaderValue): (r: Result<EncodingAccepted, AcceptEncodingError>)
    ensures r.Failure? <==> ToStr(v).None?
    ensures r.Success? ==> r.value == FromHeaderStr(v)
  {
    match ToStr(v)
    case None => Failure(UnparsableAcceptEncodingValue)
    case Some(s) => Success(FromHeaderStr(s))
  }

  /** `from_headers`: no `accept-encoding` header means nothing but identity is accepted. */
  function FromHeaders(headers: HeaderMap): (r: Result<EncodingAccepted, AcceptEncodingError>)
    ensures AcceptEncoding !in headers ==> r == Success(NoneAccepted())
    ensures AcceptEncoding in headers ==> r == FromHeaderRaw(headers[AcceptEncoding])
  {
    if AcceptEncoding in headers then FromHeaderRaw(headers[AcceptEncoding])
    else Success(NoneAccepted())
  }

  /**
   * The flags are an OR over the tokens: any two token lists holding the
   * same tokens, in whatever order and with whatever repetition, agree.
   */
  lemma TokenOrderIrrelevant(tokens: seq<Text>, other: seq<Text>)
    requires forall t :: t in tokens <==> t in other
    ensures AcceptTokens(tokens) == AcceptTokens(other)
  {
    forall name | Names(tokens, name)
      ensures Names(other, name)
    {
      var k :| 0 <= k < |tokens| && ExtractAlgorithm(tokens[k]) == name;
      assert tokens[k] in other;
    }
    forall name | Names(other, name)
      ensures Names(tokens, name)
    {
      var k :| 0 <= k < |other| && ExtractAlgorithm(other[k]) == name;
      assert other[k] in tokens;
    }
  }

  /** Splitting "" yields one empty token, which names no algorithm. */
  lemma EmptyValueAcceptsNothing()
    ensures FromHeaderStr([]) == NoneAccepted()
    ensures FromHeaderRaw([]) == Success(NoneAccepted())
  {
    assert Split([], SEPARATOR) == [[]];
  }

  /** A value in which the first byte of `pat` never appears does not contain `pat`. */
  lemma FirstByteAbsent(v: Text, pat: Text)
    requires |pat| > 0 && forall k :: 0 <= k < |v| ==> v[k] != pat[0]
    ensures !Contains(v, pat)
  {
    forall j: nat | j <= |v|
      ensures !OccursAt(v, pat, j)
    {
      if j + |pat| <= |v| {
        assert v[j..j + |pat|][0] == v[j];
      }
    }
  }

  /** A single token names exactly its own algorithm. */
  lemma OneToken(v: Text, name: Text)
    ensures Names([v], name) <==> ExtractAlgorithm(v) == name
  {
    assert [v][0] == v;
  }

  /** A value without ", " and without ";q=" is one token naming itself. */
  lemma PlainToken(v: Text)
    requires forall k :: 0 <= k < |v| ==> v[k] != SEPARATOR[0] && v[k] != QUALITY[0]
    ensures FromHeaderStr(v).gzip <==> v == GZIP
    ensures FromHeaderStr(v).brotli <==> v == BR
  {
    FirstByteAbsent(v, SEPARATOR);
    FirstByteAbsent(v, QUALITY);
    assert Split(v, SEPARATOR) == [v];
    assert ExtractAlgorithm(v) == v;
    OneToken(v, GZIP);
    OneToken(v, BR);
  }

  /** A bare "gzip" is accepted as gzip alone. */
  lemma GzipToken()
    ensures FromHeaderStr(GZIP) == EncodingAccepted(true, false)
  {
    PlainToken(GZIP);
  }

  /** A bare "br" is accepted as brotli alone. */
  lemma BrToken()
    ensures FromHeaderStr(BR) == EncodingAccepted(false, true)
  {
    PlainToken(BR);
  }

  /**
   * "gzip;q=<weight>" is one token that accepts gzip whatever its weight,
   * "gzip;q=0" and "gzip;q=1.0" included: the weight is dropped, not read.
   * Only a weight holding ", " would split the value into further tokens.
   */
  lemma WeightedGzipToken(weight: Text)
    requires !Contains(weight, SEPARATOR)
    ensures Split(GZIP + QUALITY + weight, SEPARATOR) == [GZIP + QUALITY + weight]
    ensures ExtractAlgorithm(GZIP + QUALITY + weight) == GZIP
    ensures FromHeaderStr(GZIP + QUALITY + weight) == EncodingAccepted(true, false)
  {
    var v := GZIP + QUALITY + weight;
    WeightedHasNoSeparator(weight);
    assert Split(v, SEPARATOR) == [v];
    WeightedAlgorithmIsGzip(weight);
    OneToken(v, GZIP);
    OneToken(v, BR);
  }

  /** The source's own case: "gzip;q=1.0" names gzip and accepts gzip alone. */
  lemma WeightedGzipExample()
    ensures ExtractAlgorithm(GZIP + QUALITY + [0x31, 0x2E, 0x30]) == GZIP
    ensures FromHeaderStr(GZIP + QUALITY + [0x31, 0x2E, 0x30]) == EncodingAccepted(true, false)
  {
    FirstByteAbsent([0x31, 0x2E, 0x30], SEPARATOR);
    WeightedGzipToken([0x31, 0x2E, 0x30]);
  }

  /** ", " cannot straddle "gzip;q=" and the weight, so only the weight could hold it. */
  lemma WeightedHasNoSeparator(weight: Text)
    requires !Contains(weight, SEPARATOR)
    ensures !Contains(GZIP + QUALITY + weight, SEPARATOR)
  {
    var v := GZIP + QUALITY + weight;
    assert v[..7] == [0x67, 0x7A, 0x69, 0x70, 0x3B, 0x71, 0x3D];
    forall j: nat | j <= |v|
      ensures !OccursAt(v, SEPARATOR, j)
    {
      if j + 2 <= |v| {
        assert v[j..j + 2][0] == v[j];
        if j < 7 {
          assert v[j] == v[..7][j];
        } else {
          assert v[j..j + 2] == weight[j - 7..j - 5];
          assert !OccursAt(weight, SEPARATOR, j - 7);
        }
      }
    }
  }

  /** The first ";q=" of "gzip;q=<weight>" is the one after "gzip". */
  lemma WeightedAlgorithmIsGzip(weight: Text)
    ensures ExtractAlgorithm(GZIP + QUALITY + weight) == GZIP
  {
    var v := GZIP + QUALITY + weight;
    assert v[..7] == [0x67, 0x7A, 0x69, 0x70, 0x3B, 0x71, 0x3D];
    assert OccursAt(v, QUALITY, 4) by {
      assert v[4..7] == v[..7][4..7];
    }
    forall k: nat | k < 4
      ensures !OccursAt(v, QUALITY, k)
    {
      assert v[k..k + 3][0] == v[k] == v[..7][k];
    }
    assert Find(v, QUALITY) == Some(4);
    assert v[..4] == GZIP;
  }

  /** "gzip,br" is one token: only the exact ", " separator splits the list. */
  lemma OnlyCommaSpaceSeparates()
    ensures FromHeaderStr(GZIP + [0x2C] + BR) == NoneAccepted()
  {
    var v := GZIP + [0x2C] + BR;
    assert v == [0x67, 0x7A, 0x69, 0x70, 0x2C, 0x62, 0x72];
    forall j: nat
      ensures !OccursAt(v, SEPARATOR, j)
    {
      if j + 2 <= |v| {
        assert v[j..j + 2][0] == v[j] && v[j..j + 2][1] == v[j + 1];
      }
    }
    assert Split(v, SEPARATOR) == [v];
    forall j: nat
      ensures !OccursAt(v, QUALITY, j)
    {
      if j + 3 <= |v| {
        assert v[j..j + 3][0] == v[j];
      }
    }
    assert ExtractAlgorithm(v) == v;
  }

  /** The `content-encoding` a response announces. */
  datatype Encoding = Identity | Gzip | Brotli

  /** The header value naming an encoding. */
  function EncodingValue(e: Encoding): HeaderValue
  {
    match e
    case Identity => IDENTITY
    case Gzip => GZIP
    case Brotli => BR
  }

  /** Every encoding name is a valid header value. */
  lemma EncodingValueValid(e: Encoding)
    ensures ValidHeaderValue(EncodingValue(e))
  {
    var v := EncodingValue(e);
    forall i | 0 <= i < |v|
      ensures IsValueByte(v[i])
    {
    }
  }

  /** `ContentContentEncoding`: the bytes to send and their encoding. */
  datatype ContentContentEncoding = ContentContentEncoding(content: seq<byte>, encoding: Encoding)

  /** The gzip variant can be chosen: accepted and stored. */
  predicate GzipOffered(accepted: EncodingAccepted, f: FileView)
  {
    accepted.gzip && f.contentGzip.Some?
  }

  /** The brotli variant can be chosen: accepted and stored. */
  predicate BrotliOffered(accepted: EncodingAccepted, f: FileView)
  {
    accepted.brotli && f.contentBrotli.Some?
  }

  /**
   * `ContentContentEncoding::resolve`: start from identity, switch to gzip
   * when it is offered and no longer, then to brotli when it is offered and
   * no longer than the current choice.
   */
  function Resolve(accepted: EncodingAccepted, f: FileView): (r: ContentContentEncoding)
    // the label always matches the bytes, and only offered variants are chosen
    ensures r.encoding.Identity? ==> r.content == f.content
    ensures r.encoding.Gzip? ==> GzipOffered(accepted, f) && r.content == f.contentGzip.value
    ensures r.encoding.Brotli? ==> BrotliOffered(accepted, f) && r.content == f.contentBrotli.value
    // the choice is never longer than any candidate
    ensures |r.content| <= |f.content|
    ensures GzipOffered(accepted, f) ==> |r.content| <= |f.contentGzip.value|
    ensures BrotliOffered(accepted, f) ==> |r.content| <= |f.contentBrotli.value|
    // ties: brotli beats gzip and identity, gzip beats identity
    ensures r.encoding.Brotli? <==>
              BrotliOffered(accepted, f) && |f.contentBrotli.value| <= |f.content| &&
              (GzipOffered(accepted, f) ==> |f.contentBrotli.value| <= |f.contentGzip.value|)
    ensures r.encoding.Gzip? <==>
              GzipOffered(accepted, f) && |f.contentGzip.value| <= |f.content| && !r.encoding.Brotli?
  {
    var best := ContentContentEncoding(f.content, Identity);
    var best :=
      if accepted.gzip && f.contentGzip.Some? && |f.contentGzip.value| <= |best.content|
      then ContentContentEncoding(f.contentGzip.value, Gzip)
      else best;
    if accepted.brotli && f.contentBrotli.Some? && |f.contentBrotli.value| <= |best.content|
    then ContentContentEncoding(f.contentBrotli.value, Brotli)
    else best
  }

  /** With nothing accepted the identity content is sent, whatever variants exist. */
  lemma NothingAcceptedGivesIdentity(f: FileView)
    ensures Resolve(NoneAccepted(), f) == ContentContentEncoding(f.content, Identity)
  {
  }

  /**
   * The ordering of a file whose brotli is shorter than its gzip, which is
   * shorter than its content: both accepted picks brotli, gzip alone picks
   * gzip; and equally long variants go to brotli.
   */
  lemma NegotiationExamples(f: FileView)
    requires f.contentGzip.Some? && f.contentBrotli.Some?
    requires |f.contentBrotli.value| <= |f.contentGzip.value| <= |f.content|
    ensures Resolve(EncodingAccepted(true, true), f) == ContentContentEncoding(f.contentBrotli.value, Brotli)
    ensures Resolve(EncodingAccepted(true, false), f) == ContentContentEncoding(f.contentGzip.value, Gzip)
    ensures Resolve(EncodingAccepted(false, true), f) == ContentContentEncoding(f.contentBrotli.value, Brotli)
  {
  }
}
