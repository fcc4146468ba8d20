/**
 * The loader's cache-control enumeration (loader/src/cache_control.rs): its
 * two conversions from the common owned and archived enums, and the
 * `cache-control` header value each policy renders (section 5.2 of RFC 9111).
 */
module LoaderCacheControl {
  import Common
  import opened Bytes
  import opened Http

  datatype CacheControl = NoCache | MaxCache

  /** "no-cache" */
  const NO_CACHE_VALUE: seq<byte> := [0x6E, 0x6F, 0x2D, 0x63, 0x61, 0x63, 0x68, 0x65]

  /** "max-age=31536000, immutable" */
  const MAX_CACHE_VALUE: seq<byte> := [
    0x6D, 0x61, 0x78, 0x2D, 0x61, 0x67, 0x65, 0x3D, 0x33, 0x31, 0x35, 0x33, 0x36, 0x30,
    0x30, 0x30, 0x2C, 0x20, 0x69, 0x6D, 0x6D, 0x75, 0x74, 0x61, 0x62, 0x6C, 0x65]

  /** "max-age=" */
  const MAX_AGE_DIRECTIVE: seq<byte> := [0x6D, 0x61, 0x78, 0x2D, 0x61, 0x67, 0x65, 0x3D]
  /** ", immutable" */
  const IMMUTABLE_SUFFIX: seq<byte> := [0x2C, 0x20, 0x69, 0x6D, 0x6D, 0x75, 0x74, 0x61, 0x62, 0x6C, 0x65]

  /** Seconds in a 365-day year. */
  const ONE_YEAR_SECONDS: nat := 365 * 24 * 60 * 60

  /** `CacheControl::cache_control`: the header value for a policy. */
  function Render(c: CacheControl): (r: HeaderValue)
    ensures ValidHeaderValue(r)
    ensures r == NO_CACHE_VALUE <==> c.NoCache?
    ensures r == MAX_CACHE_VALUE <==> c.MaxCache?
  {
    ValuesValid();
    match c
    case NoCache => NO_CACHE_VALUE
    case MaxCache => MAX_CACHE_VALUE
  }

  /** `From<common CacheControl>`. */
  function FromCommon(c: Common.CacheControl): (r: CacheControl)
    ensures r.NoCache? <==> c.NoCache?
    ensures r.MaxCache? <==> c.MaxCache?
  {
    match c
    case NoCache => NoCache
    case MaxCache => MaxCache
  }

  /** `From<CacheControlArchived>`. */
  function FromArchived(c: Common.CacheControlArchived): (r: CacheControl)
    ensures r.NoCache? <==> c.NoCacheArchived?
    ensures r.MaxCache? <==> c.MaxCacheArchived?
  {
    match c
    case NoCacheArchived => NoCache
    case MaxCacheArchived => MaxCache
  }

  /**
   * The rendered values: NoCache forces revalidation with "no-cache";
   * MaxCache is a "max-age" of one year followed by "immutable". Both are
   * valid header values and the two policies never render alike.
   */
  lemma RenderedDirectives()
    ensures Render(NoCache) == NO_CACHE_VALUE
    ensures Render(MaxCache) == MAX_AGE_DIRECTIVE + Decimal(ONE_YEAR_SECONDS) + IMMUTABLE_SUFFIX
    ensures ValidHeaderValue(Render(NoCache)) && ValidHeaderValue(Render(MaxCache))
    ensures Render(NoCache) != Render(MaxCache)
  {
    MaxCacheSpelledOut();
    RenderedValid(NoCache);
    RenderedValid(MaxCache);
    assert Render(NoCache)[0] != Render(MaxCache)[0];
  }

  /** Both rendered strings consist of valid header-value bytes only. */
  lemma ValuesValid()
    ensures ValidHeaderValue(NO_CACHE_VALUE) && ValidHeaderValue(MAX_CACHE_VALUE)
  {
    forall i | 0 <= i < |NO_CACHE_VALUE|
      ensures IsValueByte(NO_CACHE_VALUE[i])
    {
    }
    forall i | 0 <= i < |MAX_CACHE_VALUE|
      ensures IsValueByte(MAX_CACHE_VALUE[i])
    {
    }
  }

  /** Every policy renders to a valid header value. */
  lemma RenderedValid(c: CacheControl)
    ensures ValidHeaderValue(Render(c))
  {
  }


  lemma MaxCacheSpelledOut()
    ensures MAX_AGE_DIRECTIVE + Decimal(ONE_YEAR_SECONDS) + IMMUTABLE_SUFFIX == MAX_CACHE_VALUE
  {
    OneYearInDecimal();
  }

  lemma OneYearInDecimal()
    ensures Decimal(ONE_YEAR_SECONDS) == [0x33, 0x31, 0x35, 0x33, 0x36, 0x30, 0x30, 0x30]
  {
    // Decimal unfolds one digit per step.
    assert Decimal(3) == [0x33];
    assert Decimal(31) == Decimal(3) + [0x31];
    assert Decimal(315) == Decimal(31) + [0x35];
    assert Decimal(3153) == Decimal(315) + [0x33];
    assert Decimal(31536) == Decimal(3153) + [0x36];
    assert Decimal(315360) == Decimal(31536) + [0x30];
    assert Decimal(3153600) == Decimal(315360) + [0x30];
    assert Decimal(31536000) == Decimal(3153600) + [0x30];
  }

  /** Converting through the archived enum gives the same policy as converting the owned one. */
  lemma ConversionsAgree(c: Common.CacheControl)
    ensures FromArchived(Common.ArchiveCacheControl(c)) == FromCommon(c)
  {
  }
}
