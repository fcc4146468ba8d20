/**
 * The loader's `File` trait (loader/src/file.rs). A trait object is
 * modelled by what its accessors return (`FileView`); the owned and the
 * archived implementations are the two ways of obtaining a view.
 */
module LoaderFile {
  import opened Wrappers
  import opened Bytes
  import opened Http
  import Common
  import LoaderCacheControl

  /**
   * The accessor results of one file: `content`, `content_gzip`,
   * `content_brotli`, the strings behind `content_type` and `etag`, and
   * `cache_control`.
   */
  datatype FileView = FileView(
    content: seq<byte>,
    contentGzip: Option<seq<byte>>,
    contentBrotli: Option<seq<byte>>,
    contentType: Text,
    etag: Text,
    cacheControl: LoaderCacheControl.CacheControl)

  /** `impl File for common File`. */
  function ViewOwned(f: Common.File): (v: FileView)
    ensures v.content == f.content
    ensures v.contentGzip == f.contentGzip && v.contentBrotli == f.contentBrotli
    ensures v.contentType == f.contentType && v.etag == f.etag
    ensures v.cacheControl == LoaderCacheControl.FromCommon(f.cacheControl)
    ensures v.cacheControl.MaxCache? <==> f.cacheControl.MaxCache?
  {
    FileView(f.content, f.contentGzip, f.contentBrotli, f.contentType, f.etag,
             LoaderCacheControl.FromCommon(f.cacheControl))
  }

  /** `impl File for FileArchived`. */
  function ViewArchived(f: Common.FileArchived): (v: FileView)
    ensures v.content == f.content
    ensures v.contentGzip == f.contentGzip && v.contentBrotli == f.contentBrotli
    ensures v.contentType == f.contentType && v.etag == f.etag
    ensures v.cacheControl == LoaderCacheControl.FromArchived(f.cacheControl)
    ensures v.cacheControl.MaxCache? <==> f.cacheControl.MaxCacheArchived?
  {
    FileView(f.content, f.contentGzip, f.contentBrotli, f.contentType, f.etag,
             LoaderCacheControl.FromArchived(f.cacheControl))
  }

  /**
   * `content_type()`: `HeaderValue::from_str(..).unwrap()`, which panics
   * unless the stored string is a valid header value.
   */
  function ContentTypeHeader(v: FileView): (r: HeaderValue)
    requires ValidHeaderValue(v.contentType)
    ensures r == v.contentType && ValidHeaderValue(r)
  {
    v.contentType
  }

  /** `etag()`: as `content_type()`, for the stored ETag. */
  function EtagHeader(v: FileView): (r: HeaderValue)
    requires ValidHeaderValue(v.etag)
    ensures r == v.etag && ValidHeaderValue(r)
  {
    v.etag
  }

  /**
   * Both implementations expose a file's stored fields unchanged, and a
   * file reached through its archived form looks exactly like the owned one.
   */
  lemma ViewsAgree(f: Common.File)
    ensures ViewArchived(Common.ArchiveFile(f)) == ViewOwned(f)
    ensures ViewOwned(f).content == f.content
    ensures ViewOwned(f).contentGzip == f.contentGzip && ViewOwned(f).contentBrotli == f.contentBrotli
    ensures ViewOwned(f).contentType == f.contentType && ViewOwned(f).etag == f.etag
    ensures ViewOwned(f).cacheControl.MaxCache? <==> f.cacheControl.MaxCache?
  {
    LoaderCacheControl.ConversionsAgree(f.cacheControl);
  }
}
