/**
 * The types shared by the packer and the loader (common/src): the cache
 * policy, the pack path key, the file entry, the pack, and the file magic
 * and version. Each owned type has an archived twin, the zero-copy form
 * rkyv generates; the `Archive*` functions give the archived value that
 * serialising an owned value yields, field for field.
 */
module Common {
  import opened Wrappers
  import opened Bytes

  /** Identifies a pack file. */
  const PACK_FILE_MAGIC: nat := 0x479a01809f24813c
  /** The pack format version the loader accepts. */
  const PACK_FILE_VERSION: nat := 1

  datatype CacheControl = NoCache | MaxCache
  datatype CacheControlArchived = NoCacheArchived | MaxCacheArchived

  /** Path of a file inside a pack, eg. "/dir/index.html". */
  datatype PackPath = PackPath(inner: Text)
  datatype PackPathArchived = PackPathArchived(inner: Text)

  /** One servable file with its precomputed variants and headers. */
  datatype File = File(
    content: seq<byte>,
    contentGzip: Option<seq<byte>>,
    contentBrotli: Option<seq<byte>>,
    contentType: Text,
    etag: Text,
    cacheControl: CacheControl)

  datatype FileArchived = FileArchived(
    content: seq<byte>,
    contentGzip: Option<seq<byte>>,
    contentBrotli: Option<seq<byte>>,
    contentType: Text,
    etag: Text,
    cacheControl: CacheControlArchived)

  /** Files by their path: a `HashMap<PackPath, File>`. */
  datatype Pack = Pack(filesByPath: map<PackPath, File>)
  datatype PackArchived = PackArchived(filesByPath: map<PackPathArchived, FileArchived>)

  /** A stored compressed variant is strictly shorter than the raw content. */
  predicate VariantsShorter(f: File)
  {
    && (f.contentGzip.Some? ==> |f.contentGzip.value| < |f.content|)
    && (f.contentBrotli.Some? ==> |f.contentBrotli.value| < |f.content|)
  }

  /** `PackPath::from_string`: wraps the string, with no validation. */
  function FromString(inner: Text): (p: PackPath)
    ensures Deref(p) == inner && Borrow(p) == inner
  {
    PackPath(inner)
  }

  /** `Deref for PackPath`. */
  function Deref(p: PackPath): (r: Text)
    ensures PackPath(r) == p
  {
    p.inner
  }

  /** `Borrow<str> for PackPath`. */
  function Borrow(p: PackPath): (r: Text)
    ensures r == Deref(p)
  {
    p.inner
  }

  /** `Deref for PackPathArchived`. */
  function DerefArchived(p: PackPathArchived): (r: Text)
    ensures PackPathArchived(r) == p
  {
    p.inner
  }

  /** `Borrow<str> for PackPathArchived`. */
  function BorrowArchived(p: PackPathArchived): (r: Text)
    ensures r == DerefArchived(p)
  {
    p.inner
  }

  /**
   * Wrapping then dereferencing gives the string back, any string at all
   * is accepted, and a path is determined by what it dereferences to.
   */
  lemma PackPathIsTransparent(s: Text, p: PackPath, q: PackPath)
    ensures Deref(FromString(s)) == s && Borrow(FromString(s)) == s
    ensures FromString(Deref(p)) == p
    ensures Borrow(p) == Borrow(q) <==> p == q
    ensures DerefArchived(ArchivePackPath(p)) == Deref(p)
    ensures BorrowArchived(ArchivePackPath(p)) == Borrow(p)
  {
  }

  /**
   * Since equality and hashing come from the inner string alone, finding a
   * key by its borrowed string is the same as finding the key built from it.
   */
  lemma LookupByStrAgrees<V>(m: map<PackPath, V>, s: Text)
    ensures (exists k :: k in m && Borrow(k) == s) <==> FromString(s) in m
  {
    if FromString(s) in m {
      assert Borrow(FromString(s)) == s;
    }
  }

  function ArchiveCacheControl(c: CacheControl): CacheControlArchived
  {
    match c
    case NoCache => NoCacheArchived
    case MaxCache => MaxCacheArchived
  }

  function ArchivePackPath(p: PackPath): PackPathArchived
  {
    PackPathArchived(p.inner)
  }

  function ArchiveFile(f: File): FileArchived
  {
    FileArchived(f.content, f.contentGzip, f.contentBrotli, f.contentType, f.etag,
                 ArchiveCacheControl(f.cacheControl))
  }

  function ArchivePack(p: Pack): (r: PackArchived)
    ensures forall k :: k in p.filesByPath ==>
              ArchivePackPath(k) in r.filesByPath && r.filesByPath[ArchivePackPath(k)] == ArchiveFile(p.filesByPath[k])
    ensures forall a :: a in r.filesByPath ==> PackPath(a.inner) in p.filesByPath
  {
    var m := p.filesByPath;
    PackArchived(map k | k in m :: ArchivePackPath(k) := ArchiveFile(m[k]))
  }
}
