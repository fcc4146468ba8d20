/**
 * The loader's `Pack` trait (loader/src/pack.rs): lookup of a file by its
 * request path, for an owned pack and for an archived one.
 */
module LoaderPack {
  import opened Wrappers
  import opened Bytes
  import Common
  import opened LoaderFile

  /** A pack the responder can serve from: either implementation of the trait. */
  datatype PackSource = Owned(pack: Common.Pack) | Archived(archived: Common.PackArchived)

  /** `get_file_by_path`: the file stored under exactly `path`, if any. */
  function GetFileByPath(src: PackSource, path: Text): (r: Option<FileView>)
    ensures src.Owned? ==> (r.Some? <==> Common.PackPath(path) in src.pack.filesByPath)
    ensures src.Owned? && r.Some? ==> r.value == ViewOwned(src.pack.filesByPath[Common.PackPath(path)])
    ensures src.Archived? ==> (r.Some? <==> Common.PackPathArchived(path) in src.archived.filesByPath)
    ensures src.Archived? && r.Some? ==>
              r.value == ViewArchived(src.archived.filesByPath[Common.PackPathArchived(path)])
  {
    match src
    case Owned(p) =>
      var key := Common.PackPath(path);
      if key in p.filesByPath then Some(ViewOwned(p.filesByPath[key])) else None
    case Archived(p) =>
      var key := Common.PackPathArchived(path);
      if key in p.filesByPath then Some(ViewArchived(p.filesByPath[key])) else None
  }

  /** Looking a path up in the archived form of a pack finds what the owned pack holds. */
  lemma ArchivedLookupAgrees(p: Common.Pack, path: Text)
    ensures GetFileByPath(Archived(Common.ArchivePack(p)), path) == GetFileByPath(Owned(p), path)
  {
    var key := Common.PackPath(path);
    if key in p.filesByPath {
      ViewsAgree(p.filesByPath[key]);
    } else {
      assert Common.ArchivePackPath(key) == Common.PackPathArchived(path);
    }
  }

  /**
   * Lookup is an exact match on the key's string: a path finds a file iff
   * some key borrows to exactly that path, with no normalisation of
   * slashes, case or dot segments.
   */
  lemma LookupIsExact(p: Common.Pack, path: Text)
    ensures GetFileByPath(Owned(p), path).Some? <==>
              exists k :: k in p.filesByPath && Common.Borrow(k) == path
    ensures p.filesByPath.Keys == {Common.PackPath(path)} ==>
              forall other: Text :: other != path ==> GetFileByPath(Owned(p), other).None?
  {
    Common.LookupByStrAgrees(p.filesByPath, path);
  }
}
