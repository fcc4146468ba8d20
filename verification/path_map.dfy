/**
 * The bookkeeping both loaders share: records read in order are inserted
 * into a map keyed by pack path, and a path that is already present makes
 * loading fail ("File corrupted, duplicated path").
 */
module PathMap {
  import opened Wrappers
  import opened Bytes

  /** One record as the loader reads it: a pack path and what it maps to. */
  datatype Entry<F> = Entry(path: Text, file: F)

  /** `Loader::get` of either loader: an exact-key lookup. */
  function Get<F>(files: map<Text, F>, path: Text): (r: Option<F>)
    ensures r.Some? <==> path in files
    ensures r.Some? ==> r.value == files[path]
  {
    if path in files then Some(files[path]) else None
  }

  /** No two entries share a path. */
  predicate DistinctPaths<F>(es: seq<Entry<F>>)
  {
    forall i, j :: 0 <= i < j < |es| ==> es[i].path != es[j].path
  }

  /**
   * Inserting the entries into `files` in order. The error is the first
   * path met a second time, whether it was in `files` already or came
   * earlier among the entries.
   */
  function Insert<F>(files: map<Text, F>, es: seq<Entry<F>>): (r: Result<map<Text, F>, Text>)
    ensures r.Failure? ==> exists i :: 0 <= i < |es| && es[i].path == r.error
    decreases |es|
  {
    if |es| == 0 then Success(files)
    else if es[0].path in files then Failure(es[0].path)
    else
      var r := Insert(files[es[0].path := es[0].file], es[1..]);
      assert r.Failure? ==> es[1..][0].path == es[1].path;
      r
  }

  /** Inserting a first entry: a path already present fails there, otherwise the rest go into the updated map. */
  lemma InsertCons<F>(files: map<Text, F>, es: seq<Entry<F>>)
    requires 0 < |es|
    ensures es[0].path in files ==> Insert(files, es) == Failure(es[0].path)
    ensures es[0].path !in files ==> Insert(files, es) == Insert(files[es[0].path := es[0].file], es[1..])
  {
  }

  lemma KeysOfUpdate<F>(m: map<Text, F>, k: Text, v: F)
    ensures m[k := v].Keys == m.Keys + {k}
  {
  }

  /** Inserting succeeds exactly when every path is new to `files` and to the entries before it. */
  lemma {:induction false} InsertSucceeds<F>(files: map<Text, F>, es: seq<Entry<F>>)
    ensures Insert(files, es).Success? <==>
              (forall i :: 0 <= i < |es| ==> es[i].path !in files) && DistinctPaths(es)
    decreases |es|
  {
    if |es| > 0 {
      var files' := files[es[0].path := es[0].file];
      KeysOfUpdate(files, es[0].path, es[0].file);
      InsertSucceeds(files', es[1..]);
      assert forall i :: 1 <= i < |es| ==> es[i] == es[1..][i - 1];
      if (forall i :: 0 <= i < |es| ==> es[i].path !in files) && DistinctPaths(es) {
        forall i | 0 <= i < |es[1..]|
          ensures es[1..][i].path !in files'
        {
          assert es[1..][i] == es[i + 1];
        }
      }
    }
  }

  /**
   * What a successful insertion builds: every entry under its path, the
   * earlier contents kept, and no path from anywhere else.
   */
  lemma {:induction false} InsertContents<F>(files: map<Text, F>, es: seq<Entry<F>>)
    requires Insert(files, es).Success?
    ensures var m := Insert(files, es).value;
            && (forall i :: 0 <= i < |es| ==> es[i].path in m && m[es[i].path] == es[i].file)
            && (forall p :: p in files ==> p in m && m[p] == files[p])
            && (forall p :: p in m ==> p in files || exists i :: 0 <= i < |es| && es[i].path == p)
    decreases |es|
  {
    if |es| > 0 {
      var files' := files[es[0].path := es[0].file];
      InsertContents(files', es[1..]);
      InsertSucceeds(files, es);
      var m := Insert(files, es).value;
      assert m == Insert(files', es[1..]).value;
      forall p | p in m
        ensures p in files || exists i :: 0 <= i < |es| && es[i].path == p
      {
        if p !in files' {
          var i :| 0 <= i < |es[1..]| && es[1..][i].path == p;
          assert es[i + 1].path == p;
        } else if p !in files {
          assert es[0].path == p;
        }
      }
      forall i | 0 <= i < |es|
        ensures es[i].path in m && m[es[i].path] == es[i].file
      {
        if i > 0 {
          assert es[i] == es[1..][i - 1];
        }
      }
    }
  }
}
