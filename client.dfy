/** `ConnectBlob`: a client for one blob container. The container itself is
    modelled by fields of the client object (whether it exists, and the map
    from blob names to contents); the service calls the client makes are
    the methods in the "Service requests" part of the class. */
module Client {
  import opened Wrappers
  import opened Text
  import opened LengthSort
  import opened Tree
  import opened Store

  /** The exceptions the client raises: the two `ValueError`s of the
      constructor, the `ValueError` of `delete_file`, a malformed tree
      specification, the `FileNotFoundError` of `upload_tree`, and an error
      of the service that the client does not swallow. */
  datatype ClientError =
    | MissingConnectionString
    | MissingContainerName
    | EmptyBlobName
    | Structural(tree: TreeError)
    | LocalRootNotFound
    | Service(store: StoreError)

  /** The checks of the constructor, in their order. */
  function CheckConfig(connectionString: string, containerName: string): (r: Option<ClientError>)
    ensures r.None? <==> connectionString != "" && containerName != ""
    ensures r == Some(MissingConnectionString) <==> connectionString == ""
    ensures r == Some(MissingContainerName) <==> connectionString != "" && containerName == ""
  {
    if connectionString == "" then Some(MissingConnectionString)
    else if containerName == "" then Some(MissingContainerName)
    else None
  }

  /* ---------------------------------------------------------------- */
  /* Blob names                                                        */
  /* ---------------------------------------------------------------- */

  /** `_to_blob_path`: backslashes become slashes, then leading slashes go. */
  function ToBlobPath(path: string): (r: string)
    ensures '\\' !in r
    ensures r == [] || r[0] != '/'
  {
    ReplaceBackslashSpec(path);
    LStripSpec(ReplaceBackslash(path));
    LStrip(ReplaceBackslash(path))
  }

  /** The result is the converted path with only leading separators removed. */
  lemma ToBlobPathSpec(path: string)
    ensures |ToBlobPath(path)| <= |path|
    ensures var r := ToBlobPath(path); var k := |path| - |r|;
      && (forall i :: 0 <= i < |r| ==> r[i] == if path[k + i] == '\\' then '/' else path[k + i])
      && (forall i :: 0 <= i < k ==> path[i] == '/' || path[i] == '\\')
  {
    var s := ReplaceBackslash(path);
    ReplaceBackslashSpec(path);
    LStripSpec(s);
    var k := |path| - |LStrip(s)|;
    forall i | 0 <= i < k
      ensures path[i] == '/' || path[i] == '\\'
    {
      assert s[..k][i] == '/';
    }
  }

  lemma ToBlobPathIdempotent(path: string)
    ensures ToBlobPath(ToBlobPath(path)) == ToBlobPath(path)
  {
    var r := ToBlobPath(path);
    ReplaceBackslashSpec(r);
    assert ReplaceBackslash(r) == r;
  }

  /** The placeholder blob that marks `prefix` as a directory. */
  function KeepName(prefix: string): (r: string)
    ensures prefix != [] ==> r == Strip(prefix) + "/.keep"
    ensures prefix == [] ==> r == ".keep"
  {
    JoinPrefix(prefix, ".keep")
  }

  /** The blob a local file at relative path `rel` is uploaded to. */
  function BlobName(prefix: string, rel: string): string {
    JoinPrefix(prefix, ToBlobPath(rel))
  }

  /** `os.path.dirname(name).replace("\\", "/")`: the directory an uploaded
      blob counts as populated. */
  function UploadedDir(name: string): string {
    ReplaceBackslash(DirName(name))
  }

  /** The directory of a blob in a sub-directory is the text before its last
      separator. */
  lemma UploadedDirOfChild(d: string, f: string)
    requires d != [] && d[|d| - 1] != '/' && '\\' !in d
    requires '/' !in f
    ensures UploadedDir(d + "/" + f) == d
  {
    DirNameOfChild(d, f);
    ReplaceBackslashSpec(d);
    assert ReplaceBackslash(d) == d;
  }

  /** A blob at the top of the container populates no directory. */
  lemma UploadedDirOfTopLevel(f: string)
    requires '/' !in f
    ensures UploadedDir(f) == ""
  {
    DirNameOfTopLevel(f);
  }

  /* ---------------------------------------------------------------- */
  /* Placeholders                                                      */
  /* ---------------------------------------------------------------- */

  /** `_ensure_placeholder` on an existing container: an empty placeholder
      is created unless a blob of that name already exists. */
  function WithPlaceholder(blobs: Blobs, prefix: string): (r: Blobs)
    ensures r.Keys == blobs.Keys + {KeepName(prefix)}
    ensures forall n :: n in blobs ==> r[n] == blobs[n]
    ensures KeepName(prefix) !in blobs ==> r[KeepName(prefix)] == []
  {
    var n := KeepName(prefix);
    if n in blobs then blobs else blobs[n := []]
  }

  /** The container after `ensure_path(prefix, placeholders)`. */
  function PathEnsured(blobs: Blobs, prefix: string, placeholders: bool): Blobs {
    if placeholders && Strip(prefix) != "" then WithPlaceholder(blobs, Strip(prefix)) else blobs
  }

  /** `ensure_path` creates at most the placeholder `strip(prefix) + "/.keep"`,
      exactly when placeholders are asked for and the stripped prefix is not
      empty, and changes no existing blob. */
  lemma PathEnsuredEffect(blobs: Blobs, prefix: string, placeholders: bool)
    ensures var r := PathEnsured(blobs, prefix, placeholders); var keep := Strip(prefix) + "/.keep";
      && (placeholders && Strip(prefix) != "" ==> r.Keys == blobs.Keys + {keep})
      && (!placeholders || Strip(prefix) == "" ==> r == blobs)
      && (forall n :: n in blobs ==> n in r && r[n] == blobs[n])
  {
    StripIdempotent(prefix);
  }

  /** Ensuring a path twice is the same as ensuring it once. */
  lemma PathEnsuredIdempotent(blobs: Blobs, prefix: string, placeholders: bool)
    ensures PathEnsured(PathEnsured(blobs, prefix, placeholders), prefix, placeholders)
         == PathEnsured(blobs, prefix, placeholders)
  {
  }

  /** The container after the placeholder loop of `ensure_tree`: one
      placeholder per non-empty prefix, in order. */
  function WithPlaceholders(blobs: Blobs, prefixes: seq<string>): Blobs
    decreases |prefixes|
  {
    if prefixes == [] then blobs
    else
      var b := WithPlaceholders(blobs, prefixes[..|prefixes| - 1]);
      var p := prefixes[|prefixes| - 1];
      if p != "" then WithPlaceholder(b, p) else b
  }

  /** Adding the placeholders of the first i + 1 prefixes adds the one of
      prefix i last. */
  lemma WithPlaceholdersStep(blobs: Blobs, prefixes: seq<string>, i: nat)
    requires i < |prefixes|
    ensures WithPlaceholders(blobs, prefixes[..i + 1])
         == if prefixes[i] != "" then WithPlaceholder(WithPlaceholders(blobs, prefixes[..i]), prefixes[i])
            else WithPlaceholders(blobs, prefixes[..i])
  {
    assert prefixes[..i + 1][..i] == prefixes[..i];
  }

  /** The placeholders for the non-empty prefixes of `prefixes`. */
  function PlaceholderNames(prefixes: seq<string>): set<string> {
    set i | 0 <= i < |prefixes| && prefixes[i] != "" :: KeepName(prefixes[i])
  }

  /** The placeholder loop adds exactly the placeholders of the non-empty
      prefixes, as empty blobs, and keeps every blob that was there. */
  lemma {:induction false} WithPlaceholdersEffect(blobs: Blobs, prefixes: seq<string>)
    ensures WithPlaceholders(blobs, prefixes).Keys == blobs.Keys + PlaceholderNames(prefixes)
    ensures forall n :: n in blobs ==> WithPlaceholders(blobs, prefixes)[n] == blobs[n]
    ensures forall n :: n in WithPlaceholders(blobs, prefixes) && n !in blobs ==>
      WithPlaceholders(blobs, prefixes)[n] == []
    decreases |prefixes|
  {
    if prefixes != [] {
      var init := prefixes[..|prefixes| - 1];
      WithPlaceholdersEffect(blobs, init);
      PlaceholderNamesSnoc(prefixes);
    }
  }

  lemma PlaceholderNamesSnoc(prefixes: seq<string>)
    requires prefixes != []
    ensures var p := prefixes[|prefixes| - 1];
      PlaceholderNames(prefixes)
        == PlaceholderNames(prefixes[..|prefixes| - 1]) + (if p != "" then {KeepName(p)} else {})
  {
    var init := prefixes[..|prefixes| - 1];
    var p := prefixes[|prefixes| - 1];
    var extra := if p != "" then {KeepName(p)} else {};
    forall n | n in PlaceholderNames(prefixes)
      ensures n in PlaceholderNames(init) + extra
    {
      var i :| 0 <= i < |prefixes| && prefixes[i] != "" && n == KeepName(prefixes[i]);
      if i < |init| {
        assert init[i] == prefixes[i];
      }
    }
    forall n | n in PlaceholderNames(init)
      ensures n in PlaceholderNames(prefixes)
    {
      var i :| 0 <= i < |init| && init[i] != "" && n == KeepName(init[i]);
      assert prefixes[i] == init[i];
    }
  }

  /** The placeholders `_remove_placeholders(prefixes)` deletes. */
  function KeepNames(prefixes: set<string>): set<string> {
    set p | p in prefixes :: KeepName(p)
  }

  /** A placeholder delete that `_remove_placeholders` does not swallow:
      anything but "not found" on a blob that exists. */
  predicate RemovalFails(blobs: Blobs, faults: map<string, StoreError>, name: string) {
    name in blobs && name in faults && faults[name] != NotFound
  }

  /** What `_remove_placeholders(prefixes)` leaves behind, whatever order it
      visits the set in: it removes placeholders only and changes no
      content; a blob the service refuses to delete stays, on success and
      on failure alike; it fails exactly when some placeholder delete
      fails, with that delete's error; when it succeeds, the placeholders
      still present are exactly the ones whose delete the service refused
      with "not found". */
  ghost predicate Removed(before: Blobs, faults: map<string, StoreError>, prefixes: set<string>,
                          after: Blobs, err: Option<StoreError>) {
    && (forall n :: n in after ==> n in before && after[n] == before[n])
    && (forall n :: n in before && n !in KeepNames(prefixes) ==> n in after)
    && (forall n :: n in before && n in faults ==> n in after)
    && (err.None? <==> forall p :: p in prefixes ==> !RemovalFails(before, faults, KeepName(p)))
    && (err.Some? ==> exists p :: p in prefixes && RemovalFails(before, faults, KeepName(p))
                                 && err == Some(faults[KeepName(p)]))
    && (err.None? ==> forall p :: p in prefixes ==>
          (KeepName(p) in after <==> KeepName(p) in before && KeepName(p) in faults))
  }

  /* ---------------------------------------------------------------- */
  /* Uploading                                                         */
  /* ---------------------------------------------------------------- */

  /** A local file, identified by its path relative to the local root. */
  type LocalFile = (string, seq<byte>)

  /** `upload_tree` skips hidden files when asked to. */
  predicate Skipped(rel: string, ignoreHidden: bool) {
    ignoreHidden && Hidden(rel)
  }

  /** The state of the upload loop: the container, the directories
      populated so far, and the error that stopped the loop, if any. */
  datatype UploadRun = UploadRun(blobs: Blobs, uploaded: set<string>, err: Option<StoreError>)

  /** The upload loop of `upload_tree` over `files`, in the order the
      directory walk produces them, on an existing container. */
  function UploadFiles(blobs: Blobs, uploaded: set<string>, prefix: string, files: seq<LocalFile>,
                       overwrite: bool, ignoreHidden: bool): UploadRun
    decreases |files|
  {
    if files == [] then UploadRun(blobs, uploaded, None)
    else if Skipped(files[0].0, ignoreHidden) then
      UploadFiles(blobs, uploaded, prefix, files[1..], overwrite, ignoreHidden)
    else
      var name := BlobName(prefix, files[0].0);
      if !overwrite && name in blobs then UploadRun(blobs, uploaded, Some(Exists))
      else
        var dir := UploadedDir(name);
        UploadFiles(blobs[name := files[0].1], if dir != "" then uploaded + {dir} else uploaded,
                    prefix, files[1..], overwrite, ignoreHidden)
  }

  /** The blobs the files that are not skipped are uploaded to. */
  function StagedNames(prefix: string, files: seq<LocalFile>, ignoreHidden: bool): set<string> {
    set i | 0 <= i < |files| && !Skipped(files[i].0, ignoreHidden) :: BlobName(prefix, files[i].0)
  }

  /** The independent description of a complete upload: the last file
      uploaded to a name decides its contents. */
  function Staged(prefix: string, files: seq<LocalFile>, ignoreHidden: bool): Blobs
    decreases |files|
  {
    if files == [] then map[]
    else
      var rest := Staged(prefix, files[1..], ignoreHidden);
      if Skipped(files[0].0, ignoreHidden) then rest
      else map[BlobName(prefix, files[0].0) := files[0].1] + rest
  }

  /** The directories a complete upload populates. */
  function UploadedDirs(prefix: string, files: seq<LocalFile>, ignoreHidden: bool): set<string> {
    set i | 0 <= i < |files| && !Skipped(files[i].0, ignoreHidden)
                             && UploadedDir(BlobName(prefix, files[i].0)) != ""
          :: UploadedDir(BlobName(prefix, files[i].0))
  }

  lemma StagedNamesCons(prefix: string, files: seq<LocalFile>, ignoreHidden: bool)
    requires files != []
    ensures StagedNames(prefix, files, ignoreHidden)
         == (if Skipped(files[0].0, ignoreHidden) then {} else {BlobName(prefix, files[0].0)})
            + StagedNames(prefix, files[1..], ignoreHidden)
  {
    var tail := files[1..];
    forall n | n in StagedNames(prefix, files, ignoreHidden)
      ensures n in (if Skipped(files[0].0, ignoreHidden) then {} else {BlobName(prefix, files[0].0)})
                   + StagedNames(prefix, tail, ignoreHidden)
    {
      var i :| 0 <= i < |files| && !Skipped(files[i].0, ignoreHidden) && n == BlobName(prefix, files[i].0);
      if i > 0 {
        assert tail[i - 1] == files[i];
      }
    }
    forall n | n in StagedNames(prefix, tail, ignoreHidden)
      ensures n in StagedNames(prefix, files, ignoreHidden)
    {
      var i :| 0 <= i < |tail| && !Skipped(tail[i].0, ignoreHidden) && n == BlobName(prefix, tail[i].0);
      assert files[i + 1] == tail[i];
    }
  }

  lemma UploadedDirsCons(prefix: string, files: seq<LocalFile>, ignoreHidden: bool)
    requires files != []
    ensures var dir := UploadedDir(BlobName(prefix, files[0].0));
      UploadedDirs(prefix, files, ignoreHidden)
         == (if Skipped(files[0].0, ignoreHidden) || dir == "" then {} else {dir})
            + UploadedDirs(prefix, files[1..], ignoreHidden)
  {
    var tail := files[1..];
    var dir := UploadedDir(BlobName(prefix, files[0].0));
    var head: set<string> := if Skipped(files[0].0, ignoreHidden) || dir == "" then {} else {dir};
    forall n | n in UploadedDirs(prefix, files, ignoreHidden)
      ensures n in head + UploadedDirs(prefix, tail, ignoreHidden)
    {
      var i :| 0 <= i < |files| && !Skipped(files[i].0, ignoreHidden)
            && UploadedDir(BlobName(prefix, files[i].0)) != "" && n == UploadedDir(BlobName(prefix, files[i].0));
      if i > 0 {
        assert tail[i - 1] == files[i];
      }
    }
    forall n | n in UploadedDirs(prefix, tail, ignoreHidden)
      ensures n in UploadedDirs(prefix, files, ignoreHidden)
    {
      var i :| 0 <= i < |tail| && !Skipped(tail[i].0, ignoreHidden)
            && UploadedDir(BlobName(prefix, tail[i].0)) != "" && n == UploadedDir(BlobName(prefix, tail[i].0));
      assert files[i + 1] == tail[i];
    }
  }

  /** Staged holds exactly the names of the files that are not skipped. */
  lemma {:induction false} StagedKeys(prefix: string, files: seq<LocalFile>, ignoreHidden: bool)
    ensures Staged(prefix, files, ignoreHidden).Keys == StagedNames(prefix, files, ignoreHidden)
    decreases |files|
  {
    if files != [] {
      StagedKeys(prefix, files[1..], ignoreHidden);
      StagedNamesCons(prefix, files, ignoreHidden);
    }
  }

  /** Last one wins: a name holds the bytes of the last file that is not
      skipped and is uploaded to it. */
  lemma {:induction false} StagedLastWins(prefix: string, files: seq<LocalFile>, ignoreHidden: bool, i: nat)
    requires i < |files| && !Skipped(files[i].0, ignoreHidden)
    requires forall j :: i < j < |files| && !Skipped(files[j].0, ignoreHidden) ==>
      BlobName(prefix, files[j].0) != BlobName(prefix, files[i].0)
    ensures BlobName(prefix, files[i].0) in Staged(prefix, files, ignoreHidden)
    ensures Staged(prefix, files, ignoreHidden)[BlobName(prefix, files[i].0)] == files[i].1
    decreases |files|
  {
    var name := BlobName(prefix, files[i].0);
    var tail := files[1..];
    StagedKeys(prefix, tail, ignoreHidden);
    if i == 0 {
      forall j | 0 <= j < |tail| && !Skipped(tail[j].0, ignoreHidden)
        ensures BlobName(prefix, tail[j].0) != name
      {
        assert tail[j] == files[j + 1];
      }
    } else {
      forall j | i - 1 < j < |tail| && !Skipped(tail[j].0, ignoreHidden)
        ensures BlobName(prefix, tail[j].0) != BlobName(prefix, tail[i - 1].0)
      {
        assert tail[j] == files[j + 1];
      }
      StagedLastWins(prefix, tail, ignoreHidden, i - 1);
    }
  }

  /** The upload loop only adds and replaces blobs: every blob it touches is
      one of the staged names, and it never removes one. Its only error is
      "already exists", and only with `overwrite` off. What an early stop
      leaves behind is `UploadStopsEarly`. */
  lemma {:induction false} UploadFrame(blobs: Blobs, uploaded: set<string>, prefix: string,
                                       files: seq<LocalFile>, overwrite: bool, ignoreHidden: bool)
    ensures var run := UploadFiles(blobs, uploaded, prefix, files, overwrite, ignoreHidden);
      && blobs.Keys <= run.blobs.Keys <= blobs.Keys + StagedNames(prefix, files, ignoreHidden)
      && (forall n :: n in blobs && n !in StagedNames(prefix, files, ignoreHidden) ==> run.blobs[n] == blobs[n])
      && uploaded <= run.uploaded
      && (run.err.Some? ==> run.err == Some(Exists) && !overwrite)
    decreases |files|
  {
    if files != [] {
      StagedNamesCons(prefix, files, ignoreHidden);
      var name := BlobName(prefix, files[0].0);
      var dir := UploadedDir(name);
      if Skipped(files[0].0, ignoreHidden) {
        UploadFrame(blobs, uploaded, prefix, files[1..], overwrite, ignoreHidden);
      } else if !(!overwrite && name in blobs) {
        UploadFrame(blobs[name := files[0].1], if dir != "" then uploaded + {dir} else uploaded,
                    prefix, files[1..], overwrite, ignoreHidden);
      }
    }
  }

  /** With `overwrite` on, the upload loop never stops early. */
  lemma {:induction false} UploadOverwriteCompletes(blobs: Blobs, uploaded: set<string>, prefix: string,
                                                    files: seq<LocalFile>, ignoreHidden: bool)
    ensures UploadFiles(blobs, uploaded, prefix, files, true, ignoreHidden).err.None?
    decreases |files|
  {
    if files != [] {
      var name := BlobName(prefix, files[0].0);
      var dir := UploadedDir(name);
      if Skipped(files[0].0, ignoreHidden) {
        UploadOverwriteCompletes(blobs, uploaded, prefix, files[1..], ignoreHidden);
      } else {
        UploadOverwriteCompletes(blobs[name := files[0].1], if dir != "" then uploaded + {dir} else uploaded,
                                 prefix, files[1..], ignoreHidden);
      }
    }
  }

  /** A complete upload puts every staged file over the container. */
  lemma {:induction false} UploadContents(blobs: Blobs, uploaded: set<string>, prefix: string,
                                          files: seq<LocalFile>, overwrite: bool, ignoreHidden: bool)
    requires UploadFiles(blobs, uploaded, prefix, files, overwrite, ignoreHidden).err.None?
    ensures UploadFiles(blobs, uploaded, prefix, files, overwrite, ignoreHidden).blobs
         == blobs + Staged(prefix, files, ignoreHidden)
    decreases |files|
  {
    if files != [] {
      var name := BlobName(prefix, files[0].0);
      var dir := UploadedDir(name);
      var tail := files[1..];
      if Skipped(files[0].0, ignoreHidden) {
        UploadContents(blobs, uploaded, prefix, tail, overwrite, ignoreHidden);
      } else {
        var b := blobs[name := files[0].1];
        var u := if dir != "" then uploaded + {dir} else uploaded;
        assert UploadFiles(blobs, uploaded, prefix, files, overwrite, ignoreHidden)
            == UploadFiles(b, u, prefix, tail, overwrite, ignoreHidden);
        UploadContents(b, u, prefix, tail, overwrite, ignoreHidden);
        UpdateThenMerge(blobs, name, files[0].1, Staged(prefix, tail, ignoreHidden));
      }
    }
  }

  /** A complete upload records exactly the directories of the uploaded
      blobs. */
  lemma {:induction false} UploadDirectories(blobs: Blobs, uploaded: set<string>, prefix: string,
                                             files: seq<LocalFile>, overwrite: bool, ignoreHidden: bool)
    requires UploadFiles(blobs, uploaded, prefix, files, overwrite, ignoreHidden).err.None?
    ensures UploadFiles(blobs, uploaded, prefix, files, overwrite, ignoreHidden).uploaded
         == uploaded + UploadedDirs(prefix, files, ignoreHidden)
    decreases |files|
  {
    if files != [] {
      UploadedDirsCons(prefix, files, ignoreHidden);
      var name := BlobName(prefix, files[0].0);
      var dir := UploadedDir(name);
      var tail := files[1..];
      if Skipped(files[0].0, ignoreHidden) {
        UploadDirectories(blobs, uploaded, prefix, tail, overwrite, ignoreHidden);
      } else {
        var b := blobs[name := files[0].1];
        var u := if dir != "" then uploaded + {dir} else uploaded;
        assert UploadFiles(blobs, uploaded, prefix, files, overwrite, ignoreHidden)
            == UploadFiles(b, u, prefix, tail, overwrite, ignoreHidden);
        UploadDirectories(b, u, prefix, tail, overwrite, ignoreHidden);
      }
    }
  }

  /** A completed upload stores every file that is not skipped, with its
      bytes, under its blob name, unless a later file goes to the same
      name. */
  lemma UploadStoresFile(blobs: Blobs, prefix: string, files: seq<LocalFile>, overwrite: bool,
                         ignoreHidden: bool, i: nat)
    requires UploadFiles(blobs, {}, prefix, files, overwrite, ignoreHidden).err.None?
    requires i < |files| && !Skipped(files[i].0, ignoreHidden)
    requires forall j :: i < j < |files| && !Skipped(files[j].0, ignoreHidden) ==>
      BlobName(prefix, files[j].0) != BlobName(prefix, files[i].0)
    ensures var run := UploadFiles(blobs, {}, prefix, files, overwrite, ignoreHidden);
      BlobName(prefix, files[i].0) in run.blobs && run.blobs[BlobName(prefix, files[i].0)] == files[i].1
  {
    UploadContents(blobs, {}, prefix, files, overwrite, ignoreHidden);
    StagedLastWins(prefix, files, ignoreHidden, i);
  }

  lemma UpdateThenMerge(blobs: Blobs, name: string, data: seq<byte>, rest: Blobs)
    ensures blobs[name := data] + rest == blobs + (map[name := data] + rest)
  {
  }

  /** The names taken before file i of the walk are those taken before
      file i - 1 of its tail, once the first file is skipped or uploaded. */
  lemma TakenNamesShift(blobs: Blobs, b: Blobs, prefix: string, files: seq<LocalFile>, ignoreHidden: bool)
    requires files != []
    requires b == if Skipped(files[0].0, ignoreHidden) then blobs
                  else blobs[BlobName(prefix, files[0].0) := files[0].1]
    ensures forall i | 0 < i <= |files| ::
      blobs.Keys + StagedNames(prefix, files[..i], ignoreHidden)
      == b.Keys + StagedNames(prefix, files[1..][..i - 1], ignoreHidden)
  {
    forall i | 0 < i <= |files|
      ensures blobs.Keys + StagedNames(prefix, files[..i], ignoreHidden)
           == b.Keys + StagedNames(prefix, files[1..][..i - 1], ignoreHidden)
    {
      StagedNamesCons(prefix, files[..i], ignoreHidden);
      assert files[..i][1..] == files[1..][..i - 1];
    }
  }

  /** With `overwrite` off the loop fails exactly when the first file that
      is not skipped and lands on an existing name is reached: that is,
      when some file that is not skipped names a blob present before the
      upload or uploaded by an earlier file. */
  lemma {:induction false} UploadConflict(blobs: Blobs, uploaded: set<string>, prefix: string,
                                          files: seq<LocalFile>, ignoreHidden: bool)
    ensures UploadFiles(blobs, uploaded, prefix, files, false, ignoreHidden).err.Some? <==>
      exists i :: 0 <= i < |files| && !Skipped(files[i].0, ignoreHidden)
               && BlobName(prefix, files[i].0) in blobs.Keys + StagedNames(prefix, files[..i], ignoreHidden)
    decreases |files|
  {
    if files != [] {
      var name := BlobName(prefix, files[0].0);
      var dir := UploadedDir(name);
      var tail := files[1..];
      var b := if Skipped(files[0].0, ignoreHidden) then blobs else blobs[name := files[0].1];
      var u := if Skipped(files[0].0, ignoreHidden) || dir == "" then uploaded else uploaded + {dir};
      if !Skipped(files[0].0, ignoreHidden) && name in blobs {
        assert files[..0] == [];
        assert StagedNames(prefix, files[..0], ignoreHidden) == {};
      } else {
        UploadConflict(b, u, prefix, tail, ignoreHidden);
        assert UploadFiles(blobs, uploaded, prefix, files, false, ignoreHidden)
            == UploadFiles(b, u, prefix, tail, false, ignoreHidden);
        TakenNamesShift(blobs, b, prefix, files, ignoreHidden);
        if UploadFiles(b, u, prefix, tail, false, ignoreHidden).err.Some? {
          var j :| 0 <= j < |tail| && !Skipped(tail[j].0, ignoreHidden)
                && BlobName(prefix, tail[j].0) in b.Keys + StagedNames(prefix, tail[..j], ignoreHidden);
          assert files[j + 1] == tail[j];
        } else {
          forall i | 0 <= i < |files| && !Skipped(files[i].0, ignoreHidden)
            ensures BlobName(prefix, files[i].0) !in blobs.Keys + StagedNames(prefix, files[..i], ignoreHidden)
          {
            if i == 0 {
              assert files[..0] == [];
              assert StagedNames(prefix, files[..0], ignoreHidden) == {};
            } else {
              assert tail[i - 1] == files[i];
            }
          }
        }
      }
    }
  }

  /** `Staged` of the first k + 1 files unfolds to the first file and
      `Staged` of the next k. */
  lemma StagedPrefixCons(prefix: string, files: seq<LocalFile>, ignoreHidden: bool, k: nat)
    requires k < |files|
    ensures Staged(prefix, files[..k + 1], ignoreHidden)
         == if Skipped(files[0].0, ignoreHidden) then Staged(prefix, files[1..][..k], ignoreHidden)
            else map[BlobName(prefix, files[0].0) := files[0].1] + Staged(prefix, files[1..][..k], ignoreHidden)
  {
    assert files[..k + 1][1..] == files[1..][..k];
  }

  /** The upload loop started on `blobs` and `uploaded` stopped at file k
      with `run`: file k is not skipped and its name was taken, either
      before the upload or by an earlier file; the uploads of the files
      before k are in place, and nothing from k on has been written. */
  ghost predicate StoppedAt(blobs: Blobs, uploaded: set<string>, prefix: string, files: seq<LocalFile>,
                            ignoreHidden: bool, run: UploadRun, k: int) {
    && 0 <= k < |files| && !Skipped(files[k].0, ignoreHidden)
    && BlobName(prefix, files[k].0) in blobs.Keys + StagedNames(prefix, files[..k], ignoreHidden)
    && run.blobs == blobs + Staged(prefix, files[..k], ignoreHidden)
    && run.uploaded == uploaded + UploadedDirs(prefix, files[..k], ignoreHidden)
  }

  /** The first file, skipped or uploaded, then the next j files, is the
      first j + 1 files: for the names taken, the blobs and the recorded
      directories. */
  lemma TakenNamesCons(blobs: Blobs, b: Blobs, prefix: string, files: seq<LocalFile>, ignoreHidden: bool, j: nat)
    requires j < |files|
    requires b == if Skipped(files[0].0, ignoreHidden) then blobs
                  else blobs[BlobName(prefix, files[0].0) := files[0].1]
    ensures b.Keys + StagedNames(prefix, files[1..][..j], ignoreHidden)
         == blobs.Keys + StagedNames(prefix, files[..j + 1], ignoreHidden)
  {
    assert files[..j + 1][1..] == files[1..][..j];
    StagedNamesCons(prefix, files[..j + 1], ignoreHidden);
  }

  lemma StagedBlobsCons(blobs: Blobs, b: Blobs, prefix: string, files: seq<LocalFile>, ignoreHidden: bool, j: nat)
    requires j < |files|
    requires b == if Skipped(files[0].0, ignoreHidden) then blobs
                  else blobs[BlobName(prefix, files[0].0) := files[0].1]
    ensures b + Staged(prefix, files[1..][..j], ignoreHidden) == blobs + Staged(prefix, files[..j + 1], ignoreHidden)
  {
    StagedPrefixCons(prefix, files, ignoreHidden, j);
    if !Skipped(files[0].0, ignoreHidden) {
      UpdateThenMerge(blobs, BlobName(prefix, files[0].0), files[0].1, Staged(prefix, files[1..][..j], ignoreHidden));
    }
  }

  lemma UploadedDirsPrefixCons(uploaded: set<string>, u: set<string>, prefix: string, files: seq<LocalFile>,
                               ignoreHidden: bool, j: nat)
    requires j < |files|
    requires var dir := UploadedDir(BlobName(prefix, files[0].0));
      u == if Skipped(files[0].0, ignoreHidden) || dir == "" then uploaded else uploaded + {dir}
    ensures u + UploadedDirs(prefix, files[1..][..j], ignoreHidden)
         == uploaded + UploadedDirs(prefix, files[..j + 1], ignoreHidden)
  {
    assert files[..j + 1][1..] == files[1..][..j];
    UploadedDirsCons(prefix, files[..j + 1], ignoreHidden);
  }

  /** Stopping at file j of the tail, after the first file was skipped or
      uploaded, is stopping at file j + 1 of the whole walk. */
  lemma StoppedAtCons(blobs: Blobs, uploaded: set<string>, prefix: string, files: seq<LocalFile>,
                      ignoreHidden: bool, b: Blobs, u: set<string>, run: UploadRun, j: int)
    requires files != []
    requires var name := BlobName(prefix, files[0].0);
      && b == (if Skipped(files[0].0, ignoreHidden) then blobs else blobs[name := files[0].1])
      && u == (if Skipped(files[0].0, ignoreHidden) || UploadedDir(name) == "" then uploaded
               else uploaded + {UploadedDir(name)})
    requires StoppedAt(b, u, prefix, files[1..], ignoreHidden, run, j)
    ensures StoppedAt(blobs, uploaded, prefix, files, ignoreHidden, run, j + 1)
  {
    assert files[j + 1] == files[1..][j];
    TakenNamesCons(blobs, b, prefix, files, ignoreHidden, j);
    StagedBlobsCons(blobs, b, prefix, files, ignoreHidden, j);
    UploadedDirsPrefixCons(uploaded, u, prefix, files, ignoreHidden, j);
  }

  /** When the upload loop stops early, it stopped at some file, as
      `StoppedAt` describes. */
  lemma {:induction false} UploadStopsEarly(blobs: Blobs, uploaded: set<string>, prefix: string,
                                            files: seq<LocalFile>, overwrite: bool, ignoreHidden: bool)
    ensures var run := UploadFiles(blobs, uploaded, prefix, files, overwrite, ignoreHidden);
      run.err.Some? ==> exists k :: StoppedAt(blobs, uploaded, prefix, files, ignoreHidden, run, k)
    decreases |files|
  {
    var run := UploadFiles(blobs, uploaded, prefix, files, overwrite, ignoreHidden);
    if files != [] && run.err.Some? {
      var name := BlobName(prefix, files[0].0);
      var dir := UploadedDir(name);
      var tail := files[1..];
      var skipped := Skipped(files[0].0, ignoreHidden);
      if !skipped && !overwrite && name in blobs {
        assert files[..0] == [];
        assert StagedNames(prefix, files[..0], ignoreHidden) == {};
        assert UploadedDirs(prefix, files[..0], ignoreHidden) == {};
        assert StoppedAt(blobs, uploaded, prefix, files, ignoreHidden, run, 0);
      } else {
        var b := if skipped then blobs else blobs[name := files[0].1];
        var u := if skipped || dir == "" then uploaded else uploaded + {dir};
        assert run == UploadFiles(b, u, prefix, tail, overwrite, ignoreHidden);
        UploadStopsEarly(b, u, prefix, tail, overwrite, ignoreHidden);
        var j :| StoppedAt(b, u, prefix, tail, ignoreHidden, run, j);
        StoppedAtCons(blobs, uploaded, prefix, files, ignoreHidden, b, u, run, j);
      }
    }
  }

  /* ---------------------------------------------------------------- */
  /* Deleting                                                          */
  /* ---------------------------------------------------------------- */

  /** The error `delete_file` raises for a delete of the stripped `name`:
      "not found" is swallowed, every other error is raised. */
  function FileDeleteError(blobs: Blobs, faults: map<string, StoreError>, name: string): (r: Option<ClientError>)
    ensures r.None? <==> name !in blobs || name !in faults || faults[name] == NotFound
    ensures r.Some? ==> r == Some(Service(faults[name]))
  {
    var e := DeleteError(blobs, faults, name);
    if e.None? || e == Some(NotFound) then None else Some(Service(e.value))
  }

  /** Deleting a file twice has the effect and the outcome of deleting it
      once. */
  lemma FileDeleteIdempotent(blobs: Blobs, faults: map<string, StoreError>, name: string)
    ensures AfterDelete(AfterDelete(blobs, faults, name), faults, name) == AfterDelete(blobs, faults, name)
    ensures FileDeleteError(AfterDelete(blobs, faults, name), faults, name) == FileDeleteError(blobs, faults, name)
  {
  }

  /** The first of `delete_folder(prefix)`'s listing arguments. */
  function FolderStart(prefix: string): (r: string)
    ensures Strip(prefix) == "" ==> r == ""
    ensures Strip(prefix) != "" ==> |r| == |Strip(prefix)| + 1 && r[|r| - 1] == '/' && r[..|r| - 1] == Strip(prefix)
  {
    var p := Strip(prefix);
    if p != "" then p + "/" else ""
  }

  /** A delete that `delete_folder` does not skip: anything but "not found"
      or "directory not empty" on a blob that exists. */
  predicate FolderDeleteFails(blobs: Blobs, faults: map<string, StoreError>, name: string) {
    name in blobs && name in faults && faults[name] != NotFound && faults[name] != DirectoryNotEmpty
  }

  /** The outcome of the delete loop of `delete_folder`: the container, the
      names a delete was issued for, in order, and the error raised. */
  datatype DeleteRun = DeleteRun(blobs: Blobs, issued: seq<string>, err: Option<StoreError>)

  /** The delete loop of `delete_folder` over `order`. */
  function DeleteInOrder(blobs: Blobs, faults: map<string, StoreError>, order: seq<string>): DeleteRun
    decreases |order|
  {
    if order == [] then DeleteRun(blobs, [], None)
    else if FolderDeleteFails(blobs, faults, order[0]) then DeleteRun(blobs, [order[0]], Some(faults[order[0]]))
    else
      var rest := DeleteInOrder(AfterDelete(blobs, faults, order[0]), faults, order[1..]);
      DeleteRun(rest.blobs, [order[0]] + rest.issued, rest.err)
  }

  /** The issued deletes are a prefix of the order, and all of it when the
      loop completes. */
  lemma {:induction false} DeleteIssued(blobs: Blobs, faults: map<string, StoreError>, order: seq<string>)
    ensures var run := DeleteInOrder(blobs, faults, order);
      && |run.issued| <= |order| && run.issued == order[..|run.issued|]
      && (run.err.None? ==> run.issued == order)
    decreases |order|
  {
    if order != [] && !FolderDeleteFails(blobs, faults, order[0]) {
      var b := AfterDelete(blobs, faults, order[0]);
      DeleteIssued(b, faults, order[1..]);
      var rest := DeleteInOrder(b, faults, order[1..]);
      assert order[..|rest.issued| + 1] == [order[0]] + order[1..][..|rest.issued|];
    }
  }

  /** A loop that fails stops at the first failing delete and raises its
      error. */
  lemma {:induction false} DeleteStopsAtFailure(blobs: Blobs, faults: map<string, StoreError>, order: seq<string>)
    ensures var run := DeleteInOrder(blobs, faults, order);
      run.err.Some? ==>
        && run.issued != []
        && FolderDeleteFails(blobs, faults, run.issued[|run.issued| - 1])
        && run.err == Some(faults[run.issued[|run.issued| - 1]])
        && forall k :: 0 <= k < |run.issued| - 1 ==> !FolderDeleteFails(blobs, faults, run.issued[k])
    decreases |order|
  {
    if order != [] && !FolderDeleteFails(blobs, faults, order[0]) {
      var b := AfterDelete(blobs, faults, order[0]);
      DeleteStopsAtFailure(b, faults, order[1..]);
      FailsAfterDelete(blobs, faults, order[0]);
      var rest := DeleteInOrder(b, faults, order[1..]);
      if rest.err.Some? {
        var issued := [order[0]] + rest.issued;
        assert issued[|issued| - 1] == rest.issued[|rest.issued| - 1];
        forall k | 0 < k < |issued| - 1
          ensures !FolderDeleteFails(blobs, faults, issued[k])
        {
          assert issued[k] == rest.issued[k - 1];
        }
      }
    }
  }

  /** A delete changes no other name's failing status: a blob whose delete
      is refused is never removed. */
  lemma FailsAfterDelete(blobs: Blobs, faults: map<string, StoreError>, name: string)
    ensures forall n :: FolderDeleteFails(AfterDelete(blobs, faults, name), faults, n) <==> FolderDeleteFails(blobs, faults, n)
  {
  }

  /** The loop raises an error exactly when some name in the order fails. */
  lemma {:induction false} DeleteFailsIff(blobs: Blobs, faults: map<string, StoreError>, order: seq<string>)
    ensures DeleteInOrder(blobs, faults, order).err.Some? <==>
      exists i :: 0 <= i < |order| && FolderDeleteFails(blobs, faults, order[i])
    decreases |order|
  {
    if order != [] && !FolderDeleteFails(blobs, faults, order[0]) {
      var b := AfterDelete(blobs, faults, order[0]);
      DeleteFailsIff(b, faults, order[1..]);
      FailsAfterDelete(blobs, faults, order[0]);
      if exists i :: 0 <= i < |order| && FolderDeleteFails(blobs, faults, order[i]) {
        var i :| 0 <= i < |order| && FolderDeleteFails(blobs, faults, order[i]);
        assert order[1..][i - 1] == order[i];
      }
      if exists j :: 0 <= j < |order[1..]| && FolderDeleteFails(b, faults, order[1..][j]) {
        var j :| 0 <= j < |order[1..]| && FolderDeleteFails(b, faults, order[1..][j]);
        assert order[j + 1] == order[1..][j];
      }
    }
  }

  /** The loop removes exactly the issued names that the service does not
      refuse, and changes no content. */
  lemma {:induction false} DeleteRemoves(blobs: Blobs, faults: map<string, StoreError>, order: seq<string>)
    ensures var run := DeleteInOrder(blobs, faults, order);
      run.blobs == blobs - (set n | n in run.issued && n !in faults)
    decreases |order|
  {
    var run := DeleteInOrder(blobs, faults, order);
    if order == [] {
      assert blobs - (set n | n in run.issued && n !in faults) == blobs;
    } else if FolderDeleteFails(blobs, faults, order[0]) {
      assert (set n | n in run.issued && n !in faults) == {};
      assert blobs - {} == blobs;
    } else {
      var b := AfterDelete(blobs, faults, order[0]);
      DeleteRemoves(b, faults, order[1..]);
      var rest := DeleteInOrder(b, faults, order[1..]);
      var removed := set n | n in rest.issued && n !in faults;
      var first: set<string> := if order[0] in faults then {} else {order[0]};
      assert b == blobs - first;
      assert (set n | n in run.issued && n !in faults) == first + removed;
      assert rest.blobs == (blobs - first) - removed;
      assert (blobs - first) - removed == blobs - (first + removed);
    }
  }

  /** The sorted listing holds the same names as the listing. */
  lemma SortedListing(blobs: Blobs, start: string, listed: seq<string>)
    requires IsListing(listed, blobs, start)
    ensures forall n :: n in SortByLengthDesc(listed) <==> n in blobs && StartsWith(n, start)
  {
    var order := SortByLengthDesc(listed);
    SortSorted(listed);
    forall n ensures n in order <==> n in listed {
      assert n in multiset(order) <==> n in multiset(listed);
    }
  }

  /** `delete_folder` touches no blob outside the folder. */
  lemma FolderDeletionFrame(blobs: Blobs, faults: map<string, StoreError>, prefix: string, listed: seq<string>)
    requires IsListing(listed, blobs, FolderStart(prefix))
    ensures var run := DeleteInOrder(blobs, faults, SortByLengthDesc(listed));
      forall n :: n in blobs && !StartsWith(n, FolderStart(prefix)) ==> n in run.blobs && run.blobs[n] == blobs[n]
  {
    var order := SortByLengthDesc(listed);
    var run := DeleteInOrder(blobs, faults, order);
    SortedListing(blobs, FolderStart(prefix), listed);
    DeleteIssued(blobs, faults, order);
    DeleteRemoves(blobs, faults, order);
    forall n | n in run.issued
      ensures n in order
    {
      var k :| 0 <= k < |run.issued| && run.issued[k] == n;
      assert order[k] == n;
    }
  }

  /** `delete_folder` raises exactly when some blob of the folder fails to
      delete. */
  lemma FolderDeletionFails(blobs: Blobs, faults: map<string, StoreError>, prefix: string, listed: seq<string>)
    requires IsListing(listed, blobs, FolderStart(prefix))
    ensures DeleteInOrder(blobs, faults, SortByLengthDesc(listed)).err.None? <==>
      forall n :: n in blobs && StartsWith(n, FolderStart(prefix)) ==> !FolderDeleteFails(blobs, faults, n)
  {
    var order := SortByLengthDesc(listed);
    SortedListing(blobs, FolderStart(prefix), listed);
    DeleteFailsIff(blobs, faults, order);
    if DeleteInOrder(blobs, faults, order).err.None? {
      forall n | n in blobs && StartsWith(n, FolderStart(prefix))
        ensures !FolderDeleteFails(blobs, faults, n)
      {
        var i :| 0 <= i < |order| && order[i] == n;
      }
    } else {
      var i :| 0 <= i < |order| && FolderDeleteFails(blobs, faults, order[i]);
      assert order[i] in order;
    }
  }

  /** When `delete_folder` completes, the blobs of the folder that remain
      are exactly those whose delete the service refused. */
  lemma FolderDeletionRemains(blobs: Blobs, faults: map<string, StoreError>, prefix: string, listed: seq<string>)
    requires IsListing(listed, blobs, FolderStart(prefix))
    requires DeleteInOrder(blobs, faults, SortByLengthDesc(listed)).err.None?
    ensures var run := DeleteInOrder(blobs, faults, SortByLengthDesc(listed));
      forall n :: n in blobs && StartsWith(n, FolderStart(prefix)) ==> (n in run.blobs <==> n in faults)
  {
    var order := SortByLengthDesc(listed);
    SortedListing(blobs, FolderStart(prefix), listed);
    DeleteIssued(blobs, faults, order);
    DeleteRemoves(blobs, faults, order);
  }

  /** `delete_folder` issues its deletes longest name first, so a blob is
      deleted before any blob whose name is a proper prefix of its own. */
  lemma FolderDeletionOrder(blobs: Blobs, faults: map<string, StoreError>, listed: seq<string>)
    ensures NonIncreasing(DeleteInOrder(blobs, faults, SortByLengthDesc(listed)).issued)
  {
    var order := SortByLengthDesc(listed);
    var run := DeleteInOrder(blobs, faults, order);
    DeleteIssued(blobs, faults, order);
    SortSorted(listed);
    forall i, j | 0 <= i < j < |run.issued|
      ensures |run.issued[i]| >= |run.issued[j]|
    {
      assert run.issued[i] == order[i] && run.issued[j] == order[j];
    }
  }

  /** `delete_folder("")` on a service that refuses no delete empties the
      container. */
  lemma DeleteAll(blobs: Blobs, listed: seq<string>)
    requires IsListing(listed, blobs, FolderStart(""))
    ensures DeleteInOrder(blobs, map[], SortByLengthDesc(listed)) == DeleteRun(map[], SortByLengthDesc(listed), None)
  {
    var order := SortByLengthDesc(listed);
    var run := DeleteInOrder(blobs, map[], order);
    DeleteFailsIff(blobs, map[], order);
    assert run.err.None?;
    DeleteIssued(blobs, map[], order);
    assert run.issued == order;
    assert FolderStart("") == "";
    SortedListing(blobs, "", listed);
    DeleteRemoves(blobs, map[], order);
    assert run.blobs == map[] by {
      forall n | n in blobs
        ensures n in order
      {
        assert StartsWith(n, "");
      }
    }
  }

  lemma KeepNamesAdd(done: set<string>, p: string)
    ensures KeepNames(done + {p}) == KeepNames(done) + {KeepName(p)}
  {
  }

  /** The container `cur` after `_remove_placeholders` has visited `done`
      without a failure: it only removed placeholders, kept every blob the
      service refuses to delete, and a visited placeholder remains exactly
      when its delete was refused with "not found". */
  ghost predicate RemovedSoFar(before: Blobs, faults: map<string, StoreError>, done: set<string>, cur: Blobs) {
    && (forall n :: n in cur ==> n in before && cur[n] == before[n])
    && (forall n :: n in before && n !in KeepNames(done) ==> n in cur)
    && (forall n :: n in before && n in faults ==> n in cur)
    && (forall p :: p in done ==> !RemovalFails(before, faults, KeepName(p)))
    && (forall p :: p in done ==> (KeepName(p) in cur <==> KeepName(p) in before && KeepName(p) in faults))
  }

  /** Midway, a placeholder delete fails just as it would have at the start. */
  lemma RemovedSoFarFails(before: Blobs, faults: map<string, StoreError>, done: set<string>, cur: Blobs, name: string)
    requires RemovedSoFar(before, faults, done, cur)
    ensures RemovalFails(cur, faults, name) <==> RemovalFails(before, faults, name)
  {
  }

  /** A placeholder delete the loop does not stop at extends `done`. */
  lemma RemovedSoFarStep(before: Blobs, faults: map<string, StoreError>, done: set<string>, cur: Blobs, p: string)
    requires RemovedSoFar(before, faults, done, cur) && !RemovalFails(before, faults, KeepName(p))
    ensures RemovedSoFar(before, faults, done + {p}, AfterDelete(cur, faults, KeepName(p)))
  {
    KeepNamesAdd(done, p);
  }

  /** Visiting every prefix without a failure is `Removed` with no error. */
  lemma RemovedSoFarDone(before: Blobs, faults: map<string, StoreError>, prefixes: set<string>, cur: Blobs)
    requires RemovedSoFar(before, faults, prefixes, cur)
    ensures Removed(before, faults, prefixes, cur, None)
  {
  }

  /** Stopping at a failing placeholder delete is `Removed` with its error. */
  lemma RemovedSoFarFailed(before: Blobs, faults: map<string, StoreError>, prefixes: set<string>,
                           done: set<string>, cur: Blobs, p: string)
    requires RemovedSoFar(before, faults, done, cur) && done <= prefixes
    requires p in prefixes && RemovalFails(before, faults, KeepName(p))
    ensures Removed(before, faults, prefixes, cur, Some(faults[KeepName(p)]))
  {
    forall n | n in before && n !in KeepNames(prefixes)
      ensures n in cur
    {
      assert n !in KeepNames(done);
    }
  }

  /** The new entries of the delete log are deletes of the placeholders of
      `prefixes`. */
  ghost predicate RemovalLogged(log0: seq<string>, log: seq<string>, prefixes: set<string>) {
    && |log0| <= |log| && log[..|log0|] == log0
    && forall i :: |log0| <= i < |log| ==> log[i] in KeepNames(prefixes)
  }

  /** The container and the outcome of `upload_tree` once the local root is
      known to be a directory holding `files`. */
  ghost predicate UploadTreeOutcome(before: Blobs, faults: map<string, StoreError>, prefix: string,
                                    files: seq<LocalFile>, overwrite: bool, ignoreHidden: bool, removeKeep: bool,
                                    after: Blobs, log0: seq<string>, log: seq<string>, err: Option<ClientError>) {
    var run := UploadFiles(before, {}, prefix, files, overwrite, ignoreHidden);
    if run.err.Some? then err == Some(Service(run.err.value)) && after == run.blobs && log == log0
    else if !removeKeep then err.None? && after == run.blobs && log == log0
    else
      && (err.None? || err.value.Service?)
      && Removed(run.blobs, faults, run.uploaded, after, if err.Some? then Some(err.value.store) else None)
      && RemovalLogged(log0, log, run.uploaded)
  }

  /** The container and the outcome of the delete loop of `delete_folder`
      over `order`. */
  predicate FolderDeleted(before: Blobs, faults: map<string, StoreError>, order: seq<string>,
                          after: Blobs, log0: seq<string>, log: seq<string>, err: Option<ClientError>) {
    var run := DeleteInOrder(before, faults, order);
    && after == run.blobs
    && log == log0 + run.issued
    && err == if run.err.Some? then Some(Service(run.err.value)) else None
  }

  /** `all` is the run that issued `done` and then continued as `rest`. */
  predicate Resumes(all: DeleteRun, done: seq<string>, rest: DeleteRun) {
    all.blobs == rest.blobs && all.err == rest.err && all.issued == done + rest.issued
  }

  /** One delete that the loop skips or completes. */
  lemma DeleteStep(blobs: Blobs, faults: map<string, StoreError>, order: seq<string>, i: nat)
    requires i < |order| && !FolderDeleteFails(blobs, faults, order[i])
    ensures var rest := DeleteInOrder(AfterDelete(blobs, faults, order[i]), faults, order[i + 1..]);
      DeleteInOrder(blobs, faults, order[i..]) == DeleteRun(rest.blobs, [order[i]] + rest.issued, rest.err)
  {
    assert order[i..][1..] == order[i + 1..];
  }

  /** Moving one issued name from the rest of a run to its done part. */
  lemma ResumesStep(all: DeleteRun, done: seq<string>, name: string, rest: DeleteRun)
    requires Resumes(all, done, DeleteRun(rest.blobs, [name] + rest.issued, rest.err))
    ensures Resumes(all, done + [name], rest)
  {
    assert done + ([name] + rest.issued) == (done + [name]) + rest.issued;
  }

  /** One delete that stops the loop. */
  lemma DeleteStepFails(blobs: Blobs, faults: map<string, StoreError>, order: seq<string>, i: nat)
    requires i < |order| && FolderDeleteFails(blobs, faults, order[i])
    ensures DeleteInOrder(blobs, faults, order[i..]) == DeleteRun(blobs, [order[i]], Some(faults[order[i]]))
  {
  }

  /** A client connected to one container of the service. */
  class ConnectBlob {
    const connectionString: string
    const containerName: string

    /** Whether the container exists on the service. */
    var containerExists: bool
    /** The blobs of the container. */
    var blobs: Blobs
    /** The deletes the service refuses, by blob name, with the error it
        reports. */
    const deleteFaults: map<string, StoreError>
    /** Every delete request sent so far, in order. */
    var deleteLog: seq<string>

    /** The configuration passed the constructor's checks, and a container
        that does not exist holds no blobs. */
    ghost predicate Valid()
      reads this
    {
      && CheckConfig(connectionString, containerName).None?
      && (!containerExists ==> blobs == map[])
    }

    constructor (connectionString: string, containerName: string,
                 containerExists: bool, blobs: Blobs, deleteFaults: map<string, StoreError>)
      requires CheckConfig(connectionString, containerName).None?
      requires !containerExists ==> blobs == map[]
      ensures Valid()
      ensures this.connectionString == connectionString && this.containerName == containerName
      ensures this.containerExists == containerExists && this.blobs == blobs
      ensures this.deleteFaults == deleteFaults && deleteLog == []
    {
      this.connectionString := connectionString;
      this.containerName := containerName;
      this.containerExists := containerExists;
      this.blobs := blobs;
      this.deleteFaults := deleteFaults;
      deleteLog := [];
    }

    /** `ConnectBlob(connection_string, container_name)`: refuses an empty
        connection string, then an empty container name. The remaining
        parameters describe the container on the service. */
    static method Connect(connectionString: string, containerName: string,
                          containerExists: bool, blobs: Blobs, deleteFaults: map<string, StoreError>)
      returns (r: Result<ConnectBlob, ClientError>)
      requires !containerExists ==> blobs == map[]
      ensures CheckConfig(connectionString, containerName).Some? ==>
        r == Failure(CheckConfig(connectionString, containerName).value)
      ensures CheckConfig(connectionString, containerName).None? ==>
        && r.Success? && fresh(r.value) && r.value.Valid()
        && r.value.connectionString == connectionString && r.value.containerName == containerName
        && r.value.containerExists == containerExists && r.value.blobs == blobs
        && r.value.deleteFaults == deleteFaults && r.value.deleteLog == []
    {
      var e := CheckConfig(connectionString, containerName);
      if e.Some? {
        return Failure(e.value);
      }
      var c := new ConnectBlob(connectionString, containerName, containerExists, blobs, deleteFaults);
      return Success(c);
    }

    /* -------------------------------------------------------------- */
    /* Service requests                                                */
    /* -------------------------------------------------------------- */

    /** Creates the container; "already exists" when it is there. */
    method CreateContainer() returns (err: Option<StoreError>)
      requires Valid()
      modifies this`containerExists
      ensures Valid() && containerExists
      ensures err == if old(containerExists) then Some(Exists) else None
    {
      if containerExists {
        return Some(Exists);
      }
      containerExists := true;
      return None;
    }

    /** Uploads `data` as blob `name`. */
    method UploadBlob(name: string, data: seq<byte>, overwrite: bool) returns (err: Option<StoreError>)
      requires Valid()
      modifies this`blobs
      ensures Valid()
      ensures err == UploadError(containerExists, old(blobs), name, overwrite)
      ensures blobs == if err.None? then old(blobs)[name := data] else old(blobs)
    {
      err := UploadError(containerExists, blobs, name, overwrite);
      if err.None? {
        blobs := blobs[name := data];
      }
    }

    /** Deletes blob `name`; the request is logged whatever its outcome. */
    method DeleteBlob(name: string) returns (err: Option<StoreError>)
      requires Valid()
      modifies this`blobs, this`deleteLog
      ensures Valid()
      ensures err == DeleteError(old(blobs), deleteFaults, name)
      ensures blobs == AfterDelete(old(blobs), deleteFaults, name)
      ensures deleteLog == old(deleteLog) + [name]
    {
      err := DeleteError(blobs, deleteFaults, name);
      blobs := AfterDelete(blobs, deleteFaults, name);
      deleteLog := deleteLog + [name];
    }

    /** Lists the names of the blobs that start with `start`, in an order the
        service chooses; "not found" when there is no container. */
    method ListBlobs(start: string) returns (names: seq<string>, err: Option<StoreError>)
      requires Valid()
      ensures !containerExists ==> names == [] && err == Some(NotFound)
      ensures containerExists ==> err.None? && IsListing(names, blobs, start)
    {
      if !containerExists {
        return [], Some(NotFound);
      }
      var rest := set n | n in blobs.Keys && StartsWith(n, start);
      names := [];
      while rest != {}
        invariant forall n :: n in rest ==> n in blobs && StartsWith(n, start)
        invariant forall i :: 0 <= i < |names| ==> names[i] in blobs && StartsWith(names[i], start) && names[i] !in rest
        invariant forall n :: n in blobs && StartsWith(n, start) ==> n in names || n in rest
        invariant forall i, j :: 0 <= i < j < |names| ==> names[i] != names[j]
        decreases rest
      {
        var n :| n in rest;
        names := names + [n];
        rest := rest - {n};
      }
      err := None;
    }

    /* -------------------------------------------------------------- */
    /* Client operations                                               */
    /* -------------------------------------------------------------- */

    /** `_ensure_container`: creates the container, swallowing "already
        exists". */
    method EnsureContainer()
      requires Valid()
      modifies this`containerExists
      ensures Valid() && containerExists
    {
      var _ := CreateContainer();
    }

    /** `_ensure_placeholder`: uploads an empty placeholder without
        overwriting, swallowing "already exists". */
    method EnsurePlaceholder(prefix: string)
      requires Valid() && containerExists
      modifies this`blobs
      ensures Valid()
      ensures blobs == WithPlaceholder(old(blobs), prefix)
    {
      var _ := UploadBlob(KeepName(prefix), [], false);
    }

    /** `ensure_path`. */
    method EnsurePath(prefix: string, placeholders: bool := true)
      requires Valid()
      modifies this`containerExists, this`blobs
      ensures Valid() && containerExists
      ensures blobs == PathEnsured(old(blobs), prefix, placeholders)
    {
      EnsureContainer();
      var p := Strip(prefix);
      if !placeholders || p == "" {
        return;
      }
      EnsurePlaceholder(p);
    }

    /** `ensure_tree`: the container is created even when the specification
        turns out to be malformed. */
    method EnsureTree(basePrefix: string, spec: Spec, placeholders: bool := true) returns (err: Option<ClientError>)
      requires Valid()
      modifies this`containerExists, this`blobs
      ensures Valid() && containerExists
      ensures err.None? <==> WellFormed(spec)
      ensures var leaves := LeafPrefixes(Strip(basePrefix), spec);
        && (leaves.Failure? ==> err == Some(Structural(leaves.error)) && blobs == old(blobs))
        && (leaves.Success? ==> blobs == if placeholders then WithPlaceholders(old(blobs), leaves.value) else old(blobs))
    {
      EnsureContainer();
      var r := CollectLeafPrefixes(Strip(basePrefix), spec);
      if r.Failure? {
        return Some(Structural(r.error));
      }
      if !placeholders {
        return None;
      }
      var leaves := r.value;
      for i := 0 to |leaves|
        invariant Valid() && containerExists
        invariant blobs == WithPlaceholders(old(blobs), leaves[..i])
      {
        WithPlaceholdersStep(old(blobs), leaves, i);
        if leaves[i] != "" {
          EnsurePlaceholder(leaves[i]);
        }
      }
      assert leaves[..|leaves|] == leaves;
      return None;
    }

    /** `_remove_placeholders`: deletes the placeholder of every prefix, in
        an order the set iteration chooses, swallowing "not found"; any other
        error stops the loop and is raised. */
    method RemovePlaceholders(prefixes: set<string>) returns (err: Option<StoreError>)
      requires Valid()
      modifies this`blobs, this`deleteLog
      ensures Valid()
      ensures Removed(old(blobs), deleteFaults, prefixes, blobs, err)
      ensures RemovalLogged(old(deleteLog), deleteLog, prefixes)
    {
      var rest := prefixes;
      ghost var done: set<string> := {};
      while rest != {}
        invariant rest + done == prefixes && rest !! done
        invariant Valid()
        invariant RemovedSoFar(old(blobs), deleteFaults, done, blobs)
        invariant RemovalLogged(old(deleteLog), deleteLog, done)
        decreases rest
      {
        var p :| p in rest;
        var name := KeepName(p);
        ghost var cur := blobs;
        RemovedSoFarFails(old(blobs), deleteFaults, done, cur, name);
        var e := DeleteBlob(name);
        assert RemovalLogged(old(deleteLog), deleteLog, done + {p}) by {
          KeepNamesAdd(done, p);
        }
        if e.Some? && e.value != NotFound {
          RemovedSoFarFailed(old(blobs), deleteFaults, prefixes, done, cur, p);
          return e;
        }
        RemovedSoFarStep(old(blobs), deleteFaults, done, cur, p);
        rest := rest - {p};
        done := done + {p};
      }
      RemovedSoFarDone(old(blobs), deleteFaults, prefixes, blobs);
      return None;
    }

    /** `upload_tree(local_root, blob_prefix, ...)`. The directory walk is
        given as `rootIsDir` (whether the local root is a directory) and
        `files` (the files below it, with their paths relative to the root,
        in walk order). The container is created first, whatever follows. */
    method UploadTree(rootIsDir: bool, files: seq<LocalFile>, blobPrefix: string,
                      overwrite: bool := true, ignoreHidden: bool := true, removeKeep: bool := true)
      returns (err: Option<ClientError>)
      requires Valid()
      modifies this`containerExists, this`blobs, this`deleteLog
      ensures Valid() && containerExists
      ensures !rootIsDir ==> err == Some(LocalRootNotFound) && blobs == old(blobs) && deleteLog == old(deleteLog)
      ensures rootIsDir ==> UploadTreeOutcome(old(blobs), deleteFaults, Strip(blobPrefix), files, overwrite,
                                              ignoreHidden, removeKeep, blobs, old(deleteLog), deleteLog, err)
    {
      EnsureContainer();
      if !rootIsDir {
        return Some(LocalRootNotFound);
      }
      var prefix := Strip(blobPrefix);
      var uploaded: set<string> := {};
      var i := 0;
      while i < |files|
        invariant 0 <= i <= |files|
        invariant Valid() && containerExists && deleteLog == old(deleteLog)
        invariant UploadFiles(blobs, uploaded, prefix, files[i..], overwrite, ignoreHidden)
               == UploadFiles(old(blobs), {}, prefix, files, overwrite, ignoreHidden)
      {
        assert files[i..][1..] == files[i + 1..];
        var rel := files[i].0;
        var hidden := IsHiddenPath(rel);
        if !(ignoreHidden && hidden) {
          var name := BlobName(prefix, rel);
          var e := UploadBlob(name, files[i].1, overwrite);
          if e.Some? {
            return Some(Service(e.value));
          }
          var dir := UploadedDir(name);
          if dir != "" {
            uploaded := uploaded + {dir};
          }
        }
        i := i + 1;
      }
      if removeKeep {
        var e := RemovePlaceholders(uploaded);
        if e.Some? {
          return Some(Service(e.value));
        }
      }
      return None;
    }

    /** `delete_file`: "not found" is swallowed, every other error is
        raised. */
    method DeleteFile(blobName: string) returns (err: Option<ClientError>)
      requires Valid()
      modifies this`blobs, this`deleteLog
      ensures Valid()
      ensures Strip(blobName) == "" ==> err == Some(EmptyBlobName) && blobs == old(blobs) && deleteLog == old(deleteLog)
      ensures Strip(blobName) != "" ==>
        && blobs == AfterDelete(old(blobs), deleteFaults, Strip(blobName))
        && deleteLog == old(deleteLog) + [Strip(blobName)]
        && err == FileDeleteError(old(blobs), deleteFaults, Strip(blobName))
      ensures Strip(blobName) != "" && !containerExists ==> err.None? && blobs == old(blobs)
    {
      var name := Strip(blobName);
      if name == "" {
        return Some(EmptyBlobName);
      }
      var e := DeleteBlob(name);
      if e.Some? && e.value != NotFound {
        return Some(Service(e.value));
      }
      return None;
    }

    /** `delete_folder`: lists the folder, then deletes longest name first.
        A missing container is a no-op. */
    method DeleteFolder(prefix: string) returns (err: Option<ClientError>)
      requires Valid()
      modifies this`blobs, this`deleteLog
      ensures Valid()
      ensures !containerExists ==> err.None? && blobs == old(blobs) && deleteLog == old(deleteLog)
      ensures containerExists ==> exists listed ::
        && IsListing(listed, old(blobs), FolderStart(prefix))
        && FolderDeleted(old(blobs), deleteFaults, SortByLengthDesc(listed), blobs, old(deleteLog), deleteLog, err)
    {
      var start := FolderStart(prefix);
      var names, listErr := ListBlobs(start);
      if listErr.Some? {
        return None;
      }
      err := DeleteEach(SortByLengthDesc(names));
    }

    /** The delete loop of `delete_folder`: "not found" and "directory not
        empty" are skipped; any other error stops the loop and is raised. */
    method DeleteEach(order: seq<string>) returns (err: Option<ClientError>)
      requires Valid()
      modifies this`blobs, this`deleteLog
      ensures Valid()
      ensures FolderDeleted(old(blobs), deleteFaults, order, blobs, old(deleteLog), deleteLog, err)
    {
      ghost var all := DeleteInOrder(blobs, deleteFaults, order);
      var i := 0;
      while i < |order|
        invariant 0 <= i <= |order|
        invariant Valid()
        invariant deleteLog == old(deleteLog) + order[..i]
        invariant Resumes(all, order[..i], DeleteInOrder(blobs, deleteFaults, order[i..]))
      {
        ghost var before := blobs;
        var e := DeleteBlob(order[i]);
        assert order[..i + 1] == order[..i] + [order[i]];
        ghost var fails := FolderDeleteFails(before, deleteFaults, order[i]);
        assert fails <==> e.Some? && e.value != NotFound && e.value != DirectoryNotEmpty;
        if e.Some? && e.value != NotFound && e.value != DirectoryNotEmpty {
          DeleteStepFails(before, deleteFaults, order, i);
          return Some(Service(e.value));
        }
        DeleteStep(before, deleteFaults, order, i);
        ResumesStep(all, order[..i], order[i], DeleteInOrder(blobs, deleteFaults, order[i + 1..]));
        i := i + 1;
      }
      assert order[..|order|] == order;
      return None;
    }
  }
}
