# blob-actions in Dafny

A verified model of the core of `blob_actions`. This is a small Python
library that lays out directory trees in an Azure-style blob container,
which is a flat store of named blobs.

It has two parts:

- **The tree-specification walker** (`blob_actions/tree.py`).
  - A nested mapping, in which an empty mapping marks a leaf directory, is flattened into the ordered list of its leaf prefixes.
  - `join_prefix` builds every prefix.
  - `is_hidden_path` decides whether a relative path has a dot-segment.
- **The client** (`blob_actions/client.py`). The class `ConnectBlob` reconciles the container with what the caller asks for:
  - it creates `.keep` placeholder blobs for empty directories;
  - it uploads a local tree and then drops the placeholders of the directories that have real content;
  - it deletes single blobs;
  - it deletes whole folders, longest name first.

## Modules

| module | file | contents |
|---|---|---|
| `Wrappers` | `wrappers.dfy` | `Option` and `Result` |
| `Text` | `text.dfy` | the Python string operations used: `strip`, `lstrip`, `rstrip`, `replace`, `split`, `startswith`, `posixpath.dirname` |
| `LengthSort` | `length_sort.dfy` | the stable `sorted(names, key=len, reverse=True)` |
| `Tree` | `tree.dfy` | `tree.py`: `join_prefix`, `is_hidden_path`, `_walk_tree`, `collect_leaf_prefixes` |
| `Store` | `store.dfy` | the container as the client sees it: blob map, error kinds, single-request semantics |
| `Client` | `client.dfy` | `client.py`: `ConnectBlob` and `_to_blob_path` |

### Tree specifications

A tree specification is `Tree.Spec`. It is either a `Mapping` whose entries are in the dictionary's iteration order, or `NotAMapping`, which stands for any other Python value.

Keys are `Tree.Key`. A key is either a string or `NotAString`, which stands for any other Python value.

### The walk

`_walk_tree` recurses while it appends to a shared list. `Tree.WalkTree` is a recursive method that threads that list through as a value. It is proved against the reference functions:

- `WalkSpec` and `WalkEntries` describe the walk;
- `WellFormed`, `LeafPaths` and `Expected` describe the intended result independently.

### The container

The container is state of the `ConnectBlob` object:

- `containerExists`;
- `blobs`, a map from blob names to bytes;
- `deleteLog`, every delete request sent, in order;
- `deleteFaults`, a fixed map giving, for each blob name whose delete the service refuses, the error it reports.

The service calls the client makes are methods of the class, with their semantics in `Store`: creating the container, uploading a blob, deleting a blob and listing blobs.

### Uploads

`upload_tree` walks the filesystem. In the model, the walk is an input:

- `rootIsDir` says whether the local root is a directory;
- a sequence of (relative path, bytes) pairs gives the files in walk order.

The upload loop is specified by the function `Client.UploadFiles`. `Staged` and `UploadedDirs` are independent descriptions of a complete upload. `UploadStopsEarly` uses them to describe a run that stops early.

### `join_prefix` with an empty name

`join_prefix("a", "")` is `"a/"`, not `"a"`. Only the prefix is tested for emptiness, never the name (`blob_actions/tree.py:40-42`), so an empty name still gets its separator. A second effect comes from testing the raw prefix before it is stripped: a prefix of slashes only is not empty, so `join_prefix("/", "a")` is `"/a"`. The model follows the code; see `Tree.JoinPrefixExamples`.

## Model

| member | source | states |
|---|---|---|
| Tree.JoinPrefix | blob_actions/tree.py:39-42 | the result starts with "/" iff a non-empty prefix is all slashes, and ends with "/" iff a prefix is given and the name is all slashes; otherwise it is normalised at both ends |
| Tree.JoinPrefixSegments | blob_actions/tree.py:40-42 | with a prefix, the segments of the result are the segments of the stripped prefix followed by those of the stripped name: inner double slashes survive |
| Tree.JoinPrefixExamples | blob_actions/tree.py:39-42 | `("", "a")` gives "a"; `("", "/a/")` gives "a"; `("a/", "/b/")` gives "a/b"; `("a", "")` gives "a/"; `("a", "b//c")` gives "a/b//c"; `("/", "a")` gives "/a" |
| Tree.IsHiddenPath | blob_actions/tree.py:17-21 | true iff some segment of the path, backslashes read as slashes, starts with "." and is neither "." nor ".." |
| Tree.HiddenAcrossSeparator | blob_actions/tree.py:18 | a path joined at "/" or "\" is hidden iff one of its two sides is |
| Tree.HiddenSingleSegment | blob_actions/tree.py:19 | a path without separators is hidden iff it is a hidden segment |
| Tree.HiddenExamples | blob_actions/tree.py:17-21 | "a/.git/x", ".env", "a/.cache/f" and "a\.cache" are hidden; "a/./b" and "a/b" are not |
| Tree.WalkTree | blob_actions/tree.py:24-36 | the list only grows: the new list is the old one followed by the walk's leaves, also when the walk fails; the error is the walk's |
| Tree.VisitEntry | blob_actions/tree.py:30-36 | one loop iteration: the key is checked first, then the value, then the value is walked under the joined prefix |
| Tree.WalkEntriesStopsAtError | blob_actions/tree.py:30-36 | once an entry has failed, later entries change neither the leaves nor the error |
| Tree.WalkMatchesReference | blob_actions/tree.py:24-36 | the walk fails iff the specification is malformed, so an error on any later key still fails it; on a well-formed one it records, for each leaf in depth-first key order, the prefix folded through `join_prefix` with the leaf's ancestor names, then stripped; there is one entry per leaf |
| Tree.WalkEntriesMatchReference | blob_actions/tree.py:30-36 | the same for the first n entries of a mapping |
| Tree.CollectLeafPrefixes | blob_actions/tree.py:5-8 | succeeds iff the specification is well formed; returns exactly one entry per leaf, each the base joined with the leaf's ancestor names |
| Tree.LeafPrefixesOfEmpty | blob_actions/tree.py:27-29 | an empty specification gives `[strip(base)]`, and `[""]` for base "" |
| Tree.LeafPrefixesOfBadValue | blob_actions/tree.py:34-35 | `{"a": 5}` is refused as a bad value |
| Text.StripEmpty | blob_actions/tree.py:41-42 | `strip("/")` gives "" exactly for a string of slashes |
| Text.LStripSpec | blob_actions/client.py:133 | `lstrip("/")` removes the leading slashes and nothing else |
| Text.RStripSpec | blob_actions/tree.py:42 | `rstrip("/")` removes the trailing slashes and nothing else |
| Text.SplitSpec | blob_actions/tree.py:18 | `split("/")` gives slash-free segments that join back to the string |
| Text.SplitAppend | blob_actions/tree.py:18 | splitting at a separator splits both sides independently |
| Text.SplitJoinSegments | blob_actions/tree.py:18 | splitting a "/"-join of slash-free segments gives them back |
| Text.Head | blob_actions/client.py:67 | the head of a path is a prefix of it that ends in "/" (or is empty), with no slash after it |
| Text.DirNameOfChild | blob_actions/client.py:67 | `dirname(d + "/" + f)` is `d` for a slash-free `f` and a non-empty `d` without a trailing slash |
| LengthSort.SortSorted | blob_actions/client.py:98 | the result is ordered by non-increasing length and is a permutation of the input |
| LengthSort.SortIsStable | blob_actions/client.py:98 | names of equal length keep their relative order |
| LengthSort.ExtensionsFirst | blob_actions/client.py:98 | a name that is a proper prefix of another comes after it |
| Store.UploadError | blob_actions/client.py:66 | an upload succeeds iff the container exists and overwriting is allowed or the name is free |
| Store.DeleteError | blob_actions/client.py:80 | a delete succeeds iff the blob exists and the service does not refuse it |
| Store.AfterDelete | blob_actions/client.py:100 | a delete removes exactly that name unless the service refuses it, and changes no content |
| Client.CheckConfig | blob_actions/client.py:11-15 | construction is refused iff the connection string or the container name is empty, and the connection string is checked first |
| Client.ConnectBlob.Connect | blob_actions/client.py:11-17 | refuses an empty connection string, then an empty container name; otherwise yields a client with those settings over the given container |
| Client.ConnectBlob.constructor | blob_actions/client.py:16-17 | stores the settings and the container |
| Client.ToBlobPath | blob_actions/client.py:132-133 | the result has no backslash and does not start with "/" |
| Client.ToBlobPathSpec | blob_actions/client.py:132-133 | the result is the path with every "\" turned to "/", less a leading run of separators |
| Client.ToBlobPathIdempotent | blob_actions/client.py:132-133 | converting twice is converting once |
| Client.KeepName | blob_actions/client.py:115 | the placeholder of a non-empty prefix is `strip(prefix) + "/.keep"` |
| Client.UploadedDirOfChild | blob_actions/client.py:67 | the directory of a blob `d/f` is `d` |
| Client.UploadedDirOfTopLevel | blob_actions/client.py:67-68 | a blob without a slash populates no directory |
| Client.WithPlaceholder | blob_actions/client.py:114-120 | adds the placeholder as an empty blob when absent; keeps an existing one and its content |
| Client.PathEnsuredEffect | blob_actions/client.py:20-25 | `strip(p) + "/.keep"` is added iff placeholders are on and `strip(p)` is not empty; nothing else is added or changed |
| Client.PathEnsuredIdempotent | blob_actions/client.py:20-25 | ensuring a path twice leaves the state of ensuring it once |
| Client.WithPlaceholdersEffect | blob_actions/client.py:32-34 | the placeholder loop adds exactly the placeholders of the non-empty prefixes, empty, and changes no existing blob |
| Client.StagedKeys | blob_actions/client.py:59-61 | the staged names are exactly the names of the files that are not skipped |
| Client.StagedLastWins | blob_actions/client.py:61-66 | a staged name holds the bytes of the last file that is uploaded to it |
| Client.UploadFrame | blob_actions/client.py:55-69 | the upload loop never removes a blob, changes only staged names, keeps every recorded directory, and fails only with "already exists" when overwriting is off |
| Client.UploadStopsEarly | blob_actions/client.py:55-69 | when the upload loop stops early, it stopped at a file that is not skipped and whose name was taken before the upload or by an earlier file; the container is the old one overlaid with `Staged` of the files before it, and the recorded directories are theirs, so nothing from that file on was written |
| Client.UploadOverwriteCompletes | blob_actions/client.py:66 | with overwriting on, the upload loop never fails |
| Client.UploadContents | blob_actions/client.py:55-66 | a completed upload leaves the container overlaid with the staged files |
| Client.UploadDirectories | blob_actions/client.py:67-69 | a completed upload records exactly the non-empty directories of the uploaded blob names |
| Client.UploadConflict | blob_actions/client.py:66 | with overwriting off, the loop fails iff some file that is not skipped targets a name present before or written by an earlier file |
| Client.UploadStoresFile | blob_actions/client.py:59-66 | after a completed upload each file that is not skipped is stored, with its bytes, under `join_prefix(strip(blob_prefix), _to_blob_path(rel))`, unless a later file takes that name |
| Client.FileDeleteError | blob_actions/client.py:79-82 | `delete_file` raises iff the blob exists and the service refuses its delete with something other than "not found" |
| Client.FileDeleteIdempotent | blob_actions/client.py:74-82 | deleting a file twice has the effect and the outcome of deleting it once |
| Client.FolderStart | blob_actions/client.py:85-89 | the listing starts with `strip(p) + "/"`, or with "" when `strip(p)` is empty |
| Client.DeleteIssued | blob_actions/client.py:98-106 | the issued deletes are a prefix of the order, all of it when the loop completes |
| Client.DeleteStopsAtFailure | blob_actions/client.py:103-106 | a failing loop stops at the first delete that is neither "not found" nor "directory not empty", and raises its error |
| Client.DeleteFailsIff | blob_actions/client.py:98-106 | the loop fails iff some name in the order fails to delete |
| Client.DeleteRemoves | blob_actions/client.py:98-106 | the loop removes exactly the issued names the service does not refuse, so deletes before a failure remain |
| Client.FolderDeletionFrame | blob_actions/client.py:84-106 | `delete_folder` touches no blob outside the folder |
| Client.FolderDeletionFails | blob_actions/client.py:98-106 | `delete_folder` raises iff some blob of the folder fails to delete |
| Client.FolderDeletionRemains | blob_actions/client.py:98-106 | when `delete_folder` completes, the blobs of the folder that remain are exactly those whose delete the service refused |
| Client.FolderDeletionOrder | blob_actions/client.py:98 | deletes are issued in non-increasing name length |
| Client.DeleteAll | blob_actions/client.py:84-106 | `delete_folder("")` on a service that refuses nothing deletes every blob, in sorted order |
| Client.ConnectBlob.CreateContainer | blob_actions/client.py:110 | the container exists afterwards; "already exists" iff it was there |
| Client.ConnectBlob.UploadBlob | blob_actions/client.py:66 | the blob is written iff the upload reports no error |
| Client.ConnectBlob.DeleteBlob | blob_actions/client.py:80 | the delete has the single-request semantics and is logged |
| Client.ConnectBlob.ListBlobs | blob_actions/client.py:92-95 | lists, each once, exactly the blob names with the given start; "not found" without a container |
| Client.ConnectBlob.EnsureContainer | blob_actions/client.py:108-112 | the container exists afterwards and no blob changes |
| Client.ConnectBlob.EnsurePlaceholder | blob_actions/client.py:114-120 | the placeholder is created without overwriting; "already exists" is swallowed |
| Client.ConnectBlob.EnsurePath | blob_actions/client.py:20-25 | `placeholders` defaults to true; the container exists, and the blobs are those of `PathEnsured` |
| Client.ConnectBlob.EnsureTree | blob_actions/client.py:27-34 | `placeholders` defaults to true; the container exists even on error; succeeds iff the specification is well formed; then adds the placeholders of the non-empty leaf prefixes of the stripped base, or changes nothing with placeholders off |
| Client.ConnectBlob.RemovePlaceholders | blob_actions/client.py:122-129 | in any set order: only placeholders are removed and no content changes; a blob whose delete the service refuses stays, also when the loop fails; fails iff some placeholder delete fails with other than "not found", with that error; when it succeeds, a placeholder remains only if its delete was refused with "not found"; only placeholder deletes are logged |
| Client.ConnectBlob.UploadTree | blob_actions/client.py:40-72 | `overwrite`, `ignore_hidden` and `remove_keep` default to true, so by default the last file written to a name wins; the container is created first; a root that is not a directory is refused; otherwise the outcome is the upload loop's, followed, with `remove_keep`, by the removal of the placeholders of exactly the recorded directories |
| Client.ConnectBlob.DeleteFile | blob_actions/client.py:74-82 | a name that strips to "" is refused and nothing changes; otherwise the stripped name is deleted, its delete alone is logged, and only "not found" is swallowed; so with no container nothing changes and nothing is raised |
| Client.ConnectBlob.DeleteFolder | blob_actions/client.py:84-97 | no container: nothing happens and nothing is raised; otherwise the outcome is the delete loop over some listing of the folder, sorted longest first |
| Client.ConnectBlob.DeleteEach | blob_actions/client.py:98-106 | the loop's new state, log and error are those of `DeleteInOrder` |

## Left out

- The filesystem side of `upload_tree` is replaced by parameters: `os.walk`, `os.path.abspath`, `os.path.relpath`, `os.path.isdir` and `open`. The model takes whether the root is a directory and the files as (relative path, bytes) pairs in walk order. Nothing is claimed about the order `os.walk` produces.
- `create_local_tree` is not modelled, because the file system is not modelled. The `tree.py` version (`blob_actions/tree.py:11-14`) only calls `os.makedirs(join(local_root, p))` for each `p` of `collect_leaf_prefixes("", spec)`. The `client.py` version (`blob_actions/client.py:36-38`) first creates `local_root` itself and then calls the `tree.py` one. So for a malformed specification such as `{"a": 5}`, the client version leaves `local_root` created before it raises, while the `tree.py` version raises before creating anything.
- The Azure SDK is not modelled. The client objects, connection-string parsing and transport are replaced by the abstract container.
  - Creating a container, uploading and listing fail only in the ways the model names: creating a container that already exists, an upload into a missing container or onto an existing blob with `overwrite` off, and a listing of a missing container. Every other service failure of these three calls is dropped; the source passes such failures on to the caller (`blob_actions/client.py:66`, `92-95`, `110`).
  - The errors of a delete come from the fixed `deleteFaults` map, so they do not vary from one request to the next. In particular, a "directory not empty" refusal never depends on what is left in the container. The model therefore shows that `delete_folder` issues its deletes longest name first (`Client.FolderDeletionOrder`), but not why that order matters: on a service with directory markers, a parent's delete succeeds once its children are gone.
- Client.UploadOverwriteCompletes: the upload loop, which runs after the container has been created, completes with `overwrite` on only because the abstraction above drops the other failures of an upload. The external contract of `upload_tree` allows this; `blob_actions/client.py:66` by itself does not promise it.
- Client.UploadFrame: its error clause (the loop fails only with "already exists" and only when overwriting is off) holds for the same reason. The client does not handle other errors; it passes them on.
- The host is assumed to be POSIX: `os.path.dirname` (`blob_actions/client.py:67`) is modelled as `posixpath.dirname`. On Windows (`ntpath`), a blob prefix `p\` records the directory `p` rather than `p/`; the placeholder deleted is `p/.keep` either way.
- File contents are opaque byte sequences; streaming is not modelled.
- Concurrency between clients is not modelled.
- Tree.Spec: duplicate keys are allowed, though a Python dictionary cannot hold them. The walk treats them like distinct keys.
- Client.ConnectBlob.RemovePlaceholders: iteration over a Python `set` has an order the model does not fix. The contract therefore states what holds for every order, not the exact sequence of requests.
- Client.ConnectBlob.DeleteFolder: the order of the listing is the service's. The contract fixes the listing only up to order, and the sort makes the delete order depend on it only among names of equal length.
