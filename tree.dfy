/** The tree-specification walker of blob_actions/tree.py: turning a nested
    mapping into the list of leaf prefixes, joining prefixes, and deciding
    whether a path has a hidden segment. */
module Tree {
  import opened Wrappers
  import opened Text

  /** A key of a tree specification: a string, or any other Python value. */
  datatype Key = Name(s: string) | NotAString

  /** A tree specification: a mapping, with its entries in iteration order,
      whose empty form marks a leaf directory; or a value that is not a
      mapping at all. */
  datatype Spec = Mapping(entries: seq<(Key, Spec)>) | NotAMapping

  /** The three `ValueError`s the walk raises. */
  datatype TreeError =
    | SpecNotAMapping   // "tree_spec must be a dictionary"
    | BadKey            // "tree_spec keys must be non-empty strings"
    | BadValue          // "tree_spec values must be dictionaries"

  // ---------------------------------------------------------------------
  // join_prefix

  /** `join_prefix`: the only place prefixes are built. The emptiness test
      is made on the raw prefix, so the result is normalised exactly when
      neither side consists of slashes only (with a prefix given). */
  function JoinPrefix(prefix: string, name: string): (r: string)
    ensures (r != [] && r[0] == '/') <==> (prefix != [] && AllSlashes(prefix))
    ensures (r != [] && r[|r| - 1] == '/') <==> (prefix != [] && AllSlashes(name))
  {
    StripEmpty(prefix);
    StripEmpty(name);
    if prefix == [] then Strip(name) else Strip(prefix) + "/" + Strip(name)
  }

  /** Joining never merges or drops inner segments: the segments of the
      result are those of the stripped prefix followed by those of the
      stripped name (so "a" and "b//c" give "a/b//c"). */
  lemma JoinPrefixSegments(prefix: string, name: string)
    requires prefix != []
    ensures Split(JoinPrefix(prefix, name)) == Split(Strip(prefix)) + Split(Strip(name))
  {
    SplitAppend(Strip(prefix), Strip(name));
  }

  lemma JoinPrefixExamples()
    ensures JoinPrefix("", "a") == "a"
    ensures JoinPrefix("", "/a/") == "a"
    ensures JoinPrefix("a/", "/b/") == "a/b"
    ensures JoinPrefix("a", "") == "a/"
    ensures JoinPrefix("a", "b//c") == "a/b//c"
    ensures JoinPrefix("/", "a") == "/a"
  {
    assert NoEdgeSlash("a") && NoEdgeSlash("b//c");
    assert LStrip("/a/") == LStrip("a/") == "a/";
    assert RStrip("a/") == RStrip("a") == "a";
    assert LStrip("/b/") == LStrip("b/") == "b/";
    assert RStrip("b/") == "b";
  }

  // ---------------------------------------------------------------------
  // is_hidden_path

  /** A segment is hidden when it starts with a dot and is not "." or "..". */
  predicate HiddenSegment(segment: string) {
    segment != [] && segment[0] == '.' && segment != "." && segment != ".."
  }

  /** The segments `is_hidden_path` inspects: backslashes become slashes,
      then the path is split on slashes. */
  function Segments(path: string): seq<string> {
    Split(ReplaceBackslash(path))
  }

  predicate Hidden(path: string) {
    exists i :: 0 <= i < |Segments(path)| && HiddenSegment(Segments(path)[i])
  }

  /** `is_hidden_path`: scans the segments and stops at the first hidden one. */
  method IsHiddenPath(path: string) returns (hidden: bool)
    ensures hidden == Hidden(path)
  {
    var segments := Split(ReplaceBackslash(path));
    assert segments == Segments(path);
    for i := 0 to |segments|
      invariant forall k :: 0 <= k < i ==> !HiddenSegment(segments[k])
    {
      if HiddenSegment(segments[i]) {
        return true;
      }
    }
    return false;
  }

  /** A path is hidden exactly when one of the two sides of a separator is. */
  lemma HiddenAcrossSeparator(a: string, sep: char, b: string)
    requires sep == '/' || sep == '\\'
    ensures Hidden(a + [sep] + b) <==> Hidden(a) || Hidden(b)
  {
    ReplaceBackslashAppend(a + [sep], b);
    ReplaceBackslashAppend(a, [sep]);
    assert ReplaceBackslash([sep]) == "/";
    SplitAppend(ReplaceBackslash(a), ReplaceBackslash(b));
    var sa, sb := Segments(a), Segments(b);
    assert Segments(a + [sep] + b) == sa + sb;
    if Hidden(a) {
      var i :| 0 <= i < |sa| && HiddenSegment(sa[i]);
      assert (sa + sb)[i] == sa[i];
    }
    if Hidden(b) {
      var i :| 0 <= i < |sb| && HiddenSegment(sb[i]);
      assert (sa + sb)[|sa| + i] == sb[i];
    }
    if Hidden(a + [sep] + b) {
      var i :| 0 <= i < |sa + sb| && HiddenSegment((sa + sb)[i]);
      if i < |sa| {
        assert sa[i] == (sa + sb)[i];
      } else {
        assert sb[i - |sa|] == (sa + sb)[i];
      }
    }
  }

  /** A path without separators is hidden exactly when it is a hidden segment. */
  lemma HiddenSingleSegment(s: string)
    requires '/' !in s && '\\' !in s
    ensures Hidden(s) <==> HiddenSegment(s)
  {
    ReplaceBackslashSpec(s);
    assert ReplaceBackslash(s) == s;
    SplitNoSlash(s);
    assert Segments(s) == [s];
    if HiddenSegment(s) {
      assert HiddenSegment(Segments(s)[0]);
    }
  }

  /** A path names its segments with either separator. */
  lemma HiddenExamples()
    ensures Hidden("a/.git/x") && Hidden(".env") && Hidden("a/.cache/f")
    ensures Hidden("a\\.cache")
    ensures !Hidden("a/./b") && !Hidden("a/b")
  {
    HiddenGitExample();
    HiddenSingleSegment(".env");
    HiddenCacheSlashExample();
    HiddenBackslashExample();
    VisibleExample();
  }

  lemma HiddenGitExample()
    ensures Hidden("a/.git/x")
  {
    HiddenSingleSegment(".git");
    HiddenAcrossSeparator(".git", '/', "x");
    assert ".git/x" == ".git" + ['/'] + "x";
    assert "a/.git/x" == "a" + ['/'] + ".git/x";
    HiddenAcrossSeparator("a", '/', ".git/x");
  }

  lemma HiddenCacheSlashExample()
    ensures Hidden("a/.cache/f")
  {
    HiddenSingleSegment(".cache");
    assert "a/.cache" == "a" + ['/'] + ".cache";
    HiddenAcrossSeparator("a", '/', ".cache");
    assert "a/.cache/f" == "a/.cache" + ['/'] + "f";
    HiddenAcrossSeparator("a/.cache", '/', "f");
  }

  lemma HiddenBackslashExample()
    ensures Hidden("a\\.cache")
  {
    HiddenSingleSegment(".cache");
    assert "a\\.cache" == "a" + ['\\'] + ".cache";
    HiddenAcrossSeparator("a", '\\', ".cache");
  }

  lemma VisibleExample()
    ensures !Hidden("a/./b") && !Hidden("a/b")
  {
    HiddenSingleSegment("a");
    HiddenSingleSegment("b");
    HiddenSingleSegment(".");
    HiddenAcrossSeparator("a", '/', ".");
    assert "a/./b" == "a" + ['/'] + "." + ['/'] + "b";
    HiddenAcrossSeparator("a" + ['/'] + ".", '/', "b");
    assert "a/b" == "a" + ['/'] + "b";
    HiddenAcrossSeparator("a", '/', "b");
  }

  // ---------------------------------------------------------------------
  // _walk_tree and collect_leaf_prefixes

  /** What the walk has appended, and the error it stopped with, if any. */
  datatype Walk = Walk(leaves: seq<string>, err: Option<TreeError>)

  /** The walk of `t` under `prefix`. */
  function WalkSpec(prefix: string, t: Spec): Walk
    decreases t, 2, 0
  {
    match t
    case NotAMapping => Walk([], Some(SpecNotAMapping))
    case Mapping(entries) =>
      if entries == [] then Walk([Strip(prefix)], None)
      else WalkEntries(prefix, t, |entries|)
  }

  /** The walk over the first `n` entries of the mapping `t`; the first
      error ends it. */
  function WalkEntries(prefix: string, t: Spec, n: nat): Walk
    requires t.Mapping? && n <= |t.entries|
    decreases t, 1, n
  {
    if n == 0 then Walk([], None)
    else
      var before := WalkEntries(prefix, t, n - 1);
      if before.err.Some? then before
      else
        var w := WalkEntry(prefix, t, n - 1);
        Walk(before.leaves + w.leaves, w.err)
  }

  /** The walk of entry `i` of the mapping `t`: the key is checked, then the
      value, then the value is walked under the joined prefix. */
  function WalkEntry(prefix: string, t: Spec, i: nat): Walk
    requires t.Mapping? && i < |t.entries|
    decreases t, 0, 0
  {
    var (key, sub) := t.entries[i];
    if !key.Name? || key.s == [] then Walk([], Some(BadKey))
    else if sub.NotAMapping? then Walk([], Some(BadValue))
    else WalkSpec(JoinPrefix(prefix, key.s), sub)
  }

  /** Once the walk over some entries has failed, later entries change nothing. */
  lemma {:induction false} WalkEntriesStopsAtError(prefix: string, t: Spec, k: nat, n: nat)
    requires t.Mapping? && k <= n <= |t.entries|
    requires WalkEntries(prefix, t, k).err.Some?
    ensures WalkEntries(prefix, t, n) == WalkEntries(prefix, t, k)
    decreases n
  {
    if n > k {
      WalkEntriesStopsAtError(prefix, t, k, n - 1);
    }
  }

  /** `_walk_tree`: recurses into the specification, appending each leaf
      prefix to the shared list `leaves`, which is threaded through as a
      value. The list only grows: what it held is kept as its prefix, also
      when the walk fails part-way. */
  method WalkTree(prefix: string, spec: Spec, leaves: seq<string>)
      returns (leaves': seq<string>, err: Option<TreeError>)
    ensures leaves' == leaves + WalkSpec(prefix, spec).leaves
    ensures err == WalkSpec(prefix, spec).err
    decreases spec, 1
  {
    if spec.NotAMapping? {
      return leaves, Some(SpecNotAMapping);
    }
    if spec.entries == [] {
      return leaves + [Strip(prefix)], None;
    }
    leaves' := leaves;
    for i := 0 to |spec.entries|
      invariant leaves' == leaves + WalkEntries(prefix, spec, i).leaves
      invariant WalkEntries(prefix, spec, i).err.None?
    {
      ghost var before := leaves';
      leaves', err := VisitEntry(prefix, spec, i, leaves');
      if err.Some? {
        WalkEntriesStopsAtError(prefix, spec, i + 1, |spec.entries|);
        return;
      }
      assert leaves' == before + WalkEntry(prefix, spec, i).leaves;
    }
    err := None;
  }

  /** One iteration of the loop of `_walk_tree` over the mapping's items. */
  method VisitEntry(prefix: string, spec: Spec, i: nat, leaves: seq<string>)
      returns (leaves': seq<string>, err: Option<TreeError>)
    requires spec.Mapping? && i < |spec.entries|
    ensures leaves' == leaves + WalkEntry(prefix, spec, i).leaves
    ensures err == WalkEntry(prefix, spec, i).err
    decreases spec, 0
  {
    var (name, subtree) := spec.entries[i];
    if !name.Name? || name.s == [] {
      return leaves, Some(BadKey);
    }
    var nextPrefix := JoinPrefix(prefix, name.s);
    if subtree.NotAMapping? {
      return leaves, Some(BadValue);
    }
    leaves', err := WalkTree(nextPrefix, subtree, leaves);
  }

  /** The result of `collect_leaf_prefixes` as a value. */
  function LeafPrefixes(base: string, spec: Spec): Result<seq<string>, TreeError> {
    var w := WalkSpec(base, spec);
    if w.err.Some? then Failure(w.err.value) else Success(w.leaves)
  }

  // ---------------------------------------------------------------------
  // The reference description of the walk

  /** The walk raises no error: every node is a mapping and every key a
      non-empty string. */
  predicate WellFormed(t: Spec)
    decreases t, 1, 0
  {
    t.Mapping? && WellFormedUpTo(t, |t.entries|)
  }

  predicate WellFormedUpTo(t: Spec, n: nat)
    requires t.Mapping? && n <= |t.entries|
    decreases t, 0, n
  {
    forall i :: 0 <= i < n ==>
      t.entries[i].0.Name? && t.entries[i].0.s != [] && WellFormed(t.entries[i].1)
  }

  /** The number of leaves (empty mappings) in `t`. */
  function LeafCount(t: Spec): nat
    decreases t, 1, 0
  {
    match t
    case NotAMapping => 0
    case Mapping(entries) => if entries == [] then 1 else LeafCountUpTo(t, |entries|)
  }

  function LeafCountUpTo(t: Spec, n: nat): nat
    requires t.Mapping? && n <= |t.entries|
    decreases t, 0, n
  {
    if n == 0 then 0 else LeafCountUpTo(t, n - 1) + LeafCount(t.entries[n - 1].1)
  }

  /** Puts `name` in front of every path. */
  function Under(name: string, paths: seq<seq<string>>): seq<seq<string>> {
    seq(|paths|, i requires 0 <= i < |paths| => [name] + paths[i])
  }

  /** The names on the way from the root to each leaf, leaves in
      depth-first pre-order following key order. */
  function LeafPaths(t: Spec): seq<seq<string>>
    requires WellFormed(t)
    decreases t, 1, 0
  {
    if t.entries == [] then [[]] else LeafPathsUpTo(t, |t.entries|)
  }

  function LeafPathsUpTo(t: Spec, n: nat): seq<seq<string>>
    requires t.Mapping? && n <= |t.entries| && WellFormedUpTo(t, n)
    decreases t, 0, n
  {
    if n == 0 then []
    else LeafPathsUpTo(t, n - 1) + Under(t.entries[n - 1].0.s, LeafPaths(t.entries[n - 1].1))
  }

  /** `prefix` folded through `join_prefix` with each of `names`. */
  function FoldJoin(prefix: string, names: seq<string>): string
    decreases |names|
  {
    if names == [] then prefix else FoldJoin(JoinPrefix(prefix, names[0]), names[1..])
  }

  /** For every path, the leaf prefix the walk records for it. */
  function Expected(prefix: string, paths: seq<seq<string>>): seq<string> {
    seq(|paths|, i requires 0 <= i < |paths| => Strip(FoldJoin(prefix, paths[i])))
  }

  lemma ExpectedAppend(prefix: string, a: seq<seq<string>>, b: seq<seq<string>>)
    ensures Expected(prefix, a + b) == Expected(prefix, a) + Expected(prefix, b)
  {
  }

  lemma ExpectedUnder(prefix: string, name: string, paths: seq<seq<string>>)
    ensures Expected(prefix, Under(name, paths)) == Expected(JoinPrefix(prefix, name), paths)
  {
    forall i | 0 <= i < |paths|
      ensures Expected(prefix, Under(name, paths))[i] == Expected(JoinPrefix(prefix, name), paths)[i]
    {
      assert ([name] + paths[i])[1..] == paths[i];
    }
  }

  /** The walk fails exactly on a malformed specification; on a well-formed
      one it records, for each leaf in depth-first key order, the prefix
      folded through `join_prefix` with the leaf's ancestor names, stripped. */
  lemma {:induction false} WalkMatchesReference(prefix: string, t: Spec)
    ensures WalkSpec(prefix, t).err.None? <==> WellFormed(t)
    ensures WellFormed(t) ==>
      WalkSpec(prefix, t).leaves == Expected(prefix, LeafPaths(t)) &&
      |LeafPaths(t)| == LeafCount(t)
    decreases t, 1, 0
  {
    match t
    case NotAMapping =>
    case Mapping(entries) =>
      if entries != [] {
        WalkEntriesMatchReference(prefix, t, |entries|);
      }
  }

  lemma {:induction false} WalkEntriesMatchReference(prefix: string, t: Spec, n: nat)
    requires t.Mapping? && n <= |t.entries|
    ensures WalkEntries(prefix, t, n).err.None? <==> WellFormedUpTo(t, n)
    ensures WellFormedUpTo(t, n) ==>
      WalkEntries(prefix, t, n).leaves == Expected(prefix, LeafPathsUpTo(t, n)) &&
      |LeafPathsUpTo(t, n)| == LeafCountUpTo(t, n)
    decreases t, 0, n
  {
    if n > 0 {
      WalkEntriesMatchReference(prefix, t, n - 1);
      var (key, sub) := t.entries[n - 1];
      if WalkEntries(prefix, t, n - 1).err.None? && key.Name? && key.s != [] && sub.Mapping? {
        WalkMatchesReference(JoinPrefix(prefix, key.s), sub);
        if WellFormedUpTo(t, n) {
          ExpectedAppend(prefix, LeafPathsUpTo(t, n - 1), Under(key.s, LeafPaths(sub)));
          ExpectedUnder(prefix, key.s, LeafPaths(sub));
        }
      }
    }
  }

  /** `collect_leaf_prefixes`: walks the specification into a fresh list.
      It fails exactly when the specification is malformed; otherwise it
      returns one stripped prefix per leaf, in depth-first key order, each
      `base` joined with the leaf's ancestor names. */
  method CollectLeafPrefixes(base: string, spec: Spec) returns (r: Result<seq<string>, TreeError>)
    ensures r == LeafPrefixes(base, spec)
    ensures r.Success? <==> WellFormed(spec)
    ensures r.Success? ==> |r.value| == LeafCount(spec)
    ensures r.Success? ==> r.value == Expected(base, LeafPaths(spec))
  {
    var leaves, err := WalkTree(base, spec, []);
    assert leaves == WalkSpec(base, spec).leaves;
    WalkMatchesReference(base, spec);
    if err.Some? {
      return Failure(err.value);
    }
    return Success(leaves);
  }

  /** An empty specification yields the stripped base alone, "" included. */
  lemma LeafPrefixesOfEmpty(base: string)
    ensures LeafPrefixes(base, Mapping([])) == Success([Strip(base)])
    ensures LeafPrefixes("", Mapping([])) == Success([""])
  {
  }

  /** `{"a": 5}` is refused because the value is not a mapping. */
  lemma LeafPrefixesOfBadValue()
    ensures LeafPrefixes("", Mapping([(Name("a"), NotAMapping)])) == Failure(BadValue)
  {
    var t := Mapping([(Name("a"), NotAMapping)]);
    assert WalkEntries("", t, 0) == Walk([], None);
    assert WalkEntries("", t, 1).err == Some(BadValue);
  }
}
