/** The Python string operations the walker and the client rely on:
    `str.strip("/")`, `str.lstrip("/")`, `str.rstrip("/")`,
    `str.replace("\\", "/")`, `str.split("/")`, `str.startswith` and
    `posixpath.dirname`. */
module Text {

  predicate AllSlashes(s: string) {
    forall i :: 0 <= i < |s| ==> s[i] == '/'
  }

  /** Neither the first nor the last character is a slash. */
  predicate NoEdgeSlash(s: string) {
    s == [] || (s[0] != '/' && s[|s| - 1] != '/')
  }

  /** `s.lstrip("/")`. */
  function LStrip(s: string): string
    decreases |s|
  {
    if s != [] && s[0] == '/' then LStrip(s[1..]) else s
  }

  /** `s.rstrip("/")`. */
  function RStrip(s: string): string
    decreases |s|
  {
    if s != [] && s[|s| - 1] == '/' then RStrip(s[..|s| - 1]) else s
  }

  /** `s.strip("/")`. */
  function Strip(s: string): (r: string)
    ensures NoEdgeSlash(r)
    ensures NoEdgeSlash(s) ==> r == s
  {
    LStripEdge(s);
    RStripEdge(LStrip(s));
    RStrip(LStrip(s))
  }

  lemma {:induction false} LStripEdge(s: string)
    ensures LStrip(s) == [] || LStrip(s)[0] != '/'
    ensures |LStrip(s)| <= |s| && LStrip(s) == s[|s| - |LStrip(s)|..]
    ensures s == [] || s[0] != '/' ==> LStrip(s) == s
    decreases |s|
  {
    if s != [] && s[0] == '/' {
      LStripEdge(s[1..]);
    }
  }

  lemma {:induction false} RStripEdge(s: string)
    ensures RStrip(s) == [] || RStrip(s)[|RStrip(s)| - 1] != '/'
    ensures |RStrip(s)| <= |s| && RStrip(s) == s[..|RStrip(s)|]
    ensures s == [] || s[|s| - 1] != '/' ==> RStrip(s) == s
    ensures s != [] && s[0] != '/' ==> RStrip(s) != [] && RStrip(s)[0] == s[0]
    decreases |s|
  {
    if s != [] && s[|s| - 1] == '/' {
      RStripEdge(s[..|s| - 1]);
    }
  }

  /** `lstrip` removes leading slashes and nothing else. */
  lemma {:induction false} LStripSpec(s: string)
    ensures |LStrip(s)| <= |s| && LStrip(s) == s[|s| - |LStrip(s)|..]
    ensures LStrip(s) == [] || LStrip(s)[0] != '/'
    ensures AllSlashes(s[..|s| - |LStrip(s)|])
    decreases |s|
  {
    if s != [] && s[0] == '/' {
      LStripSpec(s[1..]);
      assert s[..|s| - |LStrip(s)|] == [s[0]] + s[1..][..|s| - 1 - |LStrip(s)|];
    }
  }

  /** `rstrip` removes trailing slashes and nothing else. */
  lemma {:induction false} RStripSpec(s: string)
    ensures |RStrip(s)| <= |s| && RStrip(s) == s[..|RStrip(s)|]
    ensures RStrip(s) == [] || RStrip(s)[|RStrip(s)| - 1] != '/'
    ensures AllSlashes(s[|RStrip(s)|..])
    decreases |s|
  {
    if s != [] && s[|s| - 1] == '/' {
      RStripSpec(s[..|s| - 1]);
      assert s[|RStrip(s)|..] == s[..|s| - 1][|RStrip(s)|..] + [s[|s| - 1]];
    }
  }

  /** `strip` gives the empty string exactly for a string of slashes. */
  lemma StripEmpty(s: string)
    ensures Strip(s) == [] <==> AllSlashes(s)
  {
    LStripSpec(s);
    var l := LStrip(s);
    RStripEdge(l);
    if Strip(s) == [] {
      RStripSpec(l);
      assert s == s[..|s| - |l|] + l;
    }
  }

  lemma StripIdempotent(s: string)
    ensures Strip(Strip(s)) == Strip(s)
  {
  }

  /** `s.replace("\\", "/")`. */
  function ReplaceBackslash(s: string): (r: string)
    ensures |r| == |s|
  {
    seq(|s|, i requires 0 <= i < |s| => if s[i] == '\\' then '/' else s[i])
  }

  /** Every backslash becomes a slash; every other character is kept. */
  lemma ReplaceBackslashSpec(s: string)
    ensures '\\' !in ReplaceBackslash(s)
    ensures forall i :: 0 <= i < |s| ==>
      ReplaceBackslash(s)[i] == if s[i] == '\\' then '/' else s[i]
  {
  }

  lemma ReplaceBackslashAppend(a: string, b: string)
    ensures ReplaceBackslash(a + b) == ReplaceBackslash(a) + ReplaceBackslash(b)
  {
    assert forall i :: 0 <= i < |a + b| ==>
      ReplaceBackslash(a + b)[i] == (ReplaceBackslash(a) + ReplaceBackslash(b))[i];
  }

  /** `s.startswith(p)`. */
  predicate StartsWith(s: string, p: string) {
    |p| <= |s| && s[..|p|] == p
  }

  /** `"/".join(segments)`. */
  function JoinSegments(segments: seq<string>): string
    requires |segments| >= 1
  {
    if |segments| == 1 then segments[0]
    else segments[0] + "/" + JoinSegments(segments[1..])
  }

  /** `s.split("/")`. */
  function Split(s: string): (r: seq<string>)
    ensures |r| >= 1
    decreases |s|
  {
    if s == [] then [""]
    else if s[0] == '/' then [""] + Split(s[1..])
    else
      var rest := Split(s[1..]);
      [[s[0]] + rest[0]] + rest[1..]
  }

  /** No segment holds a slash, and joining the segments with "/" gives
      back the string. */
  lemma {:induction false} SplitSpec(s: string)
    ensures forall i :: 0 <= i < |Split(s)| ==> '/' !in Split(s)[i]
    ensures JoinSegments(Split(s)) == s
    decreases |s|
  {
    if s != [] {
      SplitSpec(s[1..]);
      var rest := Split(s[1..]);
      if s[0] == '/' {
        assert ([""] + rest)[1..] == rest;
      } else {
        var r := [[s[0]] + rest[0]] + rest[1..];
        if |rest| > 1 {
          assert r[1..] == rest[1..];
        }
        assert '/' !in rest[0];
      }
    }
  }

  /** Splitting at a separator splits both sides independently. */
  lemma {:induction false} SplitAppend(a: string, b: string)
    ensures Split(a + "/" + b) == Split(a) + Split(b)
    decreases |a|
  {
    if a == [] {
      assert a + "/" + b == "/" + b;
      assert ("/" + b)[1..] == b;
    } else if a[0] == '/' {
      assert (a + "/" + b)[1..] == a[1..] + "/" + b;
      SplitAppend(a[1..], b);
    } else {
      assert (a + "/" + b)[1..] == a[1..] + "/" + b;
      SplitAppend(a[1..], b);
      assert |Split(a[1..])| >= 1;
    }
  }

  /** The other round trip: splitting a join of slash-free segments gives the
      segments back. */
  lemma {:induction false} SplitJoinSegments(segments: seq<string>)
    requires |segments| >= 1
    requires forall i :: 0 <= i < |segments| ==> '/' !in segments[i]
    ensures Split(JoinSegments(segments)) == segments
    decreases |segments|
  {
    if |segments| == 1 {
      SplitNoSlash(segments[0]);
    } else {
      SplitJoinSegments(segments[1..]);
      SplitNoSlash(segments[0]);
      SplitAppend(segments[0], JoinSegments(segments[1..]));
      assert segments == [segments[0]] + segments[1..];
    }
  }

  /** A string without a slash is a single segment. */
  lemma {:induction false} SplitNoSlash(s: string)
    requires '/' !in s
    ensures Split(s) == [s]
    decreases |s|
  {
    if s != [] {
      assert s[0] in s;
      SplitNoSlash(s[1..]);
      assert [s[0]] + s[1..] == s;
    }
  }

  /** `p[:p.rfind("/") + 1]`: everything up to and including the last slash,
      or "" when there is none. */
  function Head(p: string): (r: string)
    ensures |r| <= |p| && r == p[..|r|]
    ensures r == [] || r[|r| - 1] == '/'
    ensures '/' !in p[|r|..]
    decreases |p|
  {
    if p == [] then []
    else if p[|p| - 1] == '/' then p
    else
      var r := Head(p[..|p| - 1]);
      assert p[|r|..] == p[..|p| - 1][|r|..] + [p[|p| - 1]];
      r
  }

  /** `posixpath.dirname(p)`: the head with its trailing slashes removed,
      unless the head consists of slashes only. */
  function DirName(p: string): string {
    var head := Head(p);
    if head != [] && !AllSlashes(head) then RStrip(head) else head
  }

  /** dirname undoes appending a final segment to a directory name. */
  lemma DirNameOfChild(d: string, f: string)
    requires d != [] && d[|d| - 1] != '/'
    requires '/' !in f
    ensures DirName(d + "/" + f) == d
  {
    HeadOfChild(d + "/", f);
    var h := d + "/";
    assert h[|h| - 1] == '/';
    assert h[..|h| - 1] == d;
    assert !AllSlashes(h) by {
      assert h[|d| - 1] != '/';
    }
    assert RStrip(h) == RStrip(d);
  }

  lemma {:induction false} HeadOfChild(h: string, f: string)
    requires h != [] && h[|h| - 1] == '/'
    requires '/' !in f
    ensures Head(h + f) == h
    decreases |f|
  {
    if f == [] {
      assert h + f == h;
    } else {
      assert f[|f| - 1] in f;
      assert (h + f)[..|h + f| - 1] == h + f[..|f| - 1];
      assert forall c :: c in f[..|f| - 1] ==> c in f;
      HeadOfChild(h, f[..|f| - 1]);
    }
  }

  /** A name without a slash has an empty dirname. */
  lemma DirNameOfTopLevel(p: string)
    requires '/' !in p
    ensures DirName(p) == ""
  {
  }
}
