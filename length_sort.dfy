/** Python's `sorted(names, key=len, reverse=True)`: a stable sort of names
    by non-increasing length. */
module LengthSort {

  /** Every name is at least as long as every name after it. */
  predicate NonIncreasing(s: seq<string>) {
    forall i, j :: 0 <= i < j < |s| ==> |s[i]| >= |s[j]|
  }

  /** The names of length `n`, in the order they occur. */
  function OfLength(s: seq<string>, n: nat): seq<string> {
    if s == [] then []
    else (if |s[0]| == n then [s[0]] else []) + OfLength(s[1..], n)
  }

  /** Places `x` after the leading names that are at least as long as it. */
  function Insert(t: seq<string>, x: string): (r: seq<string>)
    ensures |r| == |t| + 1
  {
    if t == [] then [x]
    else if |t[0]| < |x| then [x] + t
    else [t[0]] + Insert(t[1..], x)
  }

  /** The order in which `delete_folder` issues its deletions. */
  function SortByLengthDesc(s: seq<string>): (r: seq<string>)
    ensures |r| == |s|
  {
    if s == [] then [] else Insert(SortByLengthDesc(s[..|s| - 1]), s[|s| - 1])
  }

  /** Inserting into a sorted list keeps it sorted. */
  lemma {:induction false} InsertSorted(t: seq<string>, x: string)
    requires NonIncreasing(t)
    ensures NonIncreasing(Insert(t, x))
    ensures |Insert(t, x)[0]| == if t != [] && |t[0]| >= |x| then |t[0]| else |x|
    decreases |t|
  {
    if t == [] {
    } else if |t[0]| < |x| {
      ConsSorted(x, t);
    } else {
      TailSorted(t);
      InsertSorted(t[1..], x);
      ConsSorted(t[0], Insert(t[1..], x));
    }
  }

  /** Inserting adds exactly `x`. */
  lemma {:induction false} InsertPermutes(t: seq<string>, x: string)
    ensures multiset(Insert(t, x)) == multiset(t) + multiset{x}
    decreases |t|
  {
    if t != [] {
      assert t == [t[0]] + t[1..];
      if |t[0]| >= |x| {
        InsertPermutes(t[1..], x);
      }
    }
  }

  lemma TailSorted(t: seq<string>)
    requires t != [] && NonIncreasing(t)
    ensures NonIncreasing(t[1..])
  {
    forall i, j | 0 <= i < j < |t[1..]|
      ensures |t[1..][i]| >= |t[1..][j]|
    {
      assert t[1..][i] == t[i + 1] && t[1..][j] == t[j + 1];
    }
  }

  lemma ConsSorted(a: string, r: seq<string>)
    requires NonIncreasing(r) && (r == [] || |a| >= |r[0]|)
    ensures NonIncreasing([a] + r)
  {
    forall i, j | 0 <= i < j < |[a] + r|
      ensures |([a] + r)[i]| >= |([a] + r)[j]|
    {
      if i == 0 {
        assert ([a] + r)[j] == r[j - 1];
        assert |r[0]| >= |r[j - 1]|;
      } else {
        assert ([a] + r)[i] == r[i - 1] && ([a] + r)[j] == r[j - 1];
      }
    }
  }

  /** The result is ordered by non-increasing length and is a permutation of
      the input. */
  lemma SortSorted(s: seq<string>)
    ensures NonIncreasing(SortByLengthDesc(s))
    ensures multiset(SortByLengthDesc(s)) == multiset(s)
  {
    SortOrders(s);
    SortPermutes(s);
  }

  lemma {:induction false} SortOrders(s: seq<string>)
    ensures NonIncreasing(SortByLengthDesc(s))
    decreases |s|
  {
    if s != [] {
      SortOrders(s[..|s| - 1]);
      InsertSorted(SortByLengthDesc(s[..|s| - 1]), s[|s| - 1]);
    }
  }

  lemma {:induction false} SortPermutes(s: seq<string>)
    ensures multiset(SortByLengthDesc(s)) == multiset(s)
    decreases |s|
  {
    if s != [] {
      var init, last := s[..|s| - 1], s[|s| - 1];
      SortPermutes(init);
      InsertPermutes(SortByLengthDesc(init), last);
      assert s == init + [last];
      assert multiset(s) == multiset(init) + multiset{last};
    }
  }

  lemma {:induction false} OfLengthAppend(t: seq<string>, a: string, n: nat)
    ensures OfLength(t + [a], n) == OfLength(t, n) + (if |a| == n then [a] else [])
    decreases |t|
  {
    if t == [] {
      assert [a][1..] == [];
    } else {
      assert (t + [a])[1..] == t[1..] + [a];
      OfLengthAppend(t[1..], a, n);
    }
  }

  /** In a sorted list, no name after a shorter one has length `n`. */
  lemma {:induction false} OfLengthOfShorter(t: seq<string>, n: nat)
    requires NonIncreasing(t)
    requires t != [] && |t[0]| < n
    ensures OfLength(t, n) == []
    decreases |t|
  {
    if |t| > 1 {
      OfLengthOfShorter(t[1..], n);
    }
  }

  lemma {:induction false} InsertStable(t: seq<string>, x: string, n: nat)
    requires NonIncreasing(t)
    ensures OfLength(Insert(t, x), n) == OfLength(t, n) + (if |x| == n then [x] else [])
    decreases |t|
  {
    if t == [] {
      assert [x][..0] == [];
    } else if |t[0]| < |x| {
      InsertInFront(t, x, n);
    } else {
      InsertStable(t[1..], x, n);
      InsertBehind(t, x, n);
    }
  }

  lemma InsertInFront(t: seq<string>, x: string, n: nat)
    requires NonIncreasing(t) && t != [] && |t[0]| < |x|
    ensures OfLength([x] + t, n) == OfLength(t, n) + (if |x| == n then [x] else [])
  {
    if |x| == n {
      OfLengthOfShorter(t, n);
    }
    assert ([x] + t)[1..] == t;
  }

  lemma InsertBehind(t: seq<string>, x: string, n: nat)
    requires NonIncreasing(t) && t != [] && |t[0]| >= |x|
    requires OfLength(Insert(t[1..], x), n) == OfLength(t[1..], n) + (if |x| == n then [x] else [])
    ensures OfLength(Insert(t, x), n) == OfLength(t, n) + (if |x| == n then [x] else [])
  {
    InsertBehindUnfold(t, x);
    OfLengthCons(t[0], Insert(t[1..], x), n);
    OfLengthCons(t[0], t[1..], n);
    assert [t[0]] + t[1..] == t;
  }

  lemma InsertBehindUnfold(t: seq<string>, x: string)
    requires t != [] && |t[0]| >= |x|
    ensures Insert(t, x) == [t[0]] + Insert(t[1..], x)
  {
  }

  lemma OfLengthCons(a: string, t: seq<string>, n: nat)
    ensures OfLength([a] + t, n) == (if |a| == n then [a] else []) + OfLength(t, n)
  {
    assert ([a] + t)[1..] == t;
  }

  /** Stability: names of equal length keep their relative order. */
  lemma {:induction false} SortIsStable(s: seq<string>, n: nat)
    ensures OfLength(SortByLengthDesc(s), n) == OfLength(s, n)
    decreases |s|
  {
    if s != [] {
      var init, last := s[..|s| - 1], s[|s| - 1];
      SortIsStable(init, n);
      SortSorted(init);
      SortUnfold(s);
      InsertStable(SortByLengthDesc(init), last, n);
      OfLengthAppend(init, last, n);
      assert init + [last] == s;
    }
  }

  lemma SortUnfold(s: seq<string>)
    requires s != []
    ensures SortByLengthDesc(s) == Insert(SortByLengthDesc(s[..|s| - 1]), s[|s| - 1])
  {
  }

  /** A name that is a proper prefix of another is issued after it. */
  lemma ExtensionsFirst(s: seq<string>, i: nat, j: nat)
    requires i < |SortByLengthDesc(s)| && j < |SortByLengthDesc(s)|
    requires var r := SortByLengthDesc(s); |r[i]| < |r[j]| && r[j][..|r[i]|] == r[i]
    ensures j < i
  {
    SortSorted(s);
  }
}
