/** Generic facts about Python lists used as sequences: the first index
    satisfying a test, counting, list comprehensions with a condition,
    the indices such a comprehension keeps (itertools.compress over a mask),
    and first-occurrence deduplication (the key order of an OrderedDict that
    is filled left to right). */
module Sequences {

  /** Pairwise distinct elements. */
  ghost predicate Distinct<T>(s: seq<T>) {
    forall i, j :: 0 <= i < j < |s| ==> s[i] != s[j]
  }

  /** The index of the first element satisfying `p`, or |s| when none does. */
  function FirstMatch<T>(s: seq<T>, p: T -> bool): (k: nat)
    ensures k <= |s|
    ensures forall j :: 0 <= j < k ==> !p(s[j])
    ensures k < |s| ==> p(s[k])
  {
    if s == [] then 0
    else if p(s[0]) then 0
    else 1 + FirstMatch(s[1..], p)
  }

  /** The test "equals `x`". */
  function EqualTo<T(==)>(x: T): T -> bool {
    y => y == x
  }

  /** The index of the first occurrence of `x` (Python's list.index). */
  function FirstIndex<T(==)>(s: seq<T>, x: T): (k: nat)
    requires x in s
    ensures k < |s| && s[k] == x
    ensures forall j :: 0 <= j < k ==> s[j] != x
  {
    FirstMatch(s, EqualTo(x))
  }

  /** Appending one element keeps earlier first occurrences, and a new
      element first occurs at the end. */
  lemma FirstIndexSnoc<T>(s: seq<T>, x: T, y: T)
    requires y in s + [x]
    ensures y in s ==> FirstIndex(s + [x], y) == FirstIndex(s, y)
    ensures y !in s ==> FirstIndex(s + [x], y) == |s|
  {
    if y in s {
      FirstMatchAppend(s, [x], EqualTo(y));
    }
  }

  /** A first match inside a prefix is not moved by what follows the prefix. */
  lemma {:induction false} FirstMatchAppend<T>(a: seq<T>, b: seq<T>, p: T -> bool)
    requires FirstMatch(a, p) < |a|
    ensures FirstMatch(a + b, p) == FirstMatch(a, p)
  {
    if p(a[0]) {
    } else {
      assert (a + b)[1..] == a[1..] + b;
      FirstMatchAppend(a[1..], b, p);
    }
  }

  /** How many elements satisfy `p`. */
  function Count<T>(s: seq<T>, p: T -> bool): (n: nat)
    ensures n <= |s|
    ensures n == 0 <==> forall j :: 0 <= j < |s| ==> !p(s[j])
  {
    if s == [] then 0
    else (if p(s[0]) then 1 else 0) + Count(s[1..], p)
  }

  lemma {:induction false} CountAppend<T>(a: seq<T>, b: seq<T>, p: T -> bool)
    ensures Count(a + b, p) == Count(a, p) + Count(b, p)
  {
    if a == [] {
      assert a + b == b;
    } else {
      assert (a + b)[1..] == a[1..] + b;
      CountAppend(a[1..], b, p);
    }
  }

  /** Reordering a list does not change how many of its elements pass a test. */
  lemma {:induction false} CountPermutation<T>(a: seq<T>, b: seq<T>, p: T -> bool)
    requires multiset(a) == multiset(b)
    ensures Count(a, p) == Count(b, p)
  {
    if a == [] {
      assert |b| == |multiset(b)| == 0;
    } else {
      var x := a[0];
      assert x in multiset(b);
      var j :| 0 <= j < |b| && b[j] == x;
      var b' := b[..j] + b[j + 1..];
      assert b == b[..j] + [x] + b[j + 1..];
      assert a == [x] + a[1..];
      assert multiset(a) == multiset{x} + multiset(a[1..]);
      assert multiset(b) == multiset(b[..j]) + multiset{x} + multiset(b[j + 1..]);
      assert multiset(b') == multiset(b[..j]) + multiset(b[j + 1..]);
      assert multiset(a[1..]) == multiset(a) - multiset{x};
      assert multiset(b') == multiset(b) - multiset{x};
      CountPermutation(a[1..], b', p);
      CountAppend(b[..j] + [x], b[j + 1..], p);
      CountAppend(b[..j], [x], p);
      CountAppend(b[..j], b[j + 1..], p);
    }
  }

  /** When exactly one element passes, every other index fails. */
  lemma {:induction false} CountOneUnique<T>(s: seq<T>, p: T -> bool, k: nat)
    requires Count(s, p) == 1 && k < |s| && p(s[k])
    ensures forall j :: 0 <= j < |s| && j != k ==> !p(s[j])
  {
    if k == 0 {
      assert Count(s[1..], p) == 0;
      forall j | 0 < j < |s| ensures !p(s[j]) {
        assert s[j] == s[1..][j - 1];
      }
    } else {
      assert s[1..][k - 1] == s[k];
      CountOneUnique(s[1..], p, k - 1);
      forall j | 0 < j < |s| && j != k ensures !p(s[j]) {
        assert s[j] == s[1..][j - 1];
      }
    }
  }

  /** The list comprehension `[x for x in s if p(x)]`. */
  function Filter<T>(s: seq<T>, p: T -> bool): (r: seq<T>)
    ensures |r| <= |s|
    ensures forall x :: x in r ==> x in s && p(x)
  {
    if s == [] then []
    else Filter(s[..|s| - 1], p) + (if p(s[|s| - 1]) then [s[|s| - 1]] else [])
  }

  /** The indices `j` of `s` with `p(s[j])`, in increasing order
      (`list(compress(range(len(s)), [p(x) for x in s]))`). */
  function Positions<T>(s: seq<T>, p: T -> bool): (r: seq<nat>)
    ensures forall k :: 0 <= k < |r| ==> r[k] < |s| && p(s[r[k]])
    ensures forall k, l :: 0 <= k < l < |r| ==> r[k] < r[l]
    ensures forall j :: 0 <= j < |s| && p(s[j]) ==> j in r
  {
    if s == [] then []
    else
      var r := Positions(s[..|s| - 1], p);
      assert forall k :: 0 <= k < |r| ==> s[r[k]] == s[..|s| - 1][r[k]];
      r + (if p(s[|s| - 1]) then [|s| - 1] else [])
  }

  /** `[s[i] for i in idx]`. */
  function Gather<T>(s: seq<T>, idx: seq<nat>): (r: seq<T>)
    requires forall k :: 0 <= k < |idx| ==> idx[k] < |s|
    ensures |r| == |idx|
    ensures forall k :: 0 <= k < |idx| ==> r[k] == s[idx[k]]
  {
    seq(|idx|, k requires 0 <= k < |idx| => s[idx[k]])
  }

  /** A filtering comprehension keeps exactly the passing elements, in their
      original order: it is the gather of the passing positions. */
  lemma {:induction false} FilterIsGatherOfPositions<T>(s: seq<T>, p: T -> bool)
    ensures Filter(s, p) == Gather(s, Positions(s, p))
  {
    if s != [] {
      var s' := s[..|s| - 1];
      FilterIsGatherOfPositions(s', p);
      var idx' := Positions(s', p);
      var last := if p(s[|s| - 1]) then [|s| - 1] else [];
      assert Positions(s, p) == idx' + last;
      var g := Gather(s, idx' + last);
      assert g[..|idx'|] == Gather(s', idx');
      assert g[|idx'|..] == if p(s[|s| - 1]) then [s[|s| - 1]] else [];
      assert g == g[..|idx'|] + g[|idx'|..];
    }
  }

  /** Keep the first occurrence of every element, in order. */
  function Dedup<T(==,!new)>(s: seq<T>): (r: seq<T>)
    ensures forall x :: x in r <==> x in s
  {
    if s == [] then []
    else
      var d := Dedup(s[..|s| - 1]);
      assert s == s[..|s| - 1] + [s[|s| - 1]];
      if s[|s| - 1] in d then d else d + [s[|s| - 1]]
  }

  lemma DedupSnoc<T(!new)>(s: seq<T>, x: T)
    ensures Dedup(s + [x]) == if x in Dedup(s) then Dedup(s) else Dedup(s) + [x]
  {
    assert (s + [x])[..|s|] == s;
  }

  lemma {:induction false} DedupDistinct<T(!new)>(s: seq<T>)
    ensures Distinct(Dedup(s))
  {
    if s != [] {
      DedupDistinct(s[..|s| - 1]);
    }
  }

  /** The deduplicated list lists elements in order of their first occurrence. */
  lemma {:induction false} DedupFirstOccurrenceOrder<T(!new)>(s: seq<T>)
    ensures forall i, j :: 0 <= i < j < |Dedup(s)| ==>
      FirstIndex(s, Dedup(s)[i]) < FirstIndex(s, Dedup(s)[j])
  {
    if s != [] {
      var s' := s[..|s| - 1];
      var x := s[|s| - 1];
      var d := Dedup(s');
      DedupFirstOccurrenceOrder(s');
      assert s == s' + [x];
      forall y | y in s' ensures FirstIndex(s, y) == FirstIndex(s', y) {
        FirstIndexSnoc(s', x, y);
      }
      if x !in d {
        assert x !in s';
        assert FirstIndex(s, x) == |s'|;
        forall i, j | 0 <= i < j < |Dedup(s)|
          ensures FirstIndex(s, Dedup(s)[i]) < FirstIndex(s, Dedup(s)[j])
        {
          assert Dedup(s)[i] == d[i] && d[i] in s';
          if j < |d| {
            assert Dedup(s)[j] == d[j] && d[j] in s';
          }
        }
      }
    }
  }
}
