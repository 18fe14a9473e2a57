/** Order-preserving deduplication: keep each element at its first occurrence.
    This is the rule both the line-level and the row-level dedup follow, with a
    `seen` set that grows as the input is scanned left to right. */
module Unique {

  /** No element occurs twice. */
  ghost predicate Distinct<T>(s: seq<T>) {
    forall i, j :: 0 <= i < j < |s| ==> s[i] != s[j]
  }

  /** The elements of `s`, as the `seen` set holds them after a full scan. */
  function Elements<T(==)>(s: seq<T>): set<T> {
    set x | x in s
  }

  /** The first occurrence of every element of `s`, in the order of `s`;
      defined the way the scan builds it: the last element is kept exactly
      when it does not occur before it. */
  function FirstOccurrences<T(==)>(s: seq<T>): seq<T> {
    if s == [] then []
    else
      var init := s[..|s| - 1];
      if s[|s| - 1] in init then FirstOccurrences(init)
      else FirstOccurrences(init) + [s[|s| - 1]]
  }

  /** The position of the first occurrence of `x` in `s`. */
  function FirstIndex<T(==)>(s: seq<T>, x: T): (i: nat)
    requires x in s
    ensures i < |s| && s[i] == x && x !in s[..i]
  {
    var init := s[..|s| - 1];
    if x in init then
      var i := FirstIndex(init, x);
      assert s[..i] == init[..i];
      i
    else
      |s| - 1
  }

  /** Scanning one more element: the kept sequence grows by that element
      exactly when it has not been seen. */
  lemma FirstOccurrencesStep<T>(s: seq<T>, i: nat)
    requires i < |s|
    ensures FirstOccurrences(s[..i + 1]) ==
      if s[i] in s[..i] then FirstOccurrences(s[..i]) else FirstOccurrences(s[..i]) + [s[i]]
  {
    assert s[..i + 1][..i] == s[..i];
  }

  /** One step of the scan: the next element is in `seen` exactly when it
      occurred before, and `seen` and the kept sequence grow accordingly. */
  lemma ScanStep<T>(s: seq<T>, i: nat, seen: set<T>)
    requires i < |s| && seen == Elements(s[..i])
    ensures s[i] in seen <==> s[i] in s[..i]
    ensures Elements(s[..i + 1]) == seen + {s[i]}
    ensures FirstOccurrences(s[..i + 1]) ==
      if s[i] in seen then FirstOccurrences(s[..i]) else FirstOccurrences(s[..i]) + [s[i]]
  {
    FirstOccurrencesStep(s, i);
    assert s[..i + 1] == s[..i] + [s[i]];
  }

  /** The kept elements are exactly the elements of the input. */
  lemma {:induction false} FirstOccurrencesMembers<T>(s: seq<T>)
    ensures forall x :: x in FirstOccurrences(s) <==> x in s
  {
    if s != [] {
      var init := s[..|s| - 1];
      FirstOccurrencesMembers(init);
      assert s == init + [s[|s| - 1]];
    }
  }

  /** No element is kept twice. */
  lemma {:induction false} FirstOccurrencesDistinct<T>(s: seq<T>)
    ensures Distinct(FirstOccurrences(s))
  {
    if s != [] {
      var init := s[..|s| - 1];
      FirstOccurrencesDistinct(init);
      FirstOccurrencesMembers(init);
    }
  }

  /** Kept elements appear in the order of their first occurrences in the input. */
  lemma FirstOccurrencesOrdered<T>(s: seq<T>)
    ensures forall x :: x in FirstOccurrences(s) ==> x in s
    ensures forall i, j :: 0 <= i < j < |FirstOccurrences(s)| ==>
      FirstIndex(s, FirstOccurrences(s)[i]) < FirstIndex(s, FirstOccurrences(s)[j])
  {
    FirstOccurrencesMembers(s);
    forall i, j | 0 <= i < j < |FirstOccurrences(s)|
      ensures FirstIndex(s, FirstOccurrences(s)[i]) < FirstIndex(s, FirstOccurrences(s)[j])
    {
      OrderedAt(s, i, j);
    }
  }

  /** The ordering for one pair of kept positions, by induction on the input. */
  lemma {:induction false} OrderedAt<T>(s: seq<T>, i: nat, j: nat)
    requires i < j < |FirstOccurrences(s)|
    ensures FirstOccurrences(s)[i] in s && FirstOccurrences(s)[j] in s
    ensures FirstIndex(s, FirstOccurrences(s)[i]) < FirstIndex(s, FirstOccurrences(s)[j])
  {
    var init := s[..|s| - 1];
    var last := s[|s| - 1];
    var p := FirstOccurrences(init);
    if j < |p| {
      assert FirstOccurrences(s)[i] == p[i] && FirstOccurrences(s)[j] == p[j];
      OrderedAt(init, i, j);
      FirstIndexInit(s, p[i]);
      FirstIndexInit(s, p[j]);
    } else {
      assert FirstOccurrences(s) == p + [last] && last !in init;
      assert FirstOccurrences(s)[i] == p[i] && p[i] in p;
      KeptIsMember(init, p[i]);
      FirstIndexInit(s, p[i]);
    }
  }

  /** A kept element is an element of the input. */
  lemma KeptIsMember<T>(s: seq<T>, x: T)
    requires x in FirstOccurrences(s)
    ensures x in s
  {
    FirstOccurrencesMembers(s);
  }

  /** An element that occurs before the last position is first found there. */
  lemma FirstIndexInit<T>(s: seq<T>, x: T)
    requires s != [] && x in s[..|s| - 1]
    ensures FirstIndex(s, x) == FirstIndex(s[..|s| - 1], x) < |s| - 1
  {
  }

  /** A sequence without repeats is its own first occurrences, and only such a
      sequence is. */
  lemma {:induction false} FirstOccurrencesFixpoint<T>(s: seq<T>)
    ensures FirstOccurrences(s) == s <==> Distinct(s)
  {
    FirstOccurrencesDistinct(s);
    if Distinct(s) && s != [] {
      var init := s[..|s| - 1];
      FirstOccurrencesFixpoint(init);
      assert Distinct(init);
      assert s[|s| - 1] !in init;
      assert s == init + [s[|s| - 1]];
    }
  }

  /** Deduplicating twice is deduplicating once. */
  lemma FirstOccurrencesIdempotent<T>(s: seq<T>)
    ensures FirstOccurrences(FirstOccurrences(s)) == FirstOccurrences(s)
  {
    FirstOccurrencesDistinct(s);
    FirstOccurrencesFixpoint(FirstOccurrences(s));
  }

  /** Dedup never lengthens its input, and leaves its length unchanged exactly
      when there was nothing to drop. */
  lemma {:induction false} FirstOccurrencesLength<T>(s: seq<T>)
    ensures |FirstOccurrences(s)| <= |s|
    ensures |FirstOccurrences(s)| == |s| <==> Distinct(s)
  {
    if s != [] {
      var init := s[..|s| - 1];
      FirstOccurrencesLength(init);
      if |FirstOccurrences(s)| == |s| {
        assert s[|s| - 1] !in init;
        assert Distinct(init);
      }
      if Distinct(s) {
        assert Distinct(init);
        assert s[|s| - 1] !in init;
      }
    }
  }

  /** A sequence without repeats has as many distinct elements as it is long. */
  lemma {:induction false} DistinctCardinality<T>(s: seq<T>)
    requires Distinct(s)
    ensures |Elements(s)| == |s|
  {
    if s != [] {
      var init := s[..|s| - 1];
      assert Distinct(init);
      DistinctCardinality(init);
      assert s == init + [s[|s| - 1]];
      assert Elements(s) == Elements(init) + {s[|s| - 1]};
    }
  }

  /** The number of kept elements is the number of distinct input elements. */
  lemma FirstOccurrencesCount<T>(s: seq<T>)
    ensures |FirstOccurrences(s)| == |Elements(s)|
  {
    FirstOccurrencesDistinct(s);
    FirstOccurrencesMembers(s);
    DistinctCardinality(FirstOccurrences(s));
    assert Elements(FirstOccurrences(s)) == Elements(s);
  }

  /** Scanning further never shrinks what has been kept. */
  lemma {:induction false} FirstOccurrencesPrefix<T>(s: seq<T>, k: nat)
    requires k <= |s|
    ensures |FirstOccurrences(s[..k])| <= |FirstOccurrences(s)|
    decreases |s| - k
  {
    if k < |s| {
      FirstOccurrencesStep(s, k);
      FirstOccurrencesPrefix(s, k + 1);
    } else {
      assert s[..k] == s;
    }
  }

  /** The first element is always kept, and kept first. */
  lemma FirstOccurrencesHead<T>(s: seq<T>)
    requires s != []
    ensures FirstOccurrences(s) != [] && FirstOccurrences(s)[0] == s[0]
  {
    var p := FirstOccurrences(s);
    FirstOccurrencesMembers(s);
    assert s[0] in p;
    var k :| 0 <= k < |p| && p[k] == s[0];
    assert FirstIndex(s, s[0]) == 0 by {
      assert s[..0] == [];
    }
    if k > 0 {
      OrderedAt(s, 0, k);
      assert false;
    }
  }
}
