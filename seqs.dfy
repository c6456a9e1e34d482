/** Sequence helpers shared by the crawler's page walks and dictionaries. */
module Seqs {

  /** The elements of every inner sequence, in order (Python's repeated `+=` on a list). */
  function Flatten<T>(ss: seq<seq<T>>): seq<T>
  {
    if ss == [] then [] else Flatten(ss[..|ss| - 1]) + ss[|ss| - 1]
  }

  lemma {:induction false} FlattenAppend<T>(a: seq<seq<T>>, b: seq<seq<T>>)
    ensures Flatten(a + b) == Flatten(a) + Flatten(b)
    decreases |b|
  {
    if b == [] {
      assert a + b == a;
    } else {
      var b', last := b[..|b| - 1], b[|b| - 1];
      assert (a + b)[..|a + b| - 1] == a + b';
      assert Flatten(a + b) == Flatten(a + b') + last;
      assert Flatten(b) == Flatten(b') + last;
      FlattenAppend(a, b');
      assert Flatten(a) + Flatten(b') + last == Flatten(a) + (Flatten(b') + last);
    }
  }

  lemma FlattenStep<T>(ss: seq<seq<T>>, n: nat)
    requires 0 < n <= |ss|
    ensures Flatten(ss[..n]) == Flatten(ss[..n - 1]) + ss[n - 1]
  {
    assert ss[..n][..n - 1] == ss[..n - 1];
  }

  /** An element is in the flattening exactly when it is in one of the inner sequences. */
  lemma {:induction false} FlattenMembers<T>(ss: seq<seq<T>>)
    ensures forall x :: x in Flatten(ss) ==> exists i :: 0 <= i < |ss| && x in ss[i]
    ensures forall i, x :: 0 <= i < |ss| && x in ss[i] ==> x in Flatten(ss)
  {
    if ss != [] {
      var init := ss[..|ss| - 1];
      FlattenMembers(init);
      assert Flatten(ss) == Flatten(init) + ss[|ss| - 1];
      forall x | x in Flatten(ss)
        ensures exists i :: 0 <= i < |ss| && x in ss[i]
      {
        if x !in ss[|ss| - 1] {
          assert x in Flatten(init);
          var i :| 0 <= i < |init| && x in init[i];
          assert ss[i] == init[i];
        }
      }
      forall x, i | 0 <= i < |ss| && x in ss[i]
        ensures x in Flatten(ss)
      {
        if i < |ss| - 1 {
          assert init[i] == ss[i];
        }
      }
    }
  }

  /** Appending two elements one at a time appends them as a pair. */
  lemma AppendTwo<T>(s: seq<T>, a: T, b: T)
    ensures s + [a] + [b] == s + [a, b]
  {
  }

  lemma InAppend<T>(a: seq<T>, b: seq<T>, x: T)
    ensures x in a + b <==> x in a || x in b
  {
  }

  lemma IndexAppend<T>(a: seq<T>, b: seq<T>, k: nat)
    requires k < |a| + |b|
    ensures (a + b)[k] == if k < |a| then a[k] else b[k - |a|]
  {
  }

  lemma AppendAssoc<T>(a: seq<T>, b: seq<T>, c: seq<T>)
    ensures a + (b + c) == a + b + c
  {
  }

  lemma AppendEmpty<T>(s: seq<T>)
    ensures s + [] == s
  {
  }

  lemma DropLast<T>(s: seq<T>, x: T)
    ensures (s + [x])[..|s|] == s
  {
  }

  ghost predicate Distinct<T>(s: seq<T>)
  {
    forall i, j :: 0 <= i < j < |s| ==> s[i] != s[j]
  }

  /** The index of the first occurrence of `x` in `s`. */
  function FirstIndex<T(==)>(s: seq<T>, x: T): (k: nat)
    requires x in s
    ensures k < |s| && s[k] == x
    ensures forall j :: 0 <= j < k ==> s[j] != x
  {
    if s[0] == x then 0 else 1 + FirstIndex(s[1..], x)
  }

  /** Dropping the last element keeps the first occurrence of anything still present. */
  lemma FirstIndexOfInit<T>(s: seq<T>, x: T)
    requires s != [] && x in s[..|s| - 1]
    ensures FirstIndex(s, x) == FirstIndex(s[..|s| - 1], x)
  {
    var init := s[..|s| - 1];
    var k, k' := FirstIndex(s, x), FirstIndex(init, x);
    assert s[k'] == x;
    assert k <= k';
    assert init[k] == x;
  }

  /** The elements of `s` in order of first occurrence, each once (see `DedupOrder`). */
  function Dedup<T(==, !new)>(s: seq<T>): (r: seq<T>)
    ensures Distinct(r)
    ensures forall x :: x in r <==> x in s
    ensures |r| <= |s|
  {
    if s == [] then []
    else
      var init, last := s[..|s| - 1], s[|s| - 1];
      var r := Dedup(init);
      assert forall x :: x in s <==> x in init || x == last;
      if last in init then r else r + [last]
  }

  /** `Dedup` lists the elements in the order of their first occurrences in `s`. */
  lemma {:induction false} DedupOrder<T(!new)>(s: seq<T>)
    ensures forall i, j :: 0 <= i < j < |Dedup(s)| ==> FirstIndex(s, Dedup(s)[i]) < FirstIndex(s, Dedup(s)[j])
  {
    if s != [] {
      var init, last := s[..|s| - 1], s[|s| - 1];
      var r := Dedup(init);
      DedupOrder(init);
      assert forall x :: x in init ==> x in s;
      forall i | 0 <= i < |r|
        ensures FirstIndex(s, r[i]) == FirstIndex(init, r[i])
      {
        FirstIndexOfInit(s, r[i]);
      }
      if last !in init {
        assert FirstIndex(s, last) == |s| - 1;
        assert Dedup(s) == r + [last];
      }
    }
  }

  lemma {:induction false} DedupOfDistinct<T(!new)>(s: seq<T>)
    requires Distinct(s)
    ensures Dedup(s) == s
  {
    if s != [] {
      var init := s[..|s| - 1];
      DedupOfDistinct(init);
      assert s[|s| - 1] !in init;
      assert init + [s[|s| - 1]] == s;
    }
  }

  /** A sequence without repetitions has as many elements as the set of its elements. */
  lemma {:induction false} DistinctCardinality<T>(s: seq<T>)
    requires Distinct(s)
    ensures |set x | x in s| == |s|
  {
    if s != [] {
      var init, last := s[..|s| - 1], s[|s| - 1];
      DistinctCardinality(init);
      assert last !in init;
      assert (set x | x in s) == (set x | x in init) + {last};
    }
  }
}
