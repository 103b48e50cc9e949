/**
 * Sequence facts shared by the collector and the tree builder: the
 * insertion-ordered set that JavaScript's `Set` (and the key order of a
 * plain record) provides, modelled as `Dedup`.
 */
module Seqs {

  /** No element occurs twice. */
  predicate NoDup<T(==)>(s: seq<T>) {
    forall i, j :: 0 <= i < j < |s| ==> s[i] != s[j]
  }

  /** Adding `x` to an insertion-ordered set: appended unless already present. */
  function Add<T(==)>(members: seq<T>, x: T): seq<T> {
    if x in members then members else members + [x]
  }

  /** The insertion-ordered set obtained by adding the elements of `s` one by one. */
  function Dedup<T(==)>(s: seq<T>): seq<T> {
    if s == [] then [] else Add(Dedup(s[..|s| - 1]), s[|s| - 1])
  }

  /** Position of the first occurrence of `x` in `s`. */
  function FirstIndex<T(==)>(s: seq<T>, x: T): (k: nat)
    requires x in s
    ensures k < |s| && s[k] == x && x !in s[..k]
  {
    if s[0] == x then 0 else 1 + FirstIndex(s[1..], x)
  }

  /** An element already in the prefix is first found where the prefix first holds it. */
  lemma {:induction false} FirstIndexOfPrefix<T>(s: seq<T>, y: T)
    requires s != [] && y in s[..|s| - 1]
    ensures FirstIndex(s, y) == FirstIndex(s[..|s| - 1], y)
  {
    var init := s[..|s| - 1];
    if s[0] != y {
      assert init[0] == s[0];
      assert s[1..][..|s| - 2] == init[1..];
      FirstIndexOfPrefix(s[1..], y);
    }
  }

  /** Deduplicating one more element adds it exactly when it is new. */
  lemma DedupSnoc<T>(s: seq<T>, x: T)
    ensures Dedup(s + [x]) == Add(Dedup(s), x)
  {
    assert (s + [x])[..|s|] == s;
  }

  /** Exactly the elements of `s` are members of `Dedup(s)`. */
  lemma {:induction false} DedupMembers<T>(s: seq<T>)
    ensures forall x :: x in Dedup(s) <==> x in s
  {
    if s != [] {
      var init := s[..|s| - 1];
      DedupMembers(init);
      assert s == init + [s[|s| - 1]];
    }
  }

  /** `Dedup` never holds an element twice. */
  lemma {:induction false} DedupNoDup<T>(s: seq<T>)
    ensures NoDup(Dedup(s))
  {
    if s != [] {
      DedupNoDup(s[..|s| - 1]);
    }
  }

  /** Members of `Dedup(s)` appear in the order of their first occurrence in `s`. */
  lemma {:induction false} DedupFirstOccurrenceOrder<T>(s: seq<T>)
    ensures forall x :: x in Dedup(s) ==> x in s
    ensures forall i, j :: 0 <= i < j < |Dedup(s)| ==>
      FirstIndex(s, Dedup(s)[i]) < FirstIndex(s, Dedup(s)[j])
  {
    DedupMembers(s);
    if s != [] {
      DedupFirstOccurrenceOrder(s[..|s| - 1]);
      forall i, j | 0 <= i < j < |Dedup(s)|
        ensures FirstIndex(s, Dedup(s)[i]) < FirstIndex(s, Dedup(s)[j])
      {
        DedupOrderStep(s, s[..|s| - 1], i, j);
      }
    }
  }

  /** One step of the order: the last element is new and comes last, or changes nothing. */
  lemma DedupOrderStep<T>(s: seq<T>, init: seq<T>, i: nat, j: nat)
    requires s != [] && init == s[..|s| - 1]
    requires forall y :: y in Dedup(init) ==> y in init
    requires forall i, j :: 0 <= i < j < |Dedup(init)| ==>
      FirstIndex(init, Dedup(init)[i]) < FirstIndex(init, Dedup(init)[j])
    requires i < j < |Dedup(s)|
    ensures Dedup(s)[i] in s && Dedup(s)[j] in s
    ensures FirstIndex(s, Dedup(s)[i]) < FirstIndex(s, Dedup(s)[j])
  {
    var x := s[|s| - 1];
    var d := Dedup(init);
    assert Dedup(s) == Add(d, x);
    assert d[i] in init;
    FirstIndexOfPrefix(s, d[i]);
    if j < |d| {
      assert d[j] in init;
      FirstIndexOfPrefix(s, d[j]);
    } else {
      DedupMembers(init);
      assert Dedup(s)[j] == x && x !in init;
      forall m | 0 <= m < |s| - 1 ensures s[m] != x {
        assert s[m] == init[m] && init[m] in init;
      }
    }
  }

  /** `Dedup` only shortens, and keeps the length exactly when nothing repeats. */
  lemma {:induction false} DedupLength<T>(s: seq<T>)
    ensures |Dedup(s)| <= |s|
    ensures |Dedup(s)| == |s| <==> NoDup(s)
  {
    if s != [] {
      var init, x := s[..|s| - 1], s[|s| - 1];
      DedupLength(init);
      DedupMembers(init);
      if x in init {
        var k :| 0 <= k < |init| && init[k] == x;
        assert s[k] == s[|s| - 1];
        assert !NoDup(s);
      } else if NoDup(init) {
        assert NoDup(s);
      } else {
        var a, b :| 0 <= a < b < |init| && init[a] == init[b];
        assert s[a] == s[b];
      }
    }
  }

  /** A sequence without repeats has as many elements as the set of its members. */
  lemma {:induction false} NoDupCardinality<T>(s: seq<T>)
    requires NoDup(s)
    ensures |set x | x in s| == |s|
  {
    if s != [] {
      var init, x := s[..|s| - 1], s[|s| - 1];
      assert NoDup(init);
      NoDupCardinality(init);
      assert (set y | y in s) == (set y | y in init) + {x};
      assert x !in (set y | y in init);
    }
  }

  /** Two sequences without repeats and without common elements concatenate to one without repeats. */
  lemma NoDupAppend<T>(a: seq<T>, b: seq<T>)
    requires NoDup(a) && NoDup(b)
    requires forall x :: x in a ==> x !in b
    ensures NoDup(a + b)
  {
    forall i, j | 0 <= i < j < |a + b| ensures (a + b)[i] != (a + b)[j] {
      if i < |a| && j >= |a| {
        assert (a + b)[i] in a && (a + b)[j] == b[j - |a|];
      }
    }
  }

  /** Taking out the element at `k` takes one of it out of the multiset. */
  lemma RemoveAt<T>(s: seq<T>, k: nat)
    requires k < |s|
    ensures multiset(s[..k] + s[k + 1..]) == multiset(s) - multiset{s[k]}
  {
    assert s == s[..k] + [s[k]] + s[k + 1..];
  }
}
