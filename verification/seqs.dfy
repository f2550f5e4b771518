/** Sequence helpers shared by the filter normalisation and its lemmas. */
module Seqs {

  /** No element occurs twice. */
  predicate NoDups<T(==)>(s: seq<T>) {
    forall i, j :: 0 <= i < j < |s| ==> s[i] != s[j]
  }

  /** Position of the first occurrence of `x` in `s`. */
  function FirstIndex<T(==)>(s: seq<T>, x: T): (k: nat)
    requires x in s
    ensures k < |s| && s[k] == x
    ensures forall j :: 0 <= j < k ==> s[j] != x
  {
    if s[0] == x then 0 else 1 + FirstIndex(s[1..], x)
  }

  /** The first occurrence of an element of a prefix is found inside that prefix. */
  lemma {:induction false} FirstIndexInPrefix<T>(s: seq<T>, n: nat, x: T)
    requires n <= |s| && x in s[..n]
    ensures x in s && FirstIndex(s, x) == FirstIndex(s[..n], x)
  {
    assert s[..n][0] == s[0];
    if s[0] != x {
      assert s[1..][..n - 1] == s[..n][1..];
      FirstIndexInPrefix(s[1..], n - 1, x);
    }
  }

  /** Lifts FirstIndexInPrefix to every element of `d` that occurs before the last position. */
  lemma FirstIndexesInPrefix<T>(s: seq<T>, d: seq<T>)
    requires |s| > 0
    requires forall i :: 0 <= i < |d| ==> d[i] in s[..|s| - 1]
    ensures forall i :: 0 <= i < |d| ==> d[i] in s && FirstIndex(s, d[i]) == FirstIndex(s[..|s| - 1], d[i])
  {
    forall i | 0 <= i < |d|
      ensures d[i] in s && FirstIndex(s, d[i]) == FirstIndex(s[..|s| - 1], d[i])
    {
      FirstIndexInPrefix(s, |s| - 1, d[i]);
    }
  }

  /** The four properties of Dedup(s), stated for a candidate `r`. */
  predicate IsDedupOf<T(==)>(s: seq<T>, r: seq<T>) {
    && NoDups(r)
    && (forall i :: 0 <= i < |r| ==> r[i] in s)
    && (forall i :: 0 <= i < |s| ==> s[i] in r)
    && (forall i, j :: 0 <= i < j < |r| ==> FirstIndex(s, r[i]) < FirstIndex(s, r[j]))
  }

  /** Appending one element keeps the four properties, whether or not the element is new. */
  lemma DedupStep<T>(init: seq<T>, last: T, d: seq<T>)
    requires IsDedupOf(init, d)
    ensures IsDedupOf(init + [last], if last in d then d else d + [last])
  {
    var s := init + [last];
    assert s[..|s| - 1] == init;
    FirstIndexesInPrefix(s, d);
    if last !in d {
      assert FirstIndex(s, last) == |s| - 1;
    }
  }

  /**
   * The distinct elements of `s`, each where it first occurs: the list that
   * Python's `list(dict.fromkeys(s))` builds. The four properties below
   * determine the result uniquely.
   */
  function Dedup<T(==)>(s: seq<T>): (r: seq<T>)
    ensures NoDups(r)
    ensures forall i :: 0 <= i < |r| ==> r[i] in s
    ensures forall i :: 0 <= i < |s| ==> s[i] in r
    ensures forall i, j :: 0 <= i < j < |r| ==> FirstIndex(s, r[i]) < FirstIndex(s, r[j])
  {
    if |s| == 0 then []
    else
      var init := s[..|s| - 1];
      var d := Dedup(init);
      var last := s[|s| - 1];
      assert s == init + [last];
      DedupStep(init, last, d);
      if last in d then d else d + [last]
  }
}
