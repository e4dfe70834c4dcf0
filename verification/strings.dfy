/** Plain string helpers: an Option type, substring search (Python's `p in s` and
    `s.split(p)[0]`), and duplicate-free sequences. */
module Strings {

  datatype Option<T> = None | Some(value: T)

  /** `p` occurs in `s` at index `i`. */
  predicate OccursAt(s: string, p: string, i: nat) {
    i + |p| <= |s| && s[i..i + |p|] == p
  }

  /** The first index at or after `i` where `p` occurs in `s`, if any. */
  function FindFrom(s: string, p: string, i: nat): (r: Option<nat>)
    requires i <= |s|
    ensures r.Some? ==> i <= r.value && OccursAt(s, p, r.value)
    ensures r.Some? ==> forall j: nat :: i <= j < r.value ==> !OccursAt(s, p, j)
    ensures r.None? ==> forall j: nat :: i <= j ==> !OccursAt(s, p, j)
    decreases |s| - i
  {
    if OccursAt(s, p, i) then Some(i)
    else if i + |p| >= |s| then None
    else FindFrom(s, p, i + 1)
  }

  /** The first index where `p` occurs in `s`, if any. */
  function Find(s: string, p: string): (r: Option<nat>)
    ensures r.Some? ==> OccursAt(s, p, r.value) && forall j: nat :: j < r.value ==> !OccursAt(s, p, j)
    ensures r.None? ==> forall j: nat :: !OccursAt(s, p, j)
  {
    FindFrom(s, p, 0)
  }

  /** Python's substring test `p in s`. */
  predicate Contains(s: string, p: string)
    ensures Contains(s, p) <==> exists j: nat :: OccursAt(s, p, j)
  {
    Find(s, p).Some?
  }

  /** A string always contains what it ends with. */
  lemma ContainsSuffix(s: string, p: string)
    ensures Contains(s + p, p)
  {
    assert (s + p)[|s|..|s| + |p|] == p;
    assert OccursAt(s + p, p, |s|);
  }

  /** An occurrence inside a prefix is an occurrence in the whole string. */
  lemma OccursInPrefix(s: string, p: string, k: nat, j: nat)
    requires k <= |s| && OccursAt(s[..k], p, j)
    ensures OccursAt(s, p, j)
  {
  }

  predicate Distinct<T(==)>(s: seq<T>) {
    forall i, j :: 0 <= i < j < |s| ==> s[i] != s[j]
  }

  /** In a duplicate-free sequence every element is counted once. */
  lemma {:induction false} DistinctCount<T>(s: seq<T>, x: T)
    requires Distinct(s)
    ensures multiset(s)[x] == if x in s then 1 else 0
  {
    if s != [] {
      var init := s[..|s| - 1];
      assert s == init + [s[|s| - 1]];
      assert Distinct(init);
      DistinctCount(init, x);
      assert s[|s| - 1] !in init;
    }
  }

  /** Two duplicate-free sequences with the same elements are permutations of each other. */
  lemma SameElementsSameMultiset<T>(a: seq<T>, b: seq<T>)
    requires Distinct(a) && Distinct(b)
    requires forall x :: x in a <==> x in b
    ensures multiset(a) == multiset(b)
  {
    forall x ensures multiset(a)[x] == multiset(b)[x] {
      DistinctCount(a, x);
      DistinctCount(b, x);
    }
  }
}
