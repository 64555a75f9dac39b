/** `sorted(list(set(xs)), key=k, reverse=True)`: remove duplicates, then
    sort stably by a length key, longest first. */
module Lists {

  predicate NoDuplicates<T(==)>(s: seq<T>)
  {
    forall i, j :: 0 <= i < j < |s| ==> s[i] != s[j]
  }

  predicate SortedDesc<T>(s: seq<T>, key: T -> nat)
  {
    forall i, j :: 0 <= i < j < |s| ==> key(s[i]) >= key(s[j])
  }

  /** `list(set(s))`. Python's set iteration order is unspecified; this one
      keeps each element at its first occurrence. */
  function Dedupe<T(==,!new)>(s: seq<T>): (r: seq<T>)
    ensures NoDuplicates(r)
    ensures forall x :: x in r <==> x in s
    ensures |r| <= |s|
  {
    if s == [] then []
    else
      var p := Dedupe(s[..|s| - 1]);
      var x := s[|s| - 1];
      assert s == s[..|s| - 1] + [x];
      if x in p then p else p + [x]
  }

  /** A list without duplicates is its own deduplication. */
  lemma {:induction false} DedupeDistinct<T(!new)>(s: seq<T>)
    requires NoDuplicates(s)
    ensures Dedupe(s) == s
  {
    if s != [] {
      var init := s[..|s| - 1];
      assert NoDuplicates(init);
      DedupeDistinct(init);
      assert s[|s| - 1] !in init;
      assert init + [s[|s| - 1]] == s;
    }
  }

  /** Inserts `x` before the first element whose key is not greater, so
      that `x` stays ahead of later elements with an equal key (stability). */
  function Insert<T>(x: T, s: seq<T>, key: T -> nat): (r: seq<T>)
    requires SortedDesc(s, key)
    ensures SortedDesc(r, key)
    ensures multiset(r) == multiset(s) + multiset{x}
    ensures |r| == |s| + 1 && (r[0] == x || (s != [] && r[0] == s[0]))
  {
    if s == [] || key(s[0]) <= key(x) then [x] + s
    else
      var t := Insert(x, s[1..], key);
      assert s == [s[0]] + s[1..];
      assert key(s[0]) >= key(t[0]);
      [s[0]] + t
  }

  /** Stable insertion sort by `key`, largest key first. */
  function SortDesc<T>(s: seq<T>, key: T -> nat): (r: seq<T>)
    ensures SortedDesc(r, key)
    ensures multiset(r) == multiset(s)
  {
    if s == [] then []
    else
      assert s == [s[0]] + s[1..];
      Insert(s[0], SortDesc(s[1..], key), key)
  }

  /** A list already in order is left as it is (the sort is stable). */
  lemma {:induction false} SortDescOfSorted<T>(s: seq<T>, key: T -> nat)
    requires SortedDesc(s, key)
    ensures SortDesc(s, key) == s
  {
    if s != [] {
      assert SortedDesc(s[1..], key);
      SortDescOfSorted(s[1..], key);
      assert [s[0]] + s[1..] == s;
    }
  }

  /** An element of a duplicate-free list occurs in it once. */
  lemma {:induction false} DistinctCount<T>(s: seq<T>, x: T)
    requires NoDuplicates(s)
    ensures multiset(s)[x] <= 1
  {
    if s != [] {
      assert NoDuplicates(s[1..]);
      DistinctCount(s[1..], x);
      assert s == [s[0]] + s[1..];
      if s[0] == x {
        assert x !in s[1..];
      }
    }
  }

  /** A rearrangement of a duplicate-free list has the same elements and
      no duplicates either. */
  lemma PermutationKeepsDistinct<T>(d: seq<T>, r: seq<T>)
    requires multiset(r) == multiset(d) && NoDuplicates(d)
    ensures NoDuplicates(r)
    ensures forall x :: x in r <==> x in d
  {
    forall x ensures x in r <==> x in d {
      assert x in r <==> multiset(r)[x] > 0;
      assert x in d <==> multiset(d)[x] > 0;
    }
    forall i, j | 0 <= i < j < |r| ensures r[i] != r[j] {
      if r[i] == r[j] {
        assert multiset(r)[r[i]] >= 2 by {
          assert r == r[..i] + [r[i]] + r[i + 1..];
          assert r[j] in r[i + 1..];
        }
        DistinctCount(d, r[i]);
        assert false;
      }
    }
  }

  /** `sorted(list(set(s)), key=key, reverse=True)`: the distinct elements of
      `s`, largest key first. */
  function SortedDistinct<T(==,!new)>(s: seq<T>, key: T -> nat): (r: seq<T>)
    ensures SortedDesc(r, key) && NoDuplicates(r)
    ensures forall x :: x in r <==> x in s
  {
    var d := Dedupe(s);
    var r := SortDesc(d, key);
    PermutationKeepsDistinct(d, r);
    r
  }

  /** A list whose keys strictly decrease is its own `SortedDistinct`. */
  lemma SortedDistinctOfStrictlyDecreasing<T(!new)>(s: seq<T>, key: T -> nat)
    requires forall i, j :: 0 <= i < j < |s| ==> key(s[i]) > key(s[j])
    ensures SortedDistinct(s, key) == s
  {
    assert NoDuplicates(s);
    DedupeDistinct(s);
    SortDescOfSorted(s, key);
  }
}
