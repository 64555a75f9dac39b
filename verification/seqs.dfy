/** Generic substring search and replacement over sequences, with the
    semantics of Python's `str.find`, `in` and `str.replace` for a
    non-empty search pattern. Used both on plain strings and on the
    token sequences of the protected-substitution engine. */
module Seqs {

  datatype Option<+T> = None | Some(value: T)

  /** `p` occurs in `s` starting at index `i`. */
  predicate MatchesAt<T(==)>(s: seq<T>, p: seq<T>, i: int)
  {
    0 <= i && i + |p| <= |s| && s[i..i + |p|] == p
  }

  /** Python's `p in s`. */
  predicate Occurs<T(==)>(s: seq<T>, p: seq<T>)
  {
    exists i | 0 <= i <= |s| :: MatchesAt(s, p, i)
  }

  /** Python's `s.find(p, start)`: the least index at or after `start` where
      `p` occurs, or None where Python answers -1. */
  function Find<T(==)>(s: seq<T>, p: seq<T>, start: nat): (r: Option<nat>)
    requires |p| > 0
    ensures r.Some? ==> start <= r.value && MatchesAt(s, p, r.value)
    ensures r.Some? ==> forall k :: start <= k < r.value ==> !MatchesAt(s, p, k)
    ensures r.None? ==> forall k :: start <= k ==> !MatchesAt(s, p, k)
    decreases |s| - start
  {
    if start + |p| > |s| then None
    else if MatchesAt(s, p, start) then Some(start)
    else Find(s, p, start + 1)
  }

  /** Python's `s.replace(pat, rep)`: scan left to right, replace every
      non-overlapping occurrence of `pat`; replaced text is never rescanned. */
  function ReplaceAll<T(==)>(s: seq<T>, pat: seq<T>, rep: seq<T>): seq<T>
    requires |pat| > 0
    decreases |s|
  {
    if |s| < |pat| then s
    else if s[..|pat|] == pat then rep + ReplaceAll(s[|pat|..], pat, rep)
    else [s[0]] + ReplaceAll(s[1..], pat, rep)
  }

  /** An occurrence in a suffix is an occurrence in the whole sequence. */
  lemma MatchesInSuffix<T>(s: seq<T>, p: seq<T>, d: nat, k: int)
    requires d <= |s|
    ensures MatchesAt(s[d..], p, k) <==> (0 <= k && MatchesAt(s, p, k + d))
  {
    if 0 <= k && k + |p| <= |s| - d {
      assert s[d..][k..k + |p|] == s[k + d..k + d + |p|];
    }
  }

  /** A search with no hit in the suffix `s[start..]` has none in `s`. */
  lemma FindShiftMiss<T>(s: seq<T>, p: seq<T>, start: nat, j: nat)
    requires |p| > 0 && start <= |s|
    requires Find(s[start..], p, j).None?
    ensures Find(s, p, start + j).None?
  {
    var r := Find(s, p, start + j);
    if r.Some? {
      MatchesInSuffix(s, p, start, r.value - start);
      assert false;
    }
  }

  /** A hit at `m` in the suffix `s[start..]` is a hit at `m + start` in `s`. */
  lemma FindShiftHit<T>(s: seq<T>, p: seq<T>, start: nat, j: nat, m: nat)
    requires |p| > 0 && start <= |s|
    requires Find(s[start..], p, j) == Some(m)
    ensures Find(s, p, start + j) == Some(m + start)
  {
    MatchesInSuffix(s, p, start, m);
    var r := Find(s, p, start + j);
    if r.None? {
      assert false;
    } else if r.value < m + start {
      MatchesInSuffix(s, p, start, r.value - start);
      assert false;
    } else if r.value > m + start {
      assert false;
    }
  }

  /** Searching `s` from `start + j` is searching the suffix `s[start..]`
      from `j`, shifted by `start`. */
  lemma FindShift<T>(s: seq<T>, p: seq<T>, start: nat, j: nat)
    requires |p| > 0 && start <= |s|
    ensures Find(s, p, start + j) == (match Find(s[start..], p, j)
                                       case None => None
                                       case Some(i) => Some(i + start))
  {
    match Find(s[start..], p, j)
    case None => FindShiftMiss(s, p, start, j);
    case Some(m) => FindShiftHit(s, p, start, j, m);
  }

  /** A search resumed at `start` that hits also hits in `s[start..]`. */
  lemma FindShiftFound<T>(s: seq<T>, p: seq<T>, start: nat, i: nat)
    requires |p| > 0 && start <= |s|
    requires Find(s, p, start) == Some(i)
    ensures Find(s[start..], p, 0).Some?
  {
    FindShift(s, p, start, 0);
  }

  /** The two hits are the same position, shifted by `start`. */
  lemma FindShiftSame<T>(s: seq<T>, p: seq<T>, start: nat, i: nat, m: nat)
    requires |p| > 0 && start <= |s|
    requires Find(s, p, start) == Some(i)
    requires Find(s[start..], p, 0) == Some(m)
    ensures m + start == i
  {
    FindShift(s, p, start, 0);
  }

  /** A hit found by resuming at `start` is the first hit in `s[start..]`. */
  lemma FindShiftHere<T>(s: seq<T>, p: seq<T>, start: nat, i: nat)
    requires |p| > 0 && start <= |s|
    requires Find(s, p, start) == Some(i)
    ensures start <= i && Find(s[start..], p, 0) == Some(i - start)
  {
    FindShiftFound(s, p, start, i);
    var m := Find(s[start..], p, 0).value;
    FindShiftSame(s, p, start, i, m);
  }

  /** Where `pat` does not occur, replacement is the identity. */
  lemma {:induction false} ReplaceAllNoMatch<T>(s: seq<T>, pat: seq<T>, rep: seq<T>)
    requires |pat| > 0
    requires !Occurs(s, pat)
    ensures ReplaceAll(s, pat, rep) == s
    decreases |s|
  {
    if |s| >= |pat| {
      assert !MatchesAt(s, pat, 0);
      forall k ensures !MatchesAt(s[1..], pat, k) {
        MatchesInSuffix(s, pat, 1, k);
      }
      ReplaceAllNoMatch(s[1..], pat, rep);
      assert [s[0]] + s[1..] == s;
    }
  }

  /** Where the text does not start with `pat`, replacement keeps its
      first element and carries on with the rest. */
  lemma ReplaceAllSkipsHead<T>(s: seq<T>, pat: seq<T>, rep: seq<T>)
    requires |pat| > 0 && |s| > 0 && !MatchesAt(s, pat, 0)
    ensures ReplaceAll(s, pat, rep) == [s[0]] + ReplaceAll(s[1..], pat, rep)
  {
    if |s| < |pat| {
      assert [s[0]] + s[1..] == s;
    }
  }

  /** Concatenation regrouped. */
  lemma AppendAssoc<T>(a: seq<T>, b: seq<T>, c: seq<T>)
    ensures a + (b + c) == a + b + c
  {
  }

  /** Where the text starts with `pat`, replacement emits `rep` and carries
      on after the occurrence. */
  lemma ReplaceAllAtHead<T>(s: seq<T>, pat: seq<T>, rep: seq<T>)
    requires |pat| > 0 && MatchesAt(s, pat, 0)
    ensures ReplaceAll(s, pat, rep) == rep + ReplaceAll(s[|pat|..], pat, rep)
  {
    assert s[..|pat|] == s[0..|pat|];
  }

  /** Where no occurrence starts before `j`, replacement keeps the first `j`
      elements and carries on from `j`. */
  lemma {:induction false} ReplaceAllSkipsTo<T>(s: seq<T>, pat: seq<T>, rep: seq<T>, j: nat)
    requires |pat| > 0 && j <= |s|
    requires forall k :: 0 <= k < j ==> !MatchesAt(s, pat, k)
    ensures ReplaceAll(s, pat, rep) == s[..j] + ReplaceAll(s[j..], pat, rep)
    decreases j
  {
    if j == 0 {
      assert s[0..] == s;
      assert s[..0] + ReplaceAll(s, pat, rep) == ReplaceAll(s, pat, rep);
    } else {
      ReplaceAllSkipsTo(s, pat, rep, j - 1);
      var u := s[j - 1..];
      MatchesInSuffix(s, pat, j - 1, 0);
      ReplaceAllSkipsHead(u, pat, rep);
      assert u[1..] == s[j..];
      var r := ReplaceAll(s[j..], pat, rep);
      AppendAssoc(s[..j - 1], [s[j - 1]], r);
      assert s[..j - 1] + [s[j - 1]] == s[..j];
    }
  }

  /** Replacement splits at the first occurrence: the prefix before it is
      kept, `rep` is emitted, and the scan resumes after the occurrence. */
  /** A pattern that occurs exactly once is replaced there only. */
  lemma ReplaceOnce<T>(s: seq<T>, pat: seq<T>, rep: seq<T>, i: nat)
    requires |pat| > 0 && MatchesAt(s, pat, i)
    requires forall k :: 0 <= k < i ==> !MatchesAt(s, pat, k)
    requires !Occurs(s[i + |pat|..], pat)
    ensures ReplaceAll(s, pat, rep) == s[..i] + rep + s[i + |pat|..]
  {
    ReplaceAllAtFirst(s, pat, rep, i);
    ReplaceAllNoMatch(s[i + |pat|..], pat, rep);
  }

  lemma ReplaceAllAtFirst<T>(s: seq<T>, pat: seq<T>, rep: seq<T>, i: nat)
    requires |pat| > 0 && MatchesAt(s, pat, i)
    requires forall k :: 0 <= k < i ==> !MatchesAt(s, pat, k)
    ensures ReplaceAll(s, pat, rep) == s[..i] + rep + ReplaceAll(s[i + |pat|..], pat, rep)
  {
    ReplaceAllSkipsTo(s, pat, rep, i);
    var u := s[i..];
    MatchesInSuffix(s, pat, i, 0);
    ReplaceAllAtHead(u, pat, rep);
    assert u[|pat|..] == s[i + |pat|..];
    AppendAssoc(s[..i], rep, ReplaceAll(s[i + |pat|..], pat, rep));
  }

  /** Replacement only emits elements of the text or of the replacement. */
  lemma {:induction false} ReplaceAllElements<T>(s: seq<T>, pat: seq<T>, rep: seq<T>)
    requires |pat| > 0
    ensures forall x :: x in ReplaceAll(s, pat, rep) ==> x in s || x in rep
    decreases |s|
  {
    if |s| >= |pat| {
      if s[..|pat|] == pat {
        ReplaceAllElements(s[|pat|..], pat, rep);
      } else {
        ReplaceAllElements(s[1..], pat, rep);
      }
    }
  }
}
