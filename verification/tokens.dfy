/** The working text of the substitution engine. The patcher hides each
    protected creature-type name behind a placeholder while it substitutes;
    here a placeholder is one token `Ph(i)` standing for the `i`-th
    protected term, so no search pattern can match part of it. */
module Tokens {
  import opened Seqs

  datatype Piece = Ch(c: char) | Ph(index: nat)

  type Work = seq<Piece>

  /** Plain text as a work sequence of characters. */
  function Lift(s: string): (w: Work)
    ensures |w| == |s|
    ensures forall i :: 0 <= i < |s| ==> w[i] == Ch(s[i])
  {
    seq(|s|, i requires 0 <= i < |s| => Ch(s[i]))
  }

  /** Every placeholder in `w` names one of `n` protected terms. */
  predicate Refs(w: Work, n: nat)
  {
    forall p :: p in w && p.Ph? ==> p.index < n
  }

  /** Placeholder restoration: every placeholder becomes its term again. */
  function Flatten(w: Work, terms: seq<string>): string
    requires Refs(w, |terms|)
  {
    if w == [] then []
    else (match w[0] case Ch(c) => [c] case Ph(i) => terms[i]) + Flatten(w[1..], terms)
  }

  /** The placeholders of `w`, in order: the protected spans of the text. */
  function Placeholders(w: Work): seq<nat>
  {
    if w == [] then []
    else (if w[0].Ph? then [w[0].index] else []) + Placeholders(w[1..])
  }

  lemma LiftConcat(a: string, b: string)
    ensures Lift(a + b) == Lift(a) + Lift(b)
  {
  }

  lemma {:induction false} FlattenConcat(a: Work, b: Work, terms: seq<string>)
    requires Refs(a, |terms|) && Refs(b, |terms|)
    ensures Refs(a + b, |terms|)
    ensures Flatten(a + b, terms) == Flatten(a, terms) + Flatten(b, terms)
    decreases |a|
  {
    if a != [] {
      assert (a + b)[0] == a[0] && (a + b)[1..] == a[1..] + b;
      FlattenConcat(a[1..], b, terms);
      var head := match a[0] case Ch(c) => [c] case Ph(i) => terms[i];
      assert Flatten(a + b, terms) == head + Flatten(a[1..] + b, terms);
      assert Flatten(a, terms) == head + Flatten(a[1..], terms);
    } else {
      assert a + b == b;
    }
  }

  /** Restoring plain text changes nothing. */
  lemma {:induction false} FlattenLift(s: string, terms: seq<string>)
    ensures Refs(Lift(s), |terms|)
    ensures Flatten(Lift(s), terms) == s
    decreases |s|
  {
    if s != [] {
      assert Lift(s)[1..] == Lift(s[1..]);
      FlattenLift(s[1..], terms);
    }
  }

  lemma {:induction false} PlaceholdersConcat(a: Work, b: Work)
    ensures Placeholders(a + b) == Placeholders(a) + Placeholders(b)
    decreases |a|
  {
    if a != [] {
      assert (a + b)[0] == a[0] && (a + b)[1..] == a[1..] + b;
      PlaceholdersConcat(a[1..], b);
    } else {
      assert a + b == b;
    }
  }

  /** Plain text holds no protected span. */
  lemma {:induction false} PlaceholdersLift(s: string)
    ensures Placeholders(Lift(s)) == []
    decreases |s|
  {
    if s != [] {
      assert Lift(s)[1..] == Lift(s[1..]);
      PlaceholdersLift(s[1..]);
    }
  }

  /** Every index in `ids` is below `n`. */
  predicate Below(ids: seq<nat>, n: nat)
  {
    forall k :: 0 <= k < |ids| ==> ids[k] < n
  }

  lemma BelowConcat(a: seq<nat>, b: seq<nat>, n: nat)
    ensures Below(a + b, n) <==> Below(a, n) && Below(b, n)
  {
    if Below(a, n) && Below(b, n) {
      forall k | 0 <= k < |a + b| ensures (a + b)[k] < n {
        if k >= |a| {
          assert (a + b)[k] == b[k - |a|];
        }
      }
    }
    if Below(a + b, n) {
      forall k | 0 <= k < |a| ensures a[k] < n {
        assert (a + b)[k] == a[k];
      }
      forall k | 0 <= k < |b| ensures b[k] < n {
        assert (a + b)[|a| + k] == b[k];
      }
    }
  }

  /** A sequence refers only to the first `n` terms exactly when all its
      placeholders do. */
  lemma {:induction false} RefsOfPlaceholders(w: Work, n: nat)
    ensures Refs(w, n) <==> Below(Placeholders(w), n)
    decreases |w|
  {
    if w != [] {
      var tail := w[1..];
      RefsOfPlaceholders(tail, n);
      assert forall p :: p in w <==> p == w[0] || p in tail by {
        assert w == [w[0]] + tail;
      }
      var head: seq<nat> := if w[0].Ph? then [w[0].index] else [];
      assert Placeholders(w) == head + Placeholders(tail);
      BelowConcat(head, Placeholders(tail), n);
      assert Refs(w, n) <==> Below(head, n) && Refs(tail, n);
    }
  }

  /** Lifting is injective. */
  lemma LiftInjective(a: string, b: string)
    requires Lift(a) == Lift(b)
    ensures a == b
  {
    assert |a| == |b|;
    forall i | 0 <= i < |a| ensures a[i] == b[i] {
      assert Lift(a)[i] == Lift(b)[i];
    }
  }

  /** Replacing in lifted text is replacing in the text, then lifting. */
  lemma {:induction false} LiftReplaceAll(s: string, pat: string, rep: string)
    requires |pat| > 0
    ensures ReplaceAll(Lift(s), Lift(pat), Lift(rep)) == Lift(ReplaceAll(s, pat, rep))
    decreases |s|
  {
    if |s| >= |pat| {
      assert Lift(s)[..|pat|] == Lift(s[..|pat|]);
      if s[..|pat|] == pat {
        assert Lift(s)[|pat|..] == Lift(s[|pat|..]);
        LiftReplaceAll(s[|pat|..], pat, rep);
        LiftConcat(rep, ReplaceAll(s[|pat|..], pat, rep));
      } else {
        if Lift(s[..|pat|]) == Lift(pat) {
          LiftInjective(s[..|pat|], pat);
        }
        assert Lift(s)[1..] == Lift(s[1..]);
        LiftReplaceAll(s[1..], pat, rep);
        LiftConcat([s[0]], ReplaceAll(s[1..], pat, rep));
      }
    }
  }

  /** Replacing plain text by plain text keeps the protected spans, in order. */
  lemma {:induction false} ReplaceKeepsPlaceholders(w: Work, pat: string, rep: string)
    requires |pat| > 0
    ensures Placeholders(ReplaceAll(w, Lift(pat), Lift(rep))) == Placeholders(w)
    decreases |w|
  {
    if |w| >= |pat| {
      if w[..|pat|] == Lift(pat) {
        ReplaceKeepsPlaceholders(w[|pat|..], pat, rep);
        assert w == Lift(pat) + w[|pat|..];
        PlaceholdersConcat(Lift(pat), w[|pat|..]);
        PlaceholdersConcat(Lift(rep), ReplaceAll(w[|pat|..], Lift(pat), Lift(rep)));
        PlaceholdersLift(pat);
        PlaceholdersLift(rep);
      } else {
        ReplaceKeepsPlaceholders(w[1..], pat, rep);
        assert w == [w[0]] + w[1..];
        PlaceholdersConcat([w[0]], w[1..]);
        PlaceholdersConcat([w[0]], ReplaceAll(w[1..], Lift(pat), Lift(rep)));
      }
    }
  }

  /** Hiding every occurrence of the `k`-th term behind `Ph(k)` changes
      nothing once placeholders are restored. */
  lemma {:induction false} HideRestores(w: Work, terms: seq<string>, k: nat)
    requires k < |terms| && |terms[k]| > 0 && Refs(w, |terms|)
    ensures Refs(ReplaceAll(w, Lift(terms[k]), [Ph(k)]), |terms|)
    ensures Flatten(ReplaceAll(w, Lift(terms[k]), [Ph(k)]), terms) == Flatten(w, terms)
    decreases |w|
  {
    var t := terms[k];
    ReplaceAllElements(w, Lift(t), [Ph(k)]);
    if |w| >= |t| {
      if w[..|t|] == Lift(t) {
        var rest := w[|t|..];
        HideRestores(rest, terms, k);
        var tail := ReplaceAll(rest, Lift(t), [Ph(k)]);
        assert w == Lift(t) + rest;
        FlattenLift(t, terms);
        FlattenConcat(Lift(t), rest, terms);
        FlattenConcat([Ph(k)], tail, terms);
        assert Flatten([Ph(k)], terms) == t;
      } else {
        var rest := w[1..];
        HideRestores(rest, terms, k);
        var tail := ReplaceAll(rest, Lift(t), [Ph(k)]);
        assert w == [w[0]] + rest;
        FlattenConcat([w[0]], rest, terms);
        FlattenConcat([w[0]], tail, terms);
      }
    }
  }
  /** `w` holds characters only, no placeholder. */
  predicate Plain(w: Work)
  {
    forall i :: 0 <= i < |w| ==> w[i].Ch?
  }

  /** Up to its first placeholder, a hiding replacement copies its input. */
  lemma {:induction false} HidePrefix(s: Work, pat: Work, k: nat, m: nat)
    requires |pat| > 0 && m <= |ReplaceAll(s, pat, [Ph(k)])|
    ensures || (m <= |s| && ReplaceAll(s, pat, [Ph(k)])[..m] == s[..m])
            || !Plain(ReplaceAll(s, pat, [Ph(k)])[..m])
    decreases |s|
  {
    var r := ReplaceAll(s, pat, [Ph(k)]);
    if |s| >= |pat| && m > 0 {
      if s[..|pat|] == pat {
        assert r[..m][0] == Ph(k);
      } else {
        var t := s[1..];
        var r' := ReplaceAll(t, pat, [Ph(k)]);
        assert r == [s[0]] + r';
        HidePrefix(t, pat, k, m - 1);
        if !Plain(r'[..m - 1]) {
          var j :| 0 <= j < m - 1 && !r'[..m - 1][j].Ch?;
          assert r[..m][j + 1] == r'[..m - 1][j];
        } else {
          assert r[..m] == [s[0]] + r'[..m - 1];
          assert s[..m] == [s[0]] + t[..m - 1];
        }
      }
    }
  }

  /** A plain pattern occurs in `r` only if it occurs after the head, or
      at the head when that is a character. */
  lemma NoMatchAfterHead(r: Work, p: Work)
    requires |p| > 0 && Plain(p) && |r| > 0 && !Occurs(r[1..], p)
    requires r[0].Ph? || !MatchesAt(r, p, 0)
    ensures !Occurs(r, p)
  {
    forall i | 0 <= i <= |r| ensures !MatchesAt(r, p, i) {
      if i > 0 {
        MatchesInSuffix(r, p, 1, i - 1);
      } else if |p| <= |r| {
        assert r[0..|p|][0] == r[0];
      }
    }
  }

  /** Hiding every occurrence of a plain pattern leaves none behind. */
  lemma {:induction false} HideLeavesNoMatch(s: Work, p: Work, k: nat)
    requires |p| > 0 && Plain(p)
    ensures !Occurs(ReplaceAll(s, p, [Ph(k)]), p)
    decreases |s|
  {
    var r := ReplaceAll(s, p, [Ph(k)]);
    if |s| >= |p| {
      if s[..|p|] == p {
        HideLeavesNoMatch(s[|p|..], p, k);
        assert r == [Ph(k)] + ReplaceAll(s[|p|..], p, [Ph(k)]);
        assert r[1..] == ReplaceAll(s[|p|..], p, [Ph(k)]);
      } else {
        HideLeavesNoMatch(s[1..], p, k);
        assert r[1..] == ReplaceAll(s[1..], p, [Ph(k)]);
        if |p| <= |r| {
          HidePrefix(s, p, k, |p|);
          assert r[..|p|] != p;
        }
      }
      NoMatchAfterHead(r, p);
    }
  }

  /** Hiding any pattern creates no occurrence of a plain pattern. */
  lemma {:induction false} HideKeepsAbsent(s: Work, pat: Work, p: Work, k: nat)
    requires |pat| > 0 && |p| > 0 && Plain(p) && !Occurs(s, p)
    ensures !Occurs(ReplaceAll(s, pat, [Ph(k)]), p)
    decreases |s|
  {
    var r := ReplaceAll(s, pat, [Ph(k)]);
    if |s| >= |pat| {
      var d := if s[..|pat|] == pat then |pat| else 1;
      var t := s[d..];
      forall i | 0 <= i <= |t| ensures !MatchesAt(t, p, i) {
        MatchesInSuffix(s, p, d, i);
      }
      HideKeepsAbsent(t, pat, p, k);
      assert r[1..] == ReplaceAll(t, pat, [Ph(k)]);
      if s[..|pat|] != pat && |p| <= |r| {
        HidePrefix(s, pat, k, |p|);
        assert !MatchesAt(s, p, 0);
        assert r[..|p|] != p;
      }
      NoMatchAfterHead(r, p);
    }
  }
}
