/** The Korean find/replace loop with particle repair. It scans left to
    right with `find`, splices the replacement in, repairs the particle right
    after it, and resumes the scan after the inserted text. The same loop
    serves the ability-text patch and the expansion-name patch. */
module KoreanSplice {
  import opened Seqs
  import opened Hangul
  import opened Tokens
  import opened Particles

  /** Reference definition: find the first occurrence of `pat`, keep the
      text before it, emit `rep`, repair the particle that follows and
      continue on what follows. None stands for the IndexError the loop
      raises when `rep` is empty and a particle follows (`new[-1]`). */
  function Spliced(w: Work, pat: string, rep: string): Option<Work>
    requires |pat| > 0
    decreases |w|, 1
  {
    match Find(w, Lift(pat), 0)
    case None => Some(w)
    case Some(i) => SplicedAt(w, pat, rep, i)
  }

  /** The reference definition at a match starting at `i`. */
  function SplicedAt(w: Work, pat: string, rep: string, i: nat): Option<Work>
    requires |pat| > 0 && i + |pat| <= |w|
    decreases |w|, 0
  {
    var rest := w[i + |pat|..];
    if |rep| == 0 && ParticleAt(rest, 0) then None
    else
      match Spliced(Fixed(rest, rep), pat, rep)
      case None => None
      case Some(t) => Some(w[..i] + Lift(rep) + t)
  }

  /** Puts `p` in front of a successful result. */
  function Prepend(p: Work, r: Option<Work>): Option<Work>
  {
    match r
    case None => None
    case Some(t) => Some(p + t)
  }

  lemma PrependEmpty(r: Option<Work>)
    ensures Prepend([], r) == r
  {
    if r.Some? {
      assert [] + r.value == r.value;
    }
  }

  lemma PrependTwice(p: Work, q: Work, r: Option<Work>)
    ensures Prepend(p, Prepend(q, r)) == Prepend(p + q, r)
  {
    if r.Some? {
      assert p + (q + r.value) == (p + q) + r.value;
    }
  }

  /** The particle-repaired remainder after a splice. */
  function Fixed(rest: Work, rep: string): Work
  {
    if |rep| == 0 then rest else RepairAt(rest, 0, rep[|rep| - 1])
  }

  /** The reference definition goes on at the first match. */
  lemma SplicedAtFirst(w: Work, pat: string, rep: string, i: nat)
    requires |pat| > 0 && Find(w, Lift(pat), 0) == Some(i)
    ensures i + |pat| <= |w| && Spliced(w, pat, rep) == SplicedAt(w, pat, rep, i)
  {
  }

  /** At a match the reference definition fails, or keeps the text before
      the match, emits `rep` and continues on the repaired rest. */
  lemma SplicedAtMeaning(w: Work, pat: string, rep: string, i: nat)
    requires |pat| > 0 && i + |pat| <= |w|
    ensures SplicedAt(w, pat, rep, i) ==
              if |rep| == 0 && ParticleAt(w[i + |pat|..], 0) then None
              else Prepend(w[..i] + Lift(rep), Spliced(Fixed(w[i + |pat|..], rep), pat, rep))
  {
  }

  /** One round of the loop, seen from the reference definition: with
      `done` already emitted and `todo` still to scan, a match at `k` either
      fails the run or moves the text before it and `rep` into `done`. */
  lemma SpliceStep(done: Work, todo: Work, k: nat, pat: string, rep: string)
    requires |pat| > 0 && Find(todo, Lift(pat), 0) == Some(k)
    ensures k + |pat| <= |todo|
    ensures |rep| == 0 && ParticleAt(todo[k + |pat|..], 0) ==> Spliced(todo, pat, rep) == None
    ensures !(|rep| == 0 && ParticleAt(todo[k + |pat|..], 0)) ==>
              Prepend(done, Spliced(todo, pat, rep))
              == Prepend(done + (todo[..k] + Lift(rep)), Spliced(Fixed(todo[k + |pat|..], rep), pat, rep))
  {
    SplicedAtFirst(todo, pat, rep, k);
    SplicedAtMeaning(todo, pat, rep, k);
    PrependTwice(done, todo[..k] + Lift(rep), Spliced(Fixed(todo[k + |pat|..], rep), pat, rep));
  }

  /** The same round on the loop's own state: the text, and the index
      `start` the scan resumes at. */
  lemma SpliceAdvance(work: Work, start: nat, i: nat, pat: string, rep: string)
    requires |pat| > 0 && start <= |work|
    requires Find(work, Lift(pat), start) == Some(i)
    ensures start <= i && i + |pat| <= |work|
    ensures |rep| == 0 && ParticleAt(work[i + |pat|..], 0) ==> Spliced(work[start..], pat, rep) == None
    ensures !(|rep| == 0 && ParticleAt(work[i + |pat|..], 0)) ==>
              Prepend(work[..start], Spliced(work[start..], pat, rep))
              == Prepend(work[..i] + Lift(rep), Spliced(Fixed(work[i + |pat|..], rep), pat, rep))
  {
    FindShiftHere(work, Lift(pat), start, i);
    var done, todo, k := work[..start], work[start..], i - start;
    SpliceStep(done, todo, k, pat, rep);
    assert todo[k + |pat|..] == work[i + |pat|..];
    assert done + todo[..k] == work[..i];
    AppendAssoc(done, todo[..k], Lift(rep));
  }

  /** When `pat` no longer occurs from `start`, the rest is kept as is. */
  lemma SpliceDone(work: Work, start: nat, pat: string, rep: string)
    requires |pat| > 0 && start <= |work|
    requires Find(work, Lift(pat), start).None?
    ensures Prepend(work[..start], Spliced(work[start..], pat, rep)) == Some(work)
  {
    FindShift(work, Lift(pat), start, 0);
    assert work[..start] + work[start..] == work;
  }

  /** The loop of the ability-text patch (and of the expansion-name patch):
      each round finds `pat` from `start`, splices `rep` in, repairs the
      particle at the end of the splice and resumes after `rep`, so inserted
      text is never rescanned. */
  method ReplaceWithParticles(text: Work, pat: string, rep: string) returns (r: Option<Work>)
    requires |pat| > 0
    ensures r == Spliced(text, pat, rep)
  {
    var work := text;
    var start := 0;
    assert work[..0] == [] && work[0..] == work;
    PrependEmpty(Spliced(text, pat, rep));
    while start < |work|
      invariant 0 <= start <= |work|
      invariant Spliced(text, pat, rep) == Prepend(work[..start], Spliced(work[start..], pat, rep))
      decreases |work| - start
    {
      var found := Find(work, Lift(pat), start);
      if found.None? {
        SpliceDone(work, start, pat, rep);
        return Some(work);
      }
      var i := found.value;
      SpliceAdvance(work, start, i, pat, rep);
      var rest := work[i + |pat|..];
      var head := work[..i] + Lift(rep);
      work := head + rest;
      var j := i + |rep|;
      assert ParticleAt(work, j) <==> ParticleAt(rest, 0);
      if ParticleAt(work, j) {
        if |rep| == 0 {
          return None;
        }
        RepairAtSeam(head, rest, rep[|rep| - 1]);
        work := RepairAt(work, j, rep[|rep| - 1]);
      }
      assert work == head + Fixed(rest, rep);
      assert work[..j] == head && work[j..] == Fixed(rest, rep);
      start := j;
    }
    assert work[start..] == [];
    assert Spliced(work[start..], pat, rep) == Some([]);
    assert work[..start] + [] == work;
    return Some(work);
  }

  /** The text holds none of the eight particles. */
  predicate NoParticles(w: Work)
  {
    forall k :: 0 <= k < |w| ==> !ParticleAt(w, k)
  }

  /** Where `pat` does not occur the text comes back unchanged. */
  lemma SplicedNoMatch(w: Work, pat: string, rep: string)
    requires |pat| > 0 && !Occurs(w, Lift(pat))
    ensures Spliced(w, pat, rep) == Some(w)
  {
  }

  /** With a non-empty replacement the loop never raises. */
  lemma {:induction false} SplicedNeverFailsWithText(w: Work, pat: string, rep: string)
    requires |pat| > 0 && |rep| > 0
    ensures Spliced(w, pat, rep).Some?
    decreases |w|
  {
    var f := Find(w, Lift(pat), 0);
    if f.Some? {
      var fixed := Fixed(w[f.value + |pat|..], rep);
      SplicedNeverFailsWithText(fixed, pat, rep);
      assert Spliced(w, pat, rep) == Prepend(w[..f.value] + Lift(rep), Spliced(fixed, pat, rep));
    }
  }

  /** The repair step rewrites a character into a character, so it leaves
      the protected spans alone. */
  lemma RepairKeepsPlaceholders(w: Work, j: nat, last: char)
    ensures Placeholders(RepairAt(w, j, last)) == Placeholders(w)
  {
    if ParticleAt(w, j) {
      var r := RepairAt(w, j, last);
      assert w == w[..j] + [w[j]] + w[j + 1..];
      assert r == w[..j] + [r[j]] + w[j + 1..];
      PlaceholdersConcat(w[..j] + [w[j]], w[j + 1..]);
      PlaceholdersConcat(w[..j], [w[j]]);
      PlaceholdersConcat(w[..j] + [r[j]], w[j + 1..]);
      PlaceholdersConcat(w[..j], [r[j]]);
    }
  }

  /** Protected spans survive the Korean loop: the placeholders of the
      result are those of the input, in the same order. */
  lemma {:induction false} SplicedKeepsPlaceholders(w: Work, pat: string, rep: string)
    requires |pat| > 0 && Spliced(w, pat, rep).Some?
    ensures Placeholders(Spliced(w, pat, rep).value) == Placeholders(w)
    decreases |w|
  {
    match Find(w, Lift(pat), 0)
    case None =>
    case Some(i) =>
      var rest := w[i + |pat|..];
      var fixed := Fixed(rest, rep);
      SplicedKeepsPlaceholders(fixed, pat, rep);
      if |rep| > 0 {
        RepairKeepsPlaceholders(rest, 0, rep[|rep| - 1]);
      }
      var t := Spliced(fixed, pat, rep).value;
      assert w == w[..i] + Lift(pat) + rest;
      PlaceholdersConcat(w[..i] + Lift(pat), rest);
      PlaceholdersConcat(w[..i], Lift(pat));
      PlaceholdersConcat(w[..i] + Lift(rep), t);
      PlaceholdersConcat(w[..i], Lift(rep));
      PlaceholdersLift(pat);
      PlaceholdersLift(rep);
  }

  /** Where no particle follows any match, the loop is exactly Python's
      `str.replace`: leftmost, non-overlapping, never rescanning `rep`. */
  lemma {:induction false} SplicedIsReplaceWithoutParticles(w: Work, pat: string, rep: string)
    requires |pat| > 0 && NoParticles(w)
    ensures Spliced(w, pat, rep) == Some(ReplaceAll(w, Lift(pat), Lift(rep)))
    decreases |w|
  {
    match Find(w, Lift(pat), 0)
    case None =>
      ReplaceAllNoMatch(w, Lift(pat), Lift(rep));
    case Some(i) =>
      var rest := w[i + |pat|..];
      assert forall k :: 0 <= k < |rest| ==> rest[k] == w[i + |pat| + k];
      assert NoParticles(rest) by {
        forall k | 0 <= k < |rest| ensures !ParticleAt(rest, k) {
          assert !ParticleAt(w, i + |pat| + k);
        }
      }
      assert Fixed(rest, rep) == rest;
      SplicedIsReplaceWithoutParticles(rest, pat, rep);
      ReplaceAllAtFirst(w, Lift(pat), Lift(rep), i);
  }
}
