/** Substitution inside ability text with creature types protected. Every
    creature-type name is first hidden behind a placeholder (longest names
    first), then the replacement pairs are applied in order, then the
    placeholders are restored. English text uses Python's `str.replace`;
    Korean text uses the find/replace loop with particle repair. */
module Protection {
  import opened Seqs
  import opened Tokens
  import opened Hangul
  import opened Pairs
  import opened Particles
  import opened KoreanSplice

  /** Every protected term is non-empty. */
  predicate Protectable(terms: seq<string>)
  {
    forall t :: t in terms ==> t != ""
  }

  /** Hides terms `k..` in order: every occurrence of the `i`-th term in
      what is still plain text becomes the placeholder `Ph(i)`. */
  function HideFrom(w: Work, terms: seq<string>, k: nat): Work
    requires k <= |terms| && Protectable(terms)
    decreases |terms| - k
  {
    if k == |terms| then w
    else
      assert terms[k] in terms;
      HideFrom(ReplaceAll(w, Lift(terms[k]), [Ph(k)]), terms, k + 1)
  }

  lemma {:induction false} HideFromRestores(w: Work, terms: seq<string>, k: nat)
    requires k <= |terms| && Protectable(terms) && Refs(w, |terms|)
    ensures Refs(HideFrom(w, terms, k), |terms|)
    ensures Flatten(HideFrom(w, terms, k), terms) == Flatten(w, terms)
    decreases |terms| - k
  {
    if k < |terms| {
      assert terms[k] in terms;
      HideRestores(w, terms, k);
      HideFromRestores(ReplaceAll(w, Lift(terms[k]), [Ph(k)]), terms, k + 1);
    }
  }

  /** The text with every term hidden. Restoring the placeholders gives
      the text back, whatever the terms. */
  function Protect(text: string, terms: seq<string>): (w: Work)
    requires Protectable(terms)
    ensures Refs(w, |terms|) && Flatten(w, terms) == text
  {
    FlattenLift(text, terms);
    HideFromRestores(Lift(text), terms, 0);
    HideFrom(Lift(text), terms, 0)
  }

  /** Hiding later terms never brings back a plain occurrence. */
  lemma {:induction false} HideFromKeepsAbsent(w: Work, terms: seq<string>, k: nat, p: Work)
    requires k <= |terms| && Protectable(terms)
    requires |p| > 0 && Plain(p) && !Occurs(w, p)
    ensures !Occurs(HideFrom(w, terms, k), p)
    decreases |terms| - k
  {
    if k < |terms| {
      assert terms[k] in terms;
      HideKeepsAbsent(w, Lift(terms[k]), p, k);
      HideFromKeepsAbsent(ReplaceAll(w, Lift(terms[k]), [Ph(k)]), terms, k + 1, p);
    }
  }

  /** After hiding terms `k..`, none of them occurs in the plain text. */
  lemma {:induction false} HideFromHides(w: Work, terms: seq<string>, k: nat, j: nat)
    requires Protectable(terms) && k <= j < |terms|
    ensures !Occurs(HideFrom(w, terms, k), Lift(terms[j]))
    decreases j - k
  {
    assert terms[k] in terms && terms[j] in terms;
    var next := ReplaceAll(w, Lift(terms[k]), [Ph(k)]);
    if k == j {
      HideLeavesNoMatch(w, Lift(terms[j]), j);
      HideFromKeepsAbsent(next, terms, k + 1, Lift(terms[j]));
    } else {
      HideFromHides(next, terms, k + 1, j);
    }
  }

  /** No creature type is left in the text outside the placeholders, so no
      pair can rewrite any part of a protected name. */
  lemma ProtectHidesTerms(text: string, terms: seq<string>, j: nat)
    requires Protectable(terms) && j < |terms|
    ensures !Occurs(Protect(text, terms), Lift(terms[j]))
  {
    HideFromHides(Lift(text), terms, 0, j);
  }

  /** Where no element of `w` in `[lo, hi)` is the first character of `p`,
      no occurrence of `p` starts there. */
  lemma NoMatchBefore(w: Work, p: string, lo: nat, hi: nat)
    requires |p| > 0 && lo <= hi <= |w|
    requires forall k :: lo <= k < hi ==> w[k] != Ch(p[0])
    ensures forall k :: lo <= k < hi ==> !MatchesAt(w, Lift(p), k)
  {
    forall k | lo <= k < hi && k + |p| <= |w| ensures !MatchesAt(w, Lift(p), k) {
      assert w[k..k + |p|][0] == w[k];
    }
  }

  /** A single term that first occurs right after `a` and not at all in
      `b` is hidden there and nowhere else. */
  lemma HideSingle(a: string, t: string, b: string)
    requires |t| > 0 && !Occurs(Lift(b), Lift(t))
    requires forall k :: 0 <= k < |a| ==> !MatchesAt(Lift(a + t + b), Lift(t), k)
    ensures Protect(a + t + b, [t]) == Lift(a) + [Ph(0)] + Lift(b)
  {
    var w := Lift(a + t + b);
    LiftConcat(a + t, b);
    LiftConcat(a, t);
    assert w[|a|..|a| + |t|] == Lift(t);
    ReplaceAllAtFirst(w, Lift(t), [Ph(0)], |a|);
    assert w[..|a|] == Lift(a) && w[|a| + |t|..] == Lift(b);
    ReplaceAllNoMatch(Lift(b), Lift(t), [Ph(0)]);
    var terms := [t];
    assert terms[0] == t;
    var hidden := ReplaceAll(w, Lift(t), [Ph(0)]);
    assert HideFrom(hidden, terms, 1) == hidden;
    assert Protect(a + t + b, terms) == HideFrom(w, terms, 0) == HideFrom(hidden, terms, 1);
  }

  /** Hiding "Elf Warrior" in the example text. */
  lemma ExampleHides(a: string, t: string, b: string)
    requires a == "An " && t == "Elf Warrior" && b == " fights an Elf."
    ensures Protect(a + t + b, [t]) == Lift(a) + [Ph(0)] + Lift(b)
  {
    NoMatchBefore(Lift(a + t + b), t, 0, 3);
    NoMatchBefore(Lift(b), t, 0, 5);
    HideSingle(a, t, b);
  }

  /** A single pair whose `before` first occurs at `i` and not after it
      rewrites that one occurrence. */
  lemma ApplySingle(w: Work, e: string, g: string, i: nat)
    requires |e| > 0 && MatchesAt(w, Lift(e), i)
    requires forall k :: 0 <= k < i ==> !MatchesAt(w, Lift(e), k)
    requires !Occurs(w[i + |e|..], Lift(e))
    ensures ApplyPairs(w, [Pair(e, g)]) == w[..i] + Lift(g) + w[i + |e|..]
  {
    ReplaceOnce(w, Lift(e), Lift(g), i);
    ApplyOnePair(w, Pair(e, g));
  }

  /** One pair is one `str.replace`. */
  lemma ApplyOnePair(w: Work, p: Pair)
    requires |p.before| > 0
    ensures ApplyPairs(w, [p]) == ReplaceAll(w, Lift(p.before), Lift(p.after))
  {
    var pairs := [p];
    assert pairs[1..] == [];
  }

  /** The pair ("Elf", "Goblin") on the hidden example text. */
  lemma ExampleApplies(a: string, m: string, e: string, g: string, z: string)
    requires a == "An " && m == " fights an " && e == "Elf" && g == "Goblin" && z == "."
    ensures ApplyPairs(Lift(a) + [Ph(0)] + Lift(m + e + z), [Pair(e, g)])
            == Lift(a) + [Ph(0)] + Lift(m + g + z)
  {
    LiftConcat(m + e, z);
    LiftConcat(m, e);
    LiftConcat(m + g, z);
    LiftConcat(m, g);
    var pre := Lift(a) + [Ph(0)] + Lift(m);
    var w := pre + Lift(e) + Lift(z);
    assert Lift(a) + [Ph(0)] + Lift(m + e + z) == w;
    assert Lift(a) + [Ph(0)] + Lift(m + g + z) == pre + Lift(g) + Lift(z);
    ExampleFirstMatch(pre, w, e, z);
    ApplySingle(w, e, g, 15);
    assert w[..15] == pre && w[18..] == Lift(z);
  }

  /** Where "Elf" first occurs in the hidden example text. */
  lemma ExampleFirstMatch(pre: Work, w: Work, e: string, z: string)
    requires pre == Lift("An ") + [Ph(0)] + Lift(" fights an ") && e == "Elf" && z == "."
    requires w == pre + Lift(e) + Lift(z)
    ensures MatchesAt(w, Lift(e), 15) && !Occurs(w[18..], Lift(e))
    ensures forall k :: 0 <= k < 15 ==> !MatchesAt(w, Lift(e), k)
  {
    assert w[15..18] == Lift(e);
    NoMatchBefore(w, e, 0, 3);
    NoMatchBefore(w, e, 4, 15);
    assert !MatchesAt(w, Lift(e), 3) by { assert w[3..6][0] == w[3]; }
    assert w[18..] == Lift(z);
  }

  /** Restoring a single placeholder between plain texts. */
  lemma RestoreSingle(a: string, t: string, b: string)
    ensures Refs(Lift(a) + [Ph(0)] + Lift(b), 1)
    ensures Flatten(Lift(a) + [Ph(0)] + Lift(b), [t]) == a + t + b
  {
    var terms := [t];
    assert Lift(a) + [Ph(0)] + Lift(b) == Lift(a) + ([Ph(0)] + Lift(b));
    FlattenLift(a, terms);
    FlattenLift(b, terms);
    FlattenConcat([Ph(0)], Lift(b), terms);
    FlattenConcat(Lift(a), [Ph(0)] + Lift(b), terms);
    assert Flatten([Ph(0)], terms) == t;
  }

  /** The English rewrite through its hidden and its rewritten text. */
  lemma SubstitutedBySteps(text: string, terms: seq<string>, pairs: seq<Pair>, hidden: Work, rewritten: Work)
    requires Protectable(terms) && UsableBefores(pairs)
    requires Protect(text, terms) == hidden && ApplyPairs(hidden, pairs) == rewritten
    ensures Refs(rewritten, |terms|)
    ensures Substituted(text, terms, pairs) == Flatten(rewritten, terms)
  {
    RefsOfPlaceholders(hidden, |terms|);
    RefsOfPlaceholders(rewritten, |terms|);
  }

  /** With "Elf Warrior" protected and the pair ("Elf", "Goblin"), only the
      standalone "Elf" of "An Elf Warrior fights an Elf." is rewritten; the
      one inside the creature type is kept. The article is not adjusted. */
  lemma ProtectedExample(a: string, t: string, m: string, e: string, g: string, z: string)
    requires a == "An " && t == "Elf Warrior" && m == " fights an "
    requires e == "Elf" && g == "Goblin" && z == "."
    ensures Substituted(a + t + m + e + z, [t], [Pair(e, g)]) == a + t + m + g + z
  {
    ExampleHides(a, t, m + e + z);
    ExampleApplies(a, m, e, g, z);
    var hidden := Lift(a) + [Ph(0)] + Lift(m + e + z);
    var rewritten := Lift(a) + [Ph(0)] + Lift(m + g + z);
    assert a + t + (m + e + z) == a + t + m + e + z;
    SubstitutedBySteps(a + t + m + e + z, [t], [Pair(e, g)], hidden, rewritten);
    RestoreSingle(a, t, m + g + z);
  }

  /** The hiding loop: a term is replaced only if it still occurs. */
  method HideTerms(text: string, terms: seq<string>) returns (w: Work)
    requires Protectable(terms)
    ensures w == Protect(text, terms)
  {
    w := Lift(text);
    for k := 0 to |terms|
      invariant HideFrom(w, terms, k) == HideFrom(Lift(text), terms, 0)
    {
      assert terms[k] in terms;
      if Find(w, Lift(terms[k]), 0).Some? {
        w := ReplaceAll(w, Lift(terms[k]), [Ph(k)]);
      } else {
        ReplaceAllNoMatch(w, Lift(terms[k]), [Ph(k)]);
      }
    }
  }

  /** The pairs applied in list order with `str.replace`. Protected spans
      survive: the placeholders of the result are those of the input, in
      the same order. */
  function ApplyPairs(w: Work, pairs: seq<Pair>): (r: Work)
    requires UsableBefores(pairs)
    ensures Placeholders(r) == Placeholders(w)
    decreases |pairs|
  {
    if pairs == [] then w
    else
      assert pairs[0] in pairs;
      ReplaceKeepsPlaceholders(w, pairs[0].before, pairs[0].after);
      ApplyPairs(ReplaceAll(w, Lift(pairs[0].before), Lift(pairs[0].after)), pairs[1..])
  }

  /** The English rewrite of one text. */
  function Substituted(text: string, terms: seq<string>, pairs: seq<Pair>): string
    requires Protectable(terms) && UsableBefores(pairs)
  {
    var w := ApplyPairs(Protect(text, terms), pairs);
    RefsOfPlaceholders(Protect(text, terms), |terms|);
    RefsOfPlaceholders(w, |terms|);
    Flatten(w, terms)
  }

  /** The English loops of the ability-text patch for one text. */
  method RewriteEnglish(text: string, terms: seq<string>, pairs: seq<Pair>) returns (r: string)
    requires Protectable(terms) && UsableBefores(pairs)
    ensures r == Substituted(text, terms, pairs)
  {
    var w := HideTerms(text, terms);
    for k := 0 to |pairs|
      invariant ApplyPairs(w, pairs[k..]) == ApplyPairs(Protect(text, terms), pairs)
      invariant Placeholders(w) == Placeholders(Protect(text, terms))
    {
      assert pairs[k] in pairs;
      assert pairs[k..][0] == pairs[k] && pairs[k..][1..] == pairs[k + 1..];
      ReplaceKeepsPlaceholders(w, pairs[k].before, pairs[k].after);
      w := ReplaceAll(w, Lift(pairs[k].before), Lift(pairs[k].after));
    }
    assert pairs[|pairs|..] == [];
    RefsOfPlaceholders(Protect(text, terms), |terms|);
    RefsOfPlaceholders(w, |terms|);
    r := Flatten(w, terms);
  }

  /** Where no pair matches the text left unprotected, replacement is the
      identity. */
  lemma {:induction false} ApplyPairsNoMatch(w: Work, pairs: seq<Pair>)
    requires UsableBefores(pairs)
    requires forall p :: p in pairs ==> !Occurs(w, Lift(p.before))
    ensures ApplyPairs(w, pairs) == w
    decreases |pairs|
  {
    if pairs != [] {
      assert pairs[0] in pairs;
      ReplaceAllNoMatch(w, Lift(pairs[0].before), Lift(pairs[0].after));
      assert forall p :: p in pairs[1..] ==> p in pairs;
      ApplyPairsNoMatch(w, pairs[1..]);
    }
  }

  /** If no `before` occurs outside the protected spans, the text comes back
      unchanged, so no update is emitted for it. */
  lemma SubstitutedWithoutMatches(text: string, terms: seq<string>, pairs: seq<Pair>)
    requires Protectable(terms) && UsableBefores(pairs)
    requires forall p :: p in pairs ==> !Occurs(Protect(text, terms), Lift(p.before))
    ensures Substituted(text, terms, pairs) == text
  {
    ApplyPairsNoMatch(Protect(text, terms), pairs);
  }

  /** Reference definition: Python's chained `str.replace` over the pairs. */
  function ReplaceEach(s: string, pairs: seq<Pair>): string
    requires UsableBefores(pairs)
    decreases |pairs|
  {
    if pairs == [] then s
    else
      assert pairs[0] in pairs;
      ReplaceEach(ReplaceAll(s, pairs[0].before, pairs[0].after), pairs[1..])
  }

  lemma {:induction false} ApplyPairsOfPlainText(s: string, pairs: seq<Pair>)
    requires UsableBefores(pairs)
    ensures ApplyPairs(Lift(s), pairs) == Lift(ReplaceEach(s, pairs))
    decreases |pairs|
  {
    if pairs != [] {
      assert pairs[0] in pairs;
      LiftReplaceAll(s, pairs[0].before, pairs[0].after);
      ApplyPairsOfPlainText(ReplaceAll(s, pairs[0].before, pairs[0].after), pairs[1..]);
    }
  }

  /** With no creature types to protect, the English rewrite is exactly the
      chained `str.replace`. */
  lemma SubstitutedWithoutTerms(text: string, pairs: seq<Pair>)
    requires UsableBefores(pairs)
    ensures Substituted(text, [], pairs) == ReplaceEach(text, pairs)
  {
    ApplyPairsOfPlainText(text, pairs);
    FlattenLift(ReplaceEach(text, pairs), []);
  }

  /** The Korean loop run once per pair, in list order; None when a run
      raises. Protected spans survive every run. */
  function SplicedAll(w: Work, pairs: seq<Pair>): (r: Option<Work>)
    requires UsableBefores(pairs)
    ensures r.Some? ==> Placeholders(r.value) == Placeholders(w)
    decreases |pairs|
  {
    if pairs == [] then Some(w)
    else
      assert pairs[0] in pairs;
      match Spliced(w, pairs[0].before, pairs[0].after)
      case None => None
      case Some(v) =>
        SplicedKeepsPlaceholders(w, pairs[0].before, pairs[0].after);
        SplicedAll(v, pairs[1..])
  }

  /** The Korean rewrite of one text; None when the loop raises. */
  function KoreanSubstituted(text: string, terms: seq<string>, pairs: seq<Pair>): Option<string>
    requires Protectable(terms) && UsableBefores(pairs)
  {
    match SplicedAll(Protect(text, terms), pairs)
    case None => None
    case Some(w) =>
      RefsOfPlaceholders(Protect(text, terms), |terms|);
      RefsOfPlaceholders(w, |terms|);
      Some(Flatten(w, terms))
  }

  /** The Korean loops of the ability-text patch for one text. */
  method RewriteKorean(text: string, terms: seq<string>, pairs: seq<Pair>) returns (r: Option<string>)
    requires Protectable(terms) && UsableBefores(pairs)
    ensures r == KoreanSubstituted(text, terms, pairs)
  {
    var w := HideTerms(text, terms);
    for k := 0 to |pairs|
      invariant SplicedAll(w, pairs[k..]) == SplicedAll(Protect(text, terms), pairs)
    {
      assert pairs[k] in pairs;
      assert pairs[k..][0] == pairs[k] && pairs[k..][1..] == pairs[k + 1..];
      var next := ReplaceWithParticles(w, pairs[k].before, pairs[k].after);
      if next.None? {
        return None;
      }
      w := next.value;
    }
    assert pairs[|pairs|..] == [];
    RefsOfPlaceholders(Protect(text, terms), |terms|);
    RefsOfPlaceholders(w, |terms|);
    r := Some(Flatten(w, terms));
  }

  /** Every `after` is non-empty. */
  predicate NonEmptyAfters(pairs: seq<Pair>)
  {
    forall p :: p in pairs ==> p.after != ""
  }

  lemma {:induction false} SplicedAllNeverFails(w: Work, pairs: seq<Pair>)
    requires UsableBefores(pairs) && NonEmptyAfters(pairs)
    ensures SplicedAll(w, pairs).Some?
    decreases |pairs|
  {
    if pairs != [] {
      assert pairs[0] in pairs;
      SplicedNeverFailsWithText(w, pairs[0].before, pairs[0].after);
      assert forall p :: p in pairs[1..] ==> p in pairs;
      SplicedAllNeverFails(Spliced(w, pairs[0].before, pairs[0].after).value, pairs[1..]);
    }
  }

  /** With non-empty replacements the Korean rewrite never raises. */
  lemma KoreanNeverFailsWithText(text: string, terms: seq<string>, pairs: seq<Pair>)
    requires Protectable(terms) && UsableBefores(pairs) && NonEmptyAfters(pairs)
    ensures KoreanSubstituted(text, terms, pairs).Some?
  {
    SplicedAllNeverFails(Protect(text, terms), pairs);
  }

  lemma {:induction false} SplicedAllNoMatch(w: Work, pairs: seq<Pair>)
    requires UsableBefores(pairs)
    requires forall p :: p in pairs ==> !Occurs(w, Lift(p.before))
    ensures SplicedAll(w, pairs) == Some(w)
    decreases |pairs|
  {
    if pairs != [] {
      assert pairs[0] in pairs;
      SplicedNoMatch(w, pairs[0].before, pairs[0].after);
      assert forall p :: p in pairs[1..] ==> p in pairs;
      SplicedAllNoMatch(w, pairs[1..]);
    }
  }

  /** If no `before` occurs outside the protected spans, the Korean text
      comes back unchanged. */
  lemma KoreanWithoutMatches(text: string, terms: seq<string>, pairs: seq<Pair>)
    requires Protectable(terms) && UsableBefores(pairs)
    requires forall p :: p in pairs ==> !Occurs(Protect(text, terms), Lift(p.before))
    ensures KoreanSubstituted(text, terms, pairs) == Some(text)
  {
    SplicedAllNoMatch(Protect(text, terms), pairs);
  }

  /** No character of `s` is a particle. */
  predicate ParticleFree(s: string)
  {
    forall c :: c in s ==> PairOf(c).None?
  }

  /** Replacing by particle-free text keeps a text particle-free. */
  lemma ReplaceKeepsNoParticles(w: Work, pat: string, rep: string)
    requires |pat| > 0 && NoParticles(w) && ParticleFree(rep)
    ensures NoParticles(ReplaceAll(w, Lift(pat), Lift(rep)))
  {
    var r := ReplaceAll(w, Lift(pat), Lift(rep));
    ReplaceAllElements(w, Lift(pat), Lift(rep));
    forall k | 0 <= k < |r| ensures !ParticleAt(r, k) {
      assert r[k] in r;
      if r[k] in w {
        var j :| 0 <= j < |w| && w[j] == r[k];
        assert !ParticleAt(w, j);
      } else {
        var j :| 0 <= j < |rep| && Lift(rep)[j] == r[k];
        assert rep[j] in rep;
      }
    }
  }

  lemma {:induction false} SplicedAllWithoutParticles(w: Work, pairs: seq<Pair>)
    requires UsableBefores(pairs) && NoParticles(w)
    requires forall p :: p in pairs ==> ParticleFree(p.after)
    ensures SplicedAll(w, pairs) == Some(ApplyPairs(w, pairs))
    decreases |pairs|
  {
    if pairs != [] {
      var p := pairs[0];
      assert p in pairs;
      SplicedIsReplaceWithoutParticles(w, p.before, p.after);
      ReplaceKeepsNoParticles(w, p.before, p.after);
      assert forall q :: q in pairs[1..] ==> q in pairs;
      SplicedAllWithoutParticles(ReplaceAll(w, Lift(p.before), Lift(p.after)), pairs[1..]);
    }
  }

  /** Where neither the text nor any replacement holds a particle, the
      Korean loop does exactly what the English `str.replace` chain does. */
  lemma KoreanIsEnglishWithoutParticles(text: string, terms: seq<string>, pairs: seq<Pair>)
    requires Protectable(terms) && UsableBefores(pairs)
    requires NoParticles(Protect(text, terms))
    requires forall p :: p in pairs ==> ParticleFree(p.after)
    ensures KoreanSubstituted(text, terms, pairs) == Some(Substituted(text, terms, pairs))
  {
    SplicedAllWithoutParticles(Protect(text, terms), pairs);
  }
}
