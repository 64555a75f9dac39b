/** The expansion-name patch of the client's `Loc` table: a full-text match
    against a small table of known strings wins; otherwise the old
    expansion name is replaced wherever it occurs, and in Korean text the
    particle after each inserted name is repaired. */
module ExpansionName {
  import opened Seqs
  import opened Hangul
  import opened Tokens
  import opened Particles
  import opened KoreanSplice

  /** One full-text replacement, in English and in Korean. */
  datatype Specific = Specific(oldEn: string, newEn: string, oldKo: string, newKo: string)

  /** The known full texts, tried in this order. */
  const SpecificTexts: seq<Specific> := [
    Specific("Omenpath Bonus Sheet", "Spider-Man Bonus Sheet",
             "오멘패스 보너스 시트", "스파이더맨 보너스 시트"),
    Specific("Begin your journey through the Omenpaths with these three packs!",
             "Begin your journey with Spider-Man with these three packs!",
             "3개의 팩을 가지고 오멘패스를 가로지르는 여행을 시작하십시오!",
             "3개의 팩을 가지고 스파이더맨과 함께 여행을 시작하십시오!"),
    Specific("Begin your journey though the Omenpaths with these three packs!",
             "Begin your journey with Spider-Man with these three packs!",
             "3개의 팩을 가지고 오멘패스를 가로지르는 여행을 시작하십시오!",
             "3개의 팩을 가지고 스파이더맨과 함께 여행을 시작하십시오!")
  ]

  const OldEnGeneral: string := "Through the Omenpaths"
  const NewEnGeneral: string := "Marvel's Spider-Man"
  /** The Korean name, whose particles need repair. */
  const OldKoGeneral1: string := "오멘패스를 가로지르다"
  /** The English name as it appears in the Korean column. */
  const OldKoGeneral2: string := "Through the Omenpaths"
  const NewKoGeneral: string := "마블 스파이더맨"

  function OldOf(s: Specific, korean: bool): string
  {
    if korean then s.oldKo else s.oldEn
  }

  function NewOf(s: Specific, korean: bool): string
  {
    if korean then s.newKo else s.newEn
  }

  /** The replacement of the first table entry whose old text equals `text`. */
  function SpecificFor(text: string, korean: bool): (r: Option<string>)
    ensures r.None? <==> forall k :: 0 <= k < |SpecificTexts| ==> OldOf(SpecificTexts[k], korean) != text
    ensures r.Some? ==>
              exists k :: 0 <= k < |SpecificTexts| && OldOf(SpecificTexts[k], korean) == text && r.value == NewOf(SpecificTexts[k], korean)
  {
    SpecificFrom(text, korean, 0)
  }

  function SpecificFrom(text: string, korean: bool, k: nat): (r: Option<string>)
    requires k <= |SpecificTexts|
    ensures r.None? <==> forall j :: k <= j < |SpecificTexts| ==> OldOf(SpecificTexts[j], korean) != text
    ensures r.Some? ==>
              exists j :: k <= j < |SpecificTexts| && OldOf(SpecificTexts[j], korean) == text && r.value == NewOf(SpecificTexts[j], korean)
    decreases |SpecificTexts| - k
  {
    if k == |SpecificTexts| then None
    else if OldOf(SpecificTexts[k], korean) == text then Some(NewOf(SpecificTexts[k], korean))
    else SpecificFrom(text, korean, k + 1)
  }

  /** Entries with the same old text have the same new text, so the order
      the table is tried in does not matter. */
  lemma SpecificTableIsConsistent(korean: bool)
    ensures forall i, j ::
              (0 <= i < |SpecificTexts| && 0 <= j < |SpecificTexts| &&
               OldOf(SpecificTexts[i], korean) == OldOf(SpecificTexts[j], korean)) ==>
              NewOf(SpecificTexts[i], korean) == NewOf(SpecificTexts[j], korean)
  {
  }

  /** The table search as the patch runs it: a loop that stops at the first
      entry whose old text equals `text`. */
  method FindSpecific(text: string, korean: bool) returns (r: Option<string>)
    ensures r == SpecificFor(text, korean)
  {
    r := None;
    var k := 0;
    while k < |SpecificTexts|
      invariant 0 <= k <= |SpecificTexts|
      invariant SpecificFor(text, korean) == SpecificFrom(text, korean, k)
    {
      if OldOf(SpecificTexts[k], korean) == text {
        r := Some(NewOf(SpecificTexts[k], korean));
        return;
      }
      k := k + 1;
    }
  }

  /** The characters of a token sequence that holds no placeholder. */
  function PlainText(w: Work): (s: string)
    requires forall p :: p in w ==> p.Ch?
    ensures Lift(s) == w
  {
    var s := seq(|w|, i requires 0 <= i < |w| => w[i].c);
    assert forall i | 0 <= i < |w| :: w[i] in w;
    s
  }

  /** `p` occurs in `s` exactly when it occurs in their token forms. */
  lemma OccursLift(s: string, p: string)
    ensures Occurs(Lift(s), Lift(p)) <==> Occurs(s, p)
  {
    forall i | 0 <= i <= |s| ensures MatchesAt(Lift(s), Lift(p), i) <==> MatchesAt(s, p, i) {
      if i + |p| <= |s| {
        assert Lift(s)[i..i + |p|] == Lift(s[i..i + |p|]);
        if Lift(s[i..i + |p|]) == Lift(p) {
          LiftInjective(s[i..i + |p|], p);
        }
      }
    }
  }

  /** The Korean general replacement: the English name in the Korean column
      is replaced plainly, then every Korean name is replaced with particle
      repair. The inserted name is non-empty, so the loop cannot fail. */
  function KoreanGeneral(ko: string): string
  {
    var t := ReplaceAll(ko, OldKoGeneral2, NewKoGeneral);
    SplicedNeverFailsWithText(Lift(t), OldKoGeneral1, NewKoGeneral);
    var w := Spliced(Lift(t), OldKoGeneral1, NewKoGeneral).value;
    SplicedKeepsPlaceholders(Lift(t), OldKoGeneral1, NewKoGeneral);
    PlaceholdersLift(t);
    RefsOfPlaceholders(w, 0);
    PlainText(w)
  }

  /** The new English text of a row; an empty or NULL text is kept. */
  function NewEnglish(en: string): string
  {
    if en == "" then en
    else match SpecificFor(en, false)
      case Some(n) => n
      case None => ReplaceAll(en, OldEnGeneral, NewEnGeneral)
  }

  /** The new Korean text of a row; an empty or NULL text is kept. */
  function NewKorean(ko: string): string
  {
    if ko == "" then ko
    else match SpecificFor(ko, true)
      case Some(n) => n
      case None => KoreanGeneral(ko)
  }

  /** A known full text becomes its table replacement, in both columns. */
  lemma SpecificTextsAreReplaced(k: nat)
    requires k < |SpecificTexts|
    ensures NewEnglish(SpecificTexts[k].oldEn) == SpecificTexts[k].newEn
    ensures NewKorean(SpecificTexts[k].oldKo) == SpecificTexts[k].newKo
  {
    SpecificTableIsConsistent(false);
    SpecificTableIsConsistent(true);
  }

  /** English text that is not in the table and does not mention the old
      name is left unchanged. */
  lemma EnglishWithoutOldNameUnchanged(en: string)
    requires SpecificFor(en, false).None?
    requires !Occurs(en, OldEnGeneral)
    ensures NewEnglish(en) == en
  {
    if en != "" {
      ReplaceAllNoMatch(en, OldEnGeneral, NewEnGeneral);
    }
  }

  /** Korean text that is not in the table and mentions neither old name is
      left unchanged. */
  lemma KoreanWithoutOldNamesUnchanged(ko: string)
    requires SpecificFor(ko, true).None?
    requires !Occurs(ko, OldKoGeneral1) && !Occurs(ko, OldKoGeneral2)
    ensures NewKorean(ko) == ko
  {
    if ko != "" {
      ReplaceAllNoMatch(ko, OldKoGeneral2, NewKoGeneral);
      OccursLift(ko, OldKoGeneral1);
      SplicedNoMatch(Lift(ko), OldKoGeneral1, NewKoGeneral);
      LiftInjective(KoreanGeneral(ko), ko);
    }
  }

  /** The new name ends in a syllable with a final consonant, so a particle
      after it takes the form written after a consonant: "오멘패스를
      가로지르다는" becomes "마블 스파이더맨은". */
  lemma ParticleAfterNewNameIsRepaired()
    ensures HasFinalConsonant(NewKoGeneral[|NewKoGeneral| - 1])
    ensures KoreanGeneral(OldKoGeneral1 + "는") == NewKoGeneral + "은"
  {
    var ko := OldKoGeneral1 + "는";
    assert !Occurs(ko, OldKoGeneral2) by {
      forall i | 0 <= i <= |ko| ensures !MatchesAt(ko, OldKoGeneral2, i) {
      }
    }
    ReplaceAllNoMatch(ko, OldKoGeneral2, NewKoGeneral);
    var w := Lift(ko);
    var pat := Lift(OldKoGeneral1);
    assert w[0..|pat|] == pat;
    assert MatchesAt(w, pat, 0);
    assert Find(w, pat, 0) == Some(0);
    var rest := w[|pat|..];
    assert rest == [Ch('는')];
    var fixed := Fixed(rest, NewKoGeneral);
    assert fixed == [Ch('은')];
    assert Find(fixed, pat, 0).None?;
    assert Spliced(fixed, OldKoGeneral1, NewKoGeneral) == Some(fixed);
    assert w[..0] == [];
    assert Find(w, Lift(OldKoGeneral1), 0) == Some(0);
    assert w[0 + |OldKoGeneral1|..] == rest;
    assert Fixed(w[0 + |OldKoGeneral1|..], NewKoGeneral) == fixed;
    assert !(|NewKoGeneral| == 0 && ParticleAt(rest, 0));
    assert Spliced(w, OldKoGeneral1, NewKoGeneral) == Some(w[..0] + Lift(NewKoGeneral) + fixed);
    assert w[..0] + Lift(NewKoGeneral) == Lift(NewKoGeneral);
    LiftConcat(NewKoGeneral, "은");
    LiftInjective(KoreanGeneral(ko), NewKoGeneral + "은");
  }

  /** A row of the `Loc` table; an empty string stands for NULL. */
  datatype LocRow = LocRow(key: string, en: string, ko: string)

  /** One `UPDATE`: the new text for the row with this key. */
  datatype Update = Update(text: string, key: string)

  datatype Updates = Updates(en: seq<Update>, ko: seq<Update>)

  /** The updates one row yields under the column rewrites `newEn` and
      `newKo`: a column is updated exactly where its new text differs from
      the old one. */
  function RowUpdates(row: LocRow, newEn: string -> string, newKo: string -> string): Updates
  {
    var en := newEn(row.en);
    var ko := newKo(row.ko);
    Updates(if en != row.en then [Update(en, row.key)] else [],
            if ko != row.ko then [Update(ko, row.key)] else [])
  }

  /** The updates of the whole table, in row order. */
  function TableUpdates(rows: seq<LocRow>, newEn: string -> string, newKo: string -> string): Updates
    decreases |rows|
  {
    if rows == [] then Updates([], [])
    else
      var p := TableUpdates(rows[..|rows| - 1], newEn, newKo);
      var q := RowUpdates(rows[|rows| - 1], newEn, newKo);
      Updates(p.en + q.en, p.ko + q.ko)
  }

  /** Every update names a row whose text changed, with its new text; every
      row whose text changes gets its update. */
  lemma {:induction false} TableUpdatesMeaning(rows: seq<LocRow>, newEn: string -> string, newKo: string -> string)
    ensures forall u :: u in TableUpdates(rows, newEn, newKo).en <==>
              exists row :: row in rows && newEn(row.en) != row.en && u == Update(newEn(row.en), row.key)
    ensures forall u :: u in TableUpdates(rows, newEn, newKo).ko <==>
              exists row :: row in rows && newKo(row.ko) != row.ko && u == Update(newKo(row.ko), row.key)
    decreases |rows|
  {
    if rows != [] {
      var init := rows[..|rows| - 1];
      var last := rows[|rows| - 1];
      assert rows == init + [last];
      TableUpdatesMeaning(init, newEn, newKo);
    }
  }

  /** Adding a row adds its own updates after those of the rows before. */
  lemma TableUpdatesStep(rows: seq<LocRow>, i: nat, newEn: string -> string, newKo: string -> string)
    requires i < |rows|
    ensures var p := TableUpdates(rows[..i], newEn, newKo);
            var q := RowUpdates(rows[i], newEn, newKo);
            TableUpdates(rows[..i + 1], newEn, newKo) == Updates(p.en + q.en, p.ko + q.ko)
  {
    assert rows[..i + 1][..i] == rows[..i];
  }

  /** One row as the patch handles it: each column is tried against the
      table first, then rewritten with the general replacement. */
  method PatchRow(row: LocRow) returns (enUpdate: seq<Update>, koUpdate: seq<Update>)
    ensures Updates(enUpdate, koUpdate) == RowUpdates(row, NewEnglish, NewKorean)
  {
    var en := row.en;
    if en != "" {
      var specific := FindSpecific(en, false);
      if specific.Some? {
        en := specific.value;
      } else {
        en := ReplaceAll(en, OldEnGeneral, NewEnGeneral);
      }
    }
    var ko := row.ko;
    if ko != "" {
      var specific := FindSpecific(ko, true);
      if specific.Some? {
        ko := specific.value;
      } else {
        ko := KoreanGeneralLoop(ko);
      }
    }
    enUpdate := if en != row.en then [Update(en, row.key)] else [];
    koUpdate := if ko != row.ko then [Update(ko, row.key)] else [];
  }

  /** The patch of one client database: rows with neither text are
      skipped, the others yield their updates in row order. */
  method PatchExpansionNames(rows: seq<LocRow>) returns (enUpdates: seq<Update>, koUpdates: seq<Update>)
    ensures Updates(enUpdates, koUpdates) == TableUpdates(rows, NewEnglish, NewKorean)
  {
    enUpdates, koUpdates := [], [];
    for i := 0 to |rows|
      invariant Updates(enUpdates, koUpdates) == TableUpdates(rows[..i], NewEnglish, NewKorean)
    {
      TableUpdatesStep(rows, i, NewEnglish, NewKorean);
      var row := rows[i];
      if row.en == "" && row.ko == "" {
        assert RowUpdates(row, NewEnglish, NewKorean) == Updates([], []);
        assert enUpdates + [] == enUpdates && koUpdates + [] == koUpdates;
        continue;
      }
      var en, ko := PatchRow(row);
      enUpdates := enUpdates + en;
      koUpdates := koUpdates + ko;
    }
    assert rows[..|rows|] == rows;
  }

  /** The Korean general replacement as the patch runs it: the plain
      replacement, then, only when the Korean name occurs, the find/replace
      loop with particle repair. */
  method KoreanGeneralLoop(ko: string) returns (r: string)
    ensures r == KoreanGeneral(ko)
  {
    r := ReplaceAll(ko, OldKoGeneral2, NewKoGeneral);
    if Find(r, OldKoGeneral1, 0).Some? {
      var w := ReplaceWithParticles(Lift(r), OldKoGeneral1, NewKoGeneral);
      SplicedNeverFailsWithText(Lift(r), OldKoGeneral1, NewKoGeneral);
      SplicedKeepsPlaceholders(Lift(r), OldKoGeneral1, NewKoGeneral);
      PlaceholdersLift(r);
      RefsOfPlaceholders(w.value, 0);
      var t := PlainText(w.value);
      LiftInjective(t, KoreanGeneral(ko));
      r := t;
    } else {
      OccursLift(r, OldKoGeneral1);
      SplicedNoMatch(Lift(r), OldKoGeneral1, NewKoGeneral);
      LiftInjective(r, KoreanGeneral(ko));
    }
  }
}
