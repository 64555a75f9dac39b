/** One run of the ability-text patch over the card database. For every
    translation record with a title id, the card's ability texts are found
    and rewritten: English rows with `str.replace`, Korean rows with the
    particle-repairing loop, creature types protected in both. Rows whose
    text changes become updates; the updates are written together at the
    end, and an exception anywhere discards them all. */
module AbilityRun {
  import opened Seqs
  import opened Lists
  import opened Pairs
  import opened Protection
  import opened AbilityIds

  /** One translation record: the title id (0 when the record has none)
      and the old and new names. */
  datatype Record = Record(titleId: int, names: Names)

  datatype CardRow = CardRow(titleId: int, abilityIds: Option<string>, hiddenAbilityIds: Option<string>)

  datatype AbilityRow = AbilityRow(id: string, textId: string)

  datatype EnRow = EnRow(locId: string, loc: string)

  datatype KoRow = KoRow(locId: string, loc: string, formatted: int)

  /** The tables the run reads, each in table order. `subtypeIds` holds the
      LocIds of the `SubType` enums (empty when the Enums table is missing). */
  datatype CardDb = CardDb(
    subtypeIds: set<string>,
    cards: seq<CardRow>,
    abilities: seq<AbilityRow>,
    en: seq<EnRow>,
    ko: seq<KoRow>)

  datatype EnUpdate = EnUpdate(loc: string, locId: string)

  datatype KoUpdate = KoUpdate(loc: string, locId: string, formatted: int)

  datatype Updates = Updates(en: seq<EnUpdate>, ko: seq<KoUpdate>)

  /** The protected creature types per script, longest first. */
  datatype Types = Types(en: seq<string>, koNfc: seq<string>, koNfd: seq<string>)

  function Length(s: string): nat
  {
    |s|
  }

  /** The English texts of the given LocIds, in table order. */
  function EnTexts(rows: seq<EnRow>, ids: set<string>): (r: seq<string>)
    ensures forall t :: t in r <==> exists row :: row in rows && row.locId in ids && row.loc == t
    decreases |rows|
  {
    if rows == [] then []
    else
      var last := rows[|rows| - 1];
      assert rows == rows[..|rows| - 1] + [last];
      EnTexts(rows[..|rows| - 1], ids) + (if last.locId in ids then [last.loc] else [])
  }

  /** The Korean texts of the given LocIds, in table order: the NFD ones
      (Formatted 2) or all the others. */
  function KoTexts(rows: seq<KoRow>, ids: set<string>, nfd: bool): (r: seq<string>)
    ensures forall t :: t in r <==>
              exists row :: row in rows && row.locId in ids && (row.formatted == 2) == nfd && row.loc == t
    decreases |rows|
  {
    if rows == [] then []
    else
      var last := rows[|rows| - 1];
      assert rows == rows[..|rows| - 1] + [last];
      KoTexts(rows[..|rows| - 1], ids, nfd) +
      (if last.locId in ids && (last.formatted == 2) == nfd then [last.loc] else [])
  }

  /** The creature-type names of the run, each list distinct and sorted
      longest first. */
  function CreatureTypes(db: CardDb): (t: Types)
    ensures forall x :: x in t.en <==> x in EnTexts(db.en, db.subtypeIds)
    ensures forall x :: x in t.koNfc <==> x in KoTexts(db.ko, db.subtypeIds, false)
    ensures forall x :: x in t.koNfd <==> x in KoTexts(db.ko, db.subtypeIds, true)
    ensures SortedDesc(t.en, Length) && SortedDesc(t.koNfc, Length) && SortedDesc(t.koNfd, Length)
  {
    Types(
      SortedDistinct(EnTexts(db.en, db.subtypeIds), Length),
      SortedDistinct(KoTexts(db.ko, db.subtypeIds, false), Length),
      SortedDistinct(KoTexts(db.ko, db.subtypeIds, true), Length))
  }

  /** `fetchone()` of the card query: the first row with the title id. */
  function FirstCard(cards: seq<CardRow>, titleId: int): (r: Option<CardRow>)
    ensures r.Some? ==> r.value in cards && r.value.titleId == titleId
    ensures r.None? ==> forall c :: c in cards ==> c.titleId != titleId
  {
    if cards == [] then None
    else if cards[0].titleId == titleId then Some(cards[0])
    else FirstCard(cards[1..], titleId)
  }

  /** The non-zero TextIds of the looked-up abilities. */
  function LookedUpTextIds(abilities: seq<AbilityRow>, lookup: set<string>): set<string>
  {
    set a | a in abilities && a.id in lookup && a.textId != "0" :: a.textId
  }

  /** The LocIds of a card's ability texts: the direct ids and the looked-up
      ones, without the empty id. */
  function TextIds(db: CardDb, card: CardRow): set<string>
  {
    var ids := Classified(Parts(card.abilityIds, card.hiddenAbilityIds));
    set t | t in DirectIds(ids) + LookedUpTextIds(db.abilities, LookupIds(ids)) && t != ""
  }

  /** The English updates for the rows of the given LocIds. Each update
      carries a changed text for an existing row. */
  function EnUpdatesOf(rows: seq<EnRow>, ids: set<string>, terms: seq<string>, pairs: seq<Pair>)
    : (r: seq<EnUpdate>)
    requires Protectable(terms) && UsableBefores(pairs)
    ensures forall u :: u in r ==>
              exists row :: row in rows && row.locId in ids && row.locId == u.locId && row.loc != u.loc
    decreases |rows|
  {
    if rows == [] then []
    else
      var init := rows[..|rows| - 1];
      var last := rows[|rows| - 1];
      assert forall row :: row in init ==> row in rows;
      var text := Substituted(last.loc, terms, pairs);
      EnUpdatesOf(init, ids, terms, pairs) +
      (if last.locId in ids && text != last.loc then [EnUpdate(text, last.locId)] else [])
  }

  /** The Korean updates for the rows of the given LocIds; the NFD rows use
      the NFD types and pairs. None when the loop raises on some row. Each
      update carries a changed text for an existing row. */
  function KoUpdatesOf(rows: seq<KoRow>, ids: set<string>, types: Types, reps: Replacements)
    : (r: Option<seq<KoUpdate>>)
    requires Protectable(types.koNfc) && Protectable(types.koNfd)
    requires UsableBefores(reps.koNfc) && UsableBefores(reps.koNfd)
    ensures r.Some? ==> forall u :: u in r.value ==>
              exists row :: row in rows && row.locId in ids && row.locId == u.locId
                            && row.formatted == u.formatted && row.loc != u.loc
    decreases |rows|
  {
    if rows == [] then Some([])
    else
      var init := rows[..|rows| - 1];
      var last := rows[|rows| - 1];
      assert forall row :: row in init ==> row in rows;
      match KoUpdatesOf(init, ids, types, reps)
      case None => None
      case Some(prior) =>
        if last.locId !in ids then Some(prior)
        else
          match KoRewrite(last, types, reps)
          case None => None
          case Some(text) =>
            Some(prior + (if text != last.loc then [KoUpdate(text, last.locId, last.formatted)] else []))
  }

  /** The Korean rewrite of one row: the NFD rows (Formatted 2) with the
      NFD types and pairs, the others with the NFC ones. */
  function KoRewrite(row: KoRow, types: Types, reps: Replacements): Option<string>
    requires Protectable(types.koNfc) && Protectable(types.koNfd)
    requires UsableBefores(reps.koNfc) && UsableBefores(reps.koNfd)
  {
    if row.formatted == 2 then KoreanSubstituted(row.loc, types.koNfd, reps.koNfd)
    else KoreanSubstituted(row.loc, types.koNfc, reps.koNfc)
  }

  /** `u` is the update of an asked English row that its rewrite changes. */
  predicate EnRewrites(rows: seq<EnRow>, ids: set<string>, terms: seq<string>, pairs: seq<Pair>, u: EnUpdate)
    requires Protectable(terms) && UsableBefores(pairs)
  {
    exists row :: row in rows && row.locId in ids &&
      u == EnUpdate(Substituted(row.loc, terms, pairs), row.locId) && u.loc != row.loc
  }

  /** `u` is the update of an asked Korean row that its rewrite changes. */
  predicate KoRewrites(rows: seq<KoRow>, ids: set<string>, types: Types, reps: Replacements, u: KoUpdate)
    requires Protectable(types.koNfc) && Protectable(types.koNfd)
    requires UsableBefores(reps.koNfc) && UsableBefores(reps.koNfd)
  {
    exists row :: row in rows && row.locId in ids && KoRewrite(row, types, reps) == Some(u.loc) &&
      u.locId == row.locId && u.formatted == row.formatted && u.loc != row.loc
  }

  /** The Korean rewrite raises on some asked row. */
  predicate KoRaises(rows: seq<KoRow>, ids: set<string>, types: Types, reps: Replacements)
    requires Protectable(types.koNfc) && Protectable(types.koNfd)
    requires UsableBefores(reps.koNfc) && UsableBefores(reps.koNfd)
  {
    exists row :: row in rows && row.locId in ids && KoRewrite(row, types, reps).None?
  }

  /** The English updates are exactly the changed rewrites of the asked rows. */
  lemma {:induction false} EnUpdatesMeaning(rows: seq<EnRow>, ids: set<string>, terms: seq<string>, pairs: seq<Pair>)
    requires Protectable(terms) && UsableBefores(pairs)
    ensures forall u :: u in EnUpdatesOf(rows, ids, terms, pairs) <==> EnRewrites(rows, ids, terms, pairs, u)
    decreases |rows|
  {
    if rows != [] {
      var init := rows[..|rows| - 1];
      assert rows == init + [rows[|rows| - 1]];
      EnUpdatesMeaning(init, ids, terms, pairs);
    }
  }

  /** The Korean rows raise exactly when some asked row's rewrite raises;
      otherwise the updates are exactly the changed rewrites of the asked
      rows. */
  lemma {:induction false} KoUpdatesMeaning(rows: seq<KoRow>, ids: set<string>, types: Types, reps: Replacements)
    requires Protectable(types.koNfc) && Protectable(types.koNfd)
    requires UsableBefores(reps.koNfc) && UsableBefores(reps.koNfd)
    ensures KoUpdatesOf(rows, ids, types, reps).None? <==> KoRaises(rows, ids, types, reps)
    ensures KoUpdatesOf(rows, ids, types, reps).Some? ==>
              forall u :: u in KoUpdatesOf(rows, ids, types, reps).value <==> KoRewrites(rows, ids, types, reps, u)
    decreases |rows|
  {
    if rows != [] {
      var init := rows[..|rows| - 1];
      assert rows == init + [rows[|rows| - 1]];
      KoUpdatesMeaning(init, ids, types, reps);
    }
  }

  /** Every English update rewrites an existing row to a different text. */
  predicate EnChanges(ups: seq<EnUpdate>, rows: seq<EnRow>)
  {
    forall u :: u in ups ==> exists row :: row in rows && row.locId == u.locId && row.loc != u.loc
  }

  /** Every Korean update rewrites an existing row (the same LocId and
      Formatted variant) to a different text. */
  predicate KoChanges(ups: seq<KoUpdate>, rows: seq<KoRow>)
  {
    forall u :: u in ups ==>
      exists row :: row in rows && row.locId == u.locId && row.formatted == u.formatted && row.loc != u.loc
  }

  lemma ChangesConcat(a: Updates, b: Updates, db: CardDb)
    requires EnChanges(a.en, db.en) && EnChanges(b.en, db.en)
    requires KoChanges(a.ko, db.ko) && KoChanges(b.ko, db.ko)
    ensures EnChanges(a.en + b.en, db.en) && KoChanges(a.ko + b.ko, db.ko)
  {
  }

  /** The creature-type names of every script are non-empty. */
  predicate TypesUsable(db: CardDb)
  {
    && Protectable(CreatureTypes(db).en)
    && Protectable(CreatureTypes(db).koNfc)
    && Protectable(CreatureTypes(db).koNfd)
  }

  /** The `before` of every pair derived from the record is non-empty. */
  predicate RecordUsable(rec: Record, onlyEnglish: bool)
  {
    var reps := ReplacementsFor(rec.names, onlyEnglish);
    UsableBefores(reps.en) && UsableBefores(reps.koNfc) && UsableBefores(reps.koNfd)
  }

  /** The LocIds whose rows a record rewrites: none without a title id or
      without a card row, else the card's text ids. */
  function AskedIds(db: CardDb, rec: Record): set<string>
  {
    if rec.titleId == 0 then {}
    else
      match FirstCard(db.cards, rec.titleId)
      case None => {}
      case Some(card) => TextIds(db, card)
  }

  /** A record that reaches the row loops meets them with non-empty
      creature-type names and non-empty `before`s. */
  predicate RecordReady(db: CardDb, rec: Record, onlyEnglish: bool)
  {
    AskedIds(db, rec) != {} ==> TypesUsable(db) && RecordUsable(rec, onlyEnglish)
  }

  /** The data the run needs to be well defined: every record is ready. */
  predicate WellFormed(db: CardDb, records: seq<Record>, onlyEnglish: bool)
  {
    forall rec :: rec in records ==> RecordReady(db, rec, onlyEnglish)
  }

  /** The updates one record contributes; None when the Korean loop raises. */
  function RecordUpdates(db: CardDb, rec: Record, onlyEnglish: bool): (r: Option<Updates>)
    requires RecordReady(db, rec, onlyEnglish)
    ensures onlyEnglish ==> r.Some? && r.value.ko == []
    ensures r.Some? ==> EnChanges(r.value.en, db.en)
    ensures r.Some? ==> KoChanges(r.value.ko, db.ko)
  {
    var ids := AskedIds(db, rec);
    if ids == {} then Some(Updates([], []))
    else IdUpdates(db, ids, CreatureTypes(db), ReplacementsFor(rec.names, onlyEnglish), onlyEnglish)
  }

  /** The updates of the rows whose LocId is in `ids`; None when the
      Korean loop raises. */
  function IdUpdates(db: CardDb, ids: set<string>, types: Types, reps: Replacements, onlyEnglish: bool)
    : (r: Option<Updates>)
    requires Protectable(types.en) && Protectable(types.koNfc) && Protectable(types.koNfd)
    requires UsableBefores(reps.en) && UsableBefores(reps.koNfc) && UsableBefores(reps.koNfd)
    ensures onlyEnglish ==> r.Some? && r.value.ko == []
    ensures r.Some? ==> EnChanges(r.value.en, db.en)
    ensures r.Some? ==> KoChanges(r.value.ko, db.ko)
  {
    var en := EnUpdatesOf(db.en, ids, types.en, reps.en);
    if onlyEnglish then Some(Updates(en, []))
    else
      match KoUpdatesOf(db.ko, ids, types, reps)
      case None => None
      case Some(ko) => Some(Updates(en, ko))
  }

  /** The updates of the asked rows are exactly their changed rewrites;
      they raise exactly when, outside the English-only run, some asked
      Korean row's rewrite raises. */
  lemma IdUpdatesMeaning(db: CardDb, ids: set<string>, types: Types, reps: Replacements, onlyEnglish: bool)
    requires Protectable(types.en) && Protectable(types.koNfc) && Protectable(types.koNfd)
    requires UsableBefores(reps.en) && UsableBefores(reps.koNfc) && UsableBefores(reps.koNfd)
    ensures IdUpdates(db, ids, types, reps, onlyEnglish).None? <==> !onlyEnglish && KoRaises(db.ko, ids, types, reps)
    ensures IdUpdates(db, ids, types, reps, onlyEnglish).Some? ==>
              forall u :: u in IdUpdates(db, ids, types, reps, onlyEnglish).value.en <==>
                EnRewrites(db.en, ids, types.en, reps.en, u)
    ensures IdUpdates(db, ids, types, reps, onlyEnglish).Some? && !onlyEnglish ==>
              forall u :: u in IdUpdates(db, ids, types, reps, onlyEnglish).value.ko <==>
                KoRewrites(db.ko, ids, types, reps, u)
  {
    EnUpdatesMeaning(db.en, ids, types.en, reps.en);
    KoUpdatesMeaning(db.ko, ids, types, reps);
  }

  /** A record's updates are exactly the changed rewrites of the rows it
      asks for, with the run's creature types and the record's pairs; it
      raises exactly when, outside the English-only run, some asked Korean
      row's rewrite raises. A record that asks for no row contributes
      nothing. */
  lemma RecordUpdatesMeaning(db: CardDb, rec: Record, onlyEnglish: bool)
    requires RecordReady(db, rec, onlyEnglish)
    ensures AskedIds(db, rec) == {} ==> RecordUpdates(db, rec, onlyEnglish) == Some(Updates([], []))
    ensures AskedIds(db, rec) != {} ==>
              var ids, types, reps := AskedIds(db, rec), CreatureTypes(db), ReplacementsFor(rec.names, onlyEnglish);
              && (RecordUpdates(db, rec, onlyEnglish).None? <==> !onlyEnglish && KoRaises(db.ko, ids, types, reps))
              && (RecordUpdates(db, rec, onlyEnglish).Some? ==>
                    forall u :: u in RecordUpdates(db, rec, onlyEnglish).value.en <==>
                      EnRewrites(db.en, ids, types.en, reps.en, u))
              && (RecordUpdates(db, rec, onlyEnglish).Some? && !onlyEnglish ==>
                    forall u :: u in RecordUpdates(db, rec, onlyEnglish).value.ko <==>
                      KoRewrites(db.ko, ids, types, reps, u))
  {
    if AskedIds(db, rec) != {} {
      IdUpdatesMeaning(db, AskedIds(db, rec), CreatureTypes(db), ReplacementsFor(rec.names, onlyEnglish), onlyEnglish);
    }
  }

  /** The whole run: the records' updates in record order, or None when
      any record raises (nothing is committed then). */
  function RunOf(db: CardDb, records: seq<Record>, onlyEnglish: bool): (r: Option<Updates>)
    requires WellFormed(db, records, onlyEnglish)
    ensures onlyEnglish ==> r.Some? && r.value.ko == []
    ensures r.Some? ==> EnChanges(r.value.en, db.en)
    ensures r.Some? ==> KoChanges(r.value.ko, db.ko)
    decreases |records|
  {
    if records == [] then Some(Updates([], []))
    else
      var init := records[..|records| - 1];
      var last := records[|records| - 1];
      assert forall rec :: rec in init ==> rec in records;
      assert last in records;
      match RunOf(db, init, onlyEnglish)
      case None => None
      case Some(prior) =>
        match RecordUpdates(db, last, onlyEnglish)
        case None => None
        case Some(u) =>
          ChangesConcat(prior, u, db);
          Some(Updates(prior.en + u.en, prior.ko + u.ko))
  }

  lemma {:induction false} NoIdsNoUpdates(db: CardDb, types: Types, reps: Replacements, rowsEn: seq<EnRow>, rowsKo: seq<KoRow>)
    requires Protectable(types.en) && Protectable(types.koNfc) && Protectable(types.koNfd)
    requires UsableBefores(reps.en) && UsableBefores(reps.koNfc) && UsableBefores(reps.koNfd)
    ensures EnUpdatesOf(rowsEn, {}, types.en, reps.en) == []
    ensures KoUpdatesOf(rowsKo, {}, types, reps) == Some([])
    decreases |rowsEn| + |rowsKo|
  {
    if rowsEn != [] {
      NoIdsNoUpdates(db, types, reps, rowsEn[..|rowsEn| - 1], rowsKo);
    }
    if rowsKo != [] {
      NoIdsNoUpdates(db, types, reps, rowsEn, rowsKo[..|rowsKo| - 1]);
    }
  }

  /** The loop over the English rows of one card. */
  method EnglishRowUpdates(rows: seq<EnRow>, ids: set<string>, terms: seq<string>, pairs: seq<Pair>)
    returns (ups: seq<EnUpdate>)
    requires Protectable(terms) && UsableBefores(pairs)
    ensures ups == EnUpdatesOf(rows, ids, terms, pairs)
  {
    ups := [];
    for k := 0 to |rows|
      invariant ups == EnUpdatesOf(rows[..k], ids, terms, pairs)
    {
      assert rows[..k + 1][..k] == rows[..k];
      var row := rows[k];
      if row.locId in ids {
        var text := RewriteEnglish(row.loc, terms, pairs);
        if text != row.loc {
          ups := ups + [EnUpdate(text, row.locId)];
        }
      }
    }
    assert rows[..|rows|] == rows;
  }

  /** The loop over the Korean rows of one card; None when it raises. */
  method KoreanRowUpdates(rows: seq<KoRow>, ids: set<string>, types: Types, reps: Replacements)
    returns (ups: Option<seq<KoUpdate>>)
    requires Protectable(types.koNfc) && Protectable(types.koNfd)
    requires UsableBefores(reps.koNfc) && UsableBefores(reps.koNfd)
    ensures ups == KoUpdatesOf(rows, ids, types, reps)
  {
    var acc: seq<KoUpdate> := [];
    for k := 0 to |rows|
      invariant KoUpdatesOf(rows[..k], ids, types, reps) == Some(acc)
    {
      var row := rows[k];
      ghost var pre := rows[..k + 1];
      assert pre[..|pre| - 1] == rows[..k] && pre[|pre| - 1] == row;
      if row.locId in ids {
        var nfd := row.formatted == 2;
        var terms := if nfd then types.koNfd else types.koNfc;
        var pairs := if nfd then reps.koNfd else reps.koNfc;
        var text := RewriteKorean(row.loc, terms, pairs);
        if text.None? {
          NoneStaysNone(rows, k + 1, ids, types, reps);
          return None;
        }
        assert KoRewrite(row, types, reps) == text;
        assert KoUpdatesOf(pre, ids, types, reps) ==
               Some(acc + (if text.value != row.loc then [KoUpdate(text.value, row.locId, row.formatted)] else []));
        if text.value != row.loc {
          acc := acc + [KoUpdate(text.value, row.locId, row.formatted)];
        } else {
          assert acc + [] == acc;
        }
      } else {
        assert KoUpdatesOf(pre, ids, types, reps) == Some(acc);
      }
    }
    assert rows[..|rows|] == rows;
    return Some(acc);
  }

  /** Once a prefix of the rows raises, so do all the rows. */
  lemma {:induction false} NoneStaysNone(rows: seq<KoRow>, k: nat, ids: set<string>, types: Types, reps: Replacements)
    requires Protectable(types.koNfc) && Protectable(types.koNfd)
    requires UsableBefores(reps.koNfc) && UsableBefores(reps.koNfd)
    requires k <= |rows| && KoUpdatesOf(rows[..k], ids, types, reps).None?
    ensures KoUpdatesOf(rows, ids, types, reps).None?
    decreases |rows| - k
  {
    if k < |rows| {
      assert rows[..k + 1][..k] == rows[..k];
      NoneStaysNone(rows, k + 1, ids, types, reps);
    } else {
      assert rows[..k] == rows;
    }
  }

  /** The body of the record loop: the updates of one record. */
  method UpdatesForRecord(db: CardDb, types: Types, rec: Record, onlyEnglish: bool)
    returns (u: Option<Updates>)
    requires RecordReady(db, rec, onlyEnglish) && types == CreatureTypes(db)
    ensures u == RecordUpdates(db, rec, onlyEnglish)
  {
    if rec.titleId == 0 {
      return Some(Updates([], []));
    }
    var card := FirstCard(db.cards, rec.titleId);
    if card.None? {
      return Some(Updates([], []));
    }
    var reps := ReplacementsFor(rec.names, onlyEnglish);
    var ids := CardTextIds(db, card.value);
    if ids == {} {
      return Some(Updates([], []));
    }
    u := UpdatesForIds(db, ids, types, reps, onlyEnglish);
  }

  /** The ability-text LocIds of the card the record's title names. */
  method CardTextIds(db: CardDb, card: CardRow) returns (ids: set<string>)
    ensures ids == TextIds(db, card)
  {
    var direct, lookup := ParseAbilityIds(card.abilityIds, card.hiddenAbilityIds);
    var found := LookedUpTextIds(db.abilities, lookup);
    ids := set t | t in direct + found && t != "";
  }

  /** The rest of the record loop's body: the English rows, then, unless
      only English runs, the Korean rows. */
  method UpdatesForIds(db: CardDb, ids: set<string>, types: Types, reps: Replacements, onlyEnglish: bool)
    returns (u: Option<Updates>)
    requires Protectable(types.en) && Protectable(types.koNfc) && Protectable(types.koNfd)
    requires UsableBefores(reps.en) && UsableBefores(reps.koNfc) && UsableBefores(reps.koNfd)
    ensures u == IdUpdates(db, ids, types, reps, onlyEnglish)
  {
    var en := EnglishRowUpdates(db.en, ids, types.en, reps.en);
    if onlyEnglish {
      return Some(Updates(en, []));
    }
    var ko := KoreanRowUpdates(db.ko, ids, types, reps);
    if ko.None? {
      return None;
    }
    return Some(Updates(en, ko.value));
  }

  /** `update_ability_text`: the loop over the translation records. */
  method UpdateAbilityText(db: CardDb, records: seq<Record>, onlyEnglish: bool) returns (r: Option<Updates>)
    requires WellFormed(db, records, onlyEnglish)
    ensures r == RunOf(db, records, onlyEnglish)
  {
    var types := CreatureTypes(db);
    var en: seq<EnUpdate>, ko: seq<KoUpdate> := [], [];
    for i := 0 to |records|
      invariant RunOf(db, records[..i], onlyEnglish) == Some(Updates(en, ko))
    {
      assert records[..i + 1][..i] == records[..i];
      assert records[..i + 1][i] == records[i];
      assert records[i] in records;
      var u := UpdatesForRecord(db, types, records[i], onlyEnglish);
      if u.None? {
        RunStaysNone(db, records, i + 1, onlyEnglish);
        return None;
      }
      en, ko := en + u.value.en, ko + u.value.ko;
    }
    assert records[..|records|] == records;
    return Some(Updates(en, ko));
  }

  /** Every prefix of well-formed records is well formed. */
  lemma WellFormedPrefix(db: CardDb, records: seq<Record>, k: nat, onlyEnglish: bool)
    requires WellFormed(db, records, onlyEnglish) && k <= |records|
    ensures WellFormed(db, records[..k], onlyEnglish)
  {
    assert forall rec :: rec in records[..k] ==> rec in records;
  }

  /** The run raises exactly when some record raises; otherwise its
      updates are exactly those of its records. */
  lemma {:induction false} RunOfMeaning(db: CardDb, records: seq<Record>, onlyEnglish: bool)
    requires WellFormed(db, records, onlyEnglish)
    ensures RunOf(db, records, onlyEnglish).None? <==>
              exists rec :: rec in records && RecordUpdates(db, rec, onlyEnglish).None?
    ensures RunOf(db, records, onlyEnglish).Some? ==>
              forall u :: u in RunOf(db, records, onlyEnglish).value.en <==>
                exists rec :: rec in records && RecordUpdates(db, rec, onlyEnglish).Some? &&
                  u in RecordUpdates(db, rec, onlyEnglish).value.en
    ensures RunOf(db, records, onlyEnglish).Some? ==>
              forall u :: u in RunOf(db, records, onlyEnglish).value.ko <==>
                exists rec :: rec in records && RecordUpdates(db, rec, onlyEnglish).Some? &&
                  u in RecordUpdates(db, rec, onlyEnglish).value.ko
    decreases |records|
  {
    if records != [] {
      var init := records[..|records| - 1];
      var last := records[|records| - 1];
      assert records == init + [last];
      assert forall rec :: rec in records <==> rec in init || rec == last;
      WellFormedPrefix(db, records, |records| - 1, onlyEnglish);
      RunOfMeaning(db, init, onlyEnglish);
    }
  }

  /** A run whose records but the last raise raises too. */
  lemma RunExtendsNone(db: CardDb, records: seq<Record>, onlyEnglish: bool)
    requires records != [] && WellFormed(db, records, onlyEnglish)
    requires WellFormed(db, records[..|records| - 1], onlyEnglish)
    requires RunOf(db, records[..|records| - 1], onlyEnglish).None?
    ensures RunOf(db, records, onlyEnglish).None?
  {
  }

  /** Once a prefix of the records raises, the whole run does. */
  lemma {:induction false} RunStaysNone(db: CardDb, records: seq<Record>, k: nat, onlyEnglish: bool)
    requires WellFormed(db, records, onlyEnglish) && k <= |records|
    requires WellFormed(db, records[..k], onlyEnglish) && RunOf(db, records[..k], onlyEnglish).None?
    ensures RunOf(db, records, onlyEnglish).None?
    decreases |records| - k
  {
    if k < |records| {
      var next := records[..k + 1];
      WellFormedPrefix(db, records, k + 1, onlyEnglish);
      assert next[..|next| - 1] == records[..k];
      RunExtendsNone(db, next, onlyEnglish);
      RunStaysNone(db, records, k + 1, onlyEnglish);
    } else {
      assert records[..k] == records;
    }
  }
}
