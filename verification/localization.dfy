/** The card-text part of the localization patch: every entry of the
    translation feed rewrites each `Formatted` variant of its LocId in the
    Korean localization table with the value chosen for that variant. */
module Localization {
  import opened Seqs

  /** One entry of the translation feed: the LocId it rewrites, the value
      for variant 0 and the optional value for variant 1. */
  datatype Translation = Translation(locId: int, formatted0: string, formatted1: Option<string>)

  /** A row of the Korean localization table: its LocId and `Formatted`
      variant (the text itself plays no part in the choice). */
  datatype KoVariant = KoVariant(locId: int, formatted: int)

  /** One `UPDATE`: the new text of the row with this LocId and variant. */
  datatype LocUpdate = LocUpdate(loc: string, locId: int, formatted: int)

  /** Python truthiness of an optional text. */
  predicate NonEmpty(v: Option<string>)
  {
    v.Some? && v.value != ""
  }

  /** The value a variant gets: variant 0 the plain value, variant 1 its own
      value or else the plain one, variant 2 the NFD form of the plain value;
      any other variant, or an empty chosen value, gets nothing. `nfd`
      stands for Unicode normalization form D. */
  function FormattedValue(formatted: int, t: Translation, nfd: string -> string): (r: Option<string>)
    ensures r.Some? ==> r.value != ""
    ensures formatted !in {0, 1, 2} ==> r.None?
    ensures formatted == 0 ==> r.Some? == (t.formatted0 != "") && (r.Some? ==> r.value == t.formatted0)
    ensures formatted == 1 && NonEmpty(t.formatted1) ==> r == t.formatted1
    ensures formatted == 2 ==> r.Some? == (nfd(t.formatted0) != "") && (r.Some? ==> r.value == nfd(t.formatted0))
  {
    var v :=
      if formatted == 0 then Some(t.formatted0)
      else if formatted == 1 then (if NonEmpty(t.formatted1) then t.formatted1 else Some(t.formatted0))
      else if formatted == 2 then Some(nfd(t.formatted0))
      else None;
    if NonEmpty(v) then v else None
  }

  /** Variant 1 without a value of its own is written like variant 0. */
  lemma VariantOneFallsBack(t: Translation, nfd: string -> string)
    requires !NonEmpty(t.formatted1)
    ensures FormattedValue(1, t, nfd) == FormattedValue(0, t, nfd)
  {
  }

  /** The variants of `locId` present in the table, in table order. */
  function VariantsOf(table: seq<KoVariant>, locId: int): (r: seq<int>)
    ensures forall f :: f in r <==> KoVariant(locId, f) in table
    decreases |table|
  {
    if table == [] then []
    else
      var init := table[..|table| - 1];
      var row := table[|table| - 1];
      assert table == init + [row];
      VariantsOf(init, locId) + (if row.locId == locId then [row.formatted] else [])
  }

  /** The updates of one feed entry over the variants found for its LocId. */
  function EntryUpdates(variants: seq<int>, t: Translation, nfd: string -> string): seq<LocUpdate>
    decreases |variants|
  {
    if variants == [] then []
    else
      var f := variants[|variants| - 1];
      EntryUpdates(variants[..|variants| - 1], t, nfd) +
        match FormattedValue(f, t, nfd)
        case Some(v) => [LocUpdate(v, t.locId, f)]
        case None => []
  }

  /** The updates of the whole feed, entry by entry, in feed order. */
  function FeedUpdates(table: seq<KoVariant>, feed: seq<Translation>, nfd: string -> string): seq<LocUpdate>
    decreases |feed|
  {
    if feed == [] then []
    else
      var t := feed[|feed| - 1];
      FeedUpdates(table, feed[..|feed| - 1], nfd) + EntryUpdates(VariantsOf(table, t.locId), t, nfd)
  }

  /** An entry writes exactly the variants that exist and get a value. */
  lemma {:induction false} EntryUpdatesMeaning(variants: seq<int>, t: Translation, nfd: string -> string)
    ensures forall u :: u in EntryUpdates(variants, t, nfd) <==>
              u.locId == t.locId && u.formatted in variants && FormattedValue(u.formatted, t, nfd) == Some(u.loc)
    decreases |variants|
  {
    if variants != [] {
      var init := variants[..|variants| - 1];
      assert variants == init + [variants[|variants| - 1]];
      EntryUpdatesMeaning(init, t, nfd);
    }
  }

  /** Every update of the feed rewrites a row of the table with the value
      its feed entry chooses for that variant, and every such row of every
      entry is rewritten. */
  lemma {:induction false} FeedUpdatesMeaning(table: seq<KoVariant>, feed: seq<Translation>, nfd: string -> string)
    ensures forall u :: u in FeedUpdates(table, feed, nfd) <==>
              KoVariant(u.locId, u.formatted) in table &&
              exists t :: t in feed && t.locId == u.locId && FormattedValue(u.formatted, t, nfd) == Some(u.loc)
    decreases |feed|
  {
    if feed != [] {
      var init := feed[..|feed| - 1];
      var t := feed[|feed| - 1];
      assert feed == init + [t];
      FeedUpdatesMeaning(table, init, nfd);
      EntryUpdatesMeaning(VariantsOf(table, t.locId), t, nfd);
    }
  }

  /** One feed entry as the patch runs it: for each variant found for the
      LocId, choose the value and write it when there is one. */
  method UpdateEntry(variants: seq<int>, t: Translation, nfd: string -> string) returns (updates: seq<LocUpdate>)
    ensures updates == EntryUpdates(variants, t, nfd)
  {
    updates := [];
    for i := 0 to |variants|
      invariant updates == EntryUpdates(variants[..i], t, nfd)
    {
      assert variants[..i + 1][..i] == variants[..i];
      var formatted := variants[i];
      var newValue: Option<string> := None;
      if formatted == 0 {
        newValue := Some(t.formatted0);
      } else if formatted == 1 {
        newValue := if NonEmpty(t.formatted1) then t.formatted1 else Some(t.formatted0);
      } else if formatted == 2 {
        newValue := Some(nfd(t.formatted0));
      }
      if NonEmpty(newValue) {
        updates := updates + [LocUpdate(newValue.value, t.locId, formatted)];
      } else {
        assert updates + [] == updates;
      }
    }
    assert variants[..|variants|] == variants;
  }

  /** The card-text rewrite of one card database: each feed entry in turn
      rewrites the variants of its LocId. */
  method UpdateCardTexts(table: seq<KoVariant>, feed: seq<Translation>, nfd: string -> string)
    returns (updates: seq<LocUpdate>)
    ensures updates == FeedUpdates(table, feed, nfd)
  {
    updates := [];
    for i := 0 to |feed|
      invariant updates == FeedUpdates(table, feed[..i], nfd)
    {
      assert feed[..i + 1][..i] == feed[..i];
      var variants := VariantsOf(table, feed[i].locId);
      var entry := UpdateEntry(variants, feed[i], nfd);
      updates := updates + entry;
    }
    assert feed[..|feed|] == feed;
  }
}
