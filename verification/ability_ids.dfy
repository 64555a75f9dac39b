/** Parsing of a card's ability-id columns. The two columns are joined with
    a comma and split on commas; each piece is stripped. A piece of the form
    `x:y` names a localization id directly (the text after the first colon);
    any other non-empty piece is an ability id to look up. */
module AbilityIds {
  import opened Seqs
  import opened PyText

  /** `value or ''` for a column that may be NULL. */
  function OrEmpty(s: Option<string>): string
  {
    if s.Some? then s.value else ""
  }

  /** The pieces of `(ability_ids or '') + ',' + (hidden_ability_ids or '')`. */
  function Parts(abilityIds: Option<string>, hidden: Option<string>): (r: seq<string>)
    ensures r == Split(OrEmpty(abilityIds), ',') + Split(OrEmpty(hidden), ',')
  {
    SplitAround(OrEmpty(abilityIds), OrEmpty(hidden), ',');
    Split(OrEmpty(abilityIds) + [','] + OrEmpty(hidden), ',')
  }

  /** Where one piece goes. */
  datatype Id = Direct(locId: string) | Lookup(abilityId: string)

  /** The destination of one piece: none for a blank piece, the direct set
      for a piece with a colon, the lookup set otherwise. */
  function Classify(part: string): Option<Id>
  {
    var q := Strip(part);
    if q == "" then None
    else if ':' in q then Some(Direct(Strip(AfterFirst(q, ':'))))
    else Some(Lookup(q))
  }

  /** A blank piece goes nowhere; a piece with a colon gives a direct id
      shorter than itself; any other piece is looked up as it stands. */
  lemma ClassifyMeaning(part: string)
    ensures Classify(part).None? <==> Strip(part) == ""
    ensures Classify(part).Some? && Classify(part).value.Lookup? ==>
              ':' !in Strip(part) && Classify(part).value.abilityId == Strip(part)
    ensures Classify(part).Some? && Classify(part).value.Direct? ==>
              ':' in Strip(part) && |Classify(part).value.locId| < |Strip(part)|
  {
    var q := Strip(part);
    if q != "" && ':' in q {
      StripIsFactor(AfterFirst(q, ':'));
    }
  }

  /** The destinations of the pieces, in order. */
  function Classified(parts: seq<string>): (ids: seq<Option<Id>>)
    ensures |ids| == |parts|
    ensures forall i :: 0 <= i < |parts| ==> ids[i] == Classify(parts[i])
  {
    seq(|parts|, i requires 0 <= i < |parts| => Classify(parts[i]))
  }

  /** The direct set built from classified pieces. */
  function DirectIds(ids: seq<Option<Id>>): set<string>
  {
    if ids == [] then {}
    else DirectIds(ids[..|ids| - 1]) + (match ids[|ids| - 1] case Some(Direct(x)) => {x} case _ => {})
  }

  /** The lookup set built from classified pieces. */
  function LookupIds(ids: seq<Option<Id>>): set<string>
  {
    if ids == [] then {}
    else LookupIds(ids[..|ids| - 1]) + (match ids[|ids| - 1] case Some(Lookup(x)) => {x} case _ => {})
  }

  /** An id is in a set exactly when some piece is classified into it. */
  lemma {:induction false} IdSetsMembers(ids: seq<Option<Id>>, x: string)
    ensures x in DirectIds(ids) <==> Some(Direct(x)) in ids
    ensures x in LookupIds(ids) <==> Some(Lookup(x)) in ids
    decreases |ids|
  {
    if ids != [] {
      var init := ids[..|ids| - 1];
      IdSetsMembers(init, x);
      assert ids == init + [ids[|ids| - 1]];
    }
  }

  /** One more classified piece adds at most its own id to one set. */
  lemma IdSetsStep(ids: seq<Option<Id>>, i: nat)
    requires i < |ids|
    ensures DirectIds(ids[..i + 1]) ==
              DirectIds(ids[..i]) + (match ids[i] case Some(Direct(x)) => {x} case _ => {})
    ensures LookupIds(ids[..i + 1]) ==
              LookupIds(ids[..i]) + (match ids[i] case Some(Lookup(x)) => {x} case _ => {})
  {
    assert ids[..i + 1][..i] == ids[..i];
  }

  /** The loop over the classified pieces, filling the two sets. */
  method CollectIds(ids: seq<Option<Id>>) returns (direct: set<string>, lookup: set<string>)
    ensures direct == DirectIds(ids)
    ensures lookup == LookupIds(ids)
  {
    direct, lookup := {}, {};
    for i := 0 to |ids|
      invariant direct == DirectIds(ids[..i])
      invariant lookup == LookupIds(ids[..i])
    {
      IdSetsStep(ids, i);
      match ids[i] {
        case None =>
        case Some(Direct(x)) => direct := direct + {x};
        case Some(Lookup(x)) => lookup := lookup + {x};
      }
    }
    assert ids[..|ids|] == ids;
  }

  /** Parsing a card's two ability-id columns into the direct and lookup
      sets. */
  method ParseAbilityIds(abilityIds: Option<string>, hidden: Option<string>)
    returns (direct: set<string>, lookup: set<string>)
    ensures direct == DirectIds(Classified(Parts(abilityIds, hidden)))
    ensures lookup == LookupIds(Classified(Parts(abilityIds, hidden)))
  {
    var parts := Parts(abilityIds, hidden);
    direct, lookup := CollectIds(Classified(parts));
  }

  /** Each non-empty piece lands in exactly one of the two sets, and every
      id in either set comes from some piece. */
  lemma EachPieceLandsOnce(parts: seq<string>, p: string, x: string)
    requires p in parts && Strip(p) != ""
    ensures ':' in Strip(p) ==> Strip(AfterFirst(Strip(p), ':')) in DirectIds(Classified(parts))
    ensures ':' !in Strip(p) ==> Strip(p) in LookupIds(Classified(parts))
    ensures x in DirectIds(Classified(parts)) ==> exists q :: q in parts && Classify(q) == Some(Direct(x))
    ensures x in LookupIds(Classified(parts)) ==> exists q :: q in parts && Classify(q) == Some(Lookup(x))
  {
    var ids := Classified(parts);
    var i :| 0 <= i < |parts| && parts[i] == p;
    assert ids[i] == Classify(p);
    IdSetsMembers(ids, x);
    if ':' in Strip(p) {
      IdSetsMembers(ids, Strip(AfterFirst(Strip(p), ':')));
    } else {
      IdSetsMembers(ids, Strip(p));
    }
    if Some(Direct(x)) in ids {
      var j :| 0 <= j < |ids| && ids[j] == Some(Direct(x));
      assert parts[j] in parts;
    }
    if Some(Lookup(x)) in ids {
      var j :| 0 <= j < |ids| && ids[j] == Some(Lookup(x));
      assert parts[j] in parts;
    }
  }
}
