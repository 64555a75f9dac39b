/** The selection rules of the card-art patch: the display name of a
    target card, the key a name is looked up under in the card catalog,
    the catalog entry a card uses, and the catalog set codes searched for
    an expansion code. */
module CardNames {
  import opened Seqs
  import opened PyText

  /** The characters a catalog key may hold: `[a-z0-9]`. */
  predicate IsKeyChar(c: char)
  {
    'a' <= c <= 'z' || '0' <= c <= '9'
  }

  /** What lower-casing one character and then dropping everything outside
      `[a-z0-9]` leaves of it. Apart from ASCII letters and digits, only
      U+0130 (lower-cased to "i" and a combining dot) and the Kelvin sign
      U+212A (lower-cased to "k") leave anything. */
  function KeyPart(c: char): (r: string)
    ensures |r| <= 1
    ensures forall k :: k in r ==> IsKeyChar(k)
    ensures IsKeyChar(c) ==> r == [c]
    ensures IsAsciiUpper(c) ==> r == AsciiLower([c])
    ensures c == 'İ' ==> r == "i"
    ensures c == 'K' ==> r == "k"
    ensures !IsKeyChar(c) && !IsAsciiUpper(c) && c != 'İ' && c != 'K' ==> r == []
  {
    if 'A' <= c <= 'Z' then [(c as int + 32) as char]
    else if IsKeyChar(c) then [c]
    else if c == 'İ' then "i"
    else if c == 'K' then "k"
    else []
  }

  function KeyOf(s: string): (r: string)
    ensures |r| <= |s|
    ensures forall k :: k in r ==> IsKeyChar(k)
  {
    if s == [] then [] else KeyPart(s[0]) + KeyOf(s[1..])
  }

  /** The key of a concatenation is the concatenation of the keys. */
  lemma {:induction false} KeyOfConcat(a: string, b: string)
    ensures KeyOf(a + b) == KeyOf(a) + KeyOf(b)
    decreases |a|
  {
    if a == [] {
      assert a + b == b;
    } else {
      assert (a + b)[0] == a[0] && (a + b)[1..] == a[1..] + b;
      KeyOfConcat(a[1..], b);
    }
  }

  /** Reference definition: the characters of `s` inside `[a-z0-9]`, in
      order. */
  function KeyChars(s: string): (r: string)
  {
    if s == [] then [] else (if IsKeyChar(s[0]) then [s[0]] else []) + KeyChars(s[1..])
  }

  /** On a name without U+0130 and U+212A, the key is the ASCII lower-cased
      name with everything outside `[a-z0-9]` dropped. */
  lemma {:induction false} KeyOfIsLowerThenFilter(s: string)
    requires 'İ' !in s && 'K' !in s
    ensures KeyOf(s) == KeyChars(AsciiLower(s))
    decreases |s|
  {
    if s != [] {
      assert AsciiLower(s)[1..] == AsciiLower(s[1..]);
      assert AsciiLower([s[0]])[0] == AsciiLower(s)[0];
      KeyOfIsLowerThenFilter(s[1..]);
    }
  }

  /** `normalize_name`: the lower-cased name with everything outside
      `[a-z0-9]` removed; a missing or empty name gives the empty key. */
  function NormalizeName(name: Option<string>): (r: string)
    ensures forall k :: k in r ==> IsKeyChar(k)
    ensures name.None? || name == Some("") ==> r == ""
  {
    if name.Some? then KeyOf(name.value) else ""
  }

  /** A key is its own key. */
  lemma {:induction false} KeyOfKey(s: string)
    requires forall k :: k in s ==> IsKeyChar(k)
    ensures KeyOf(s) == s
    decreases |s|
  {
    if s != [] {
      assert s[0] in s;
      assert forall k :: k in s[1..] ==> k in s;
      KeyOfKey(s[1..]);
      assert [s[0]] + s[1..] == s;
    }
  }

  /** Normalizing twice is normalizing once. */
  lemma NormalizeIdempotent(name: Option<string>)
    ensures NormalizeName(Some(NormalizeName(name))) == NormalizeName(name)
  {
    KeyOfKey(NormalizeName(name));
  }

  /** Keys ignore ASCII case. */
  lemma {:induction false} KeyIgnoresAsciiCase(s: string)
    ensures KeyOf(AsciiUpper(s)) == KeyOf(s)
    decreases |s|
  {
    if s != [] {
      KeyIgnoresAsciiCase(s[1..]);
      assert AsciiUpper(s)[1..] == AsciiUpper(s[1..]);
    }
  }

  /** Python truthiness of an id column: present and non-zero. */
  predicate Truthy(id: Option<int>)
  {
    id.Some? && id.value != 0
  }

  /** The English name of a LocId, when the id is truthy and the name query
      finds a row. `names` maps each LocId to the text of its first row by
      `Formatted`; an empty or NULL text is the empty string. */
  function NameFor(id: Option<int>, names: map<int, string>): Option<string>
  {
    if Truthy(id) && id.value in names then Some(names[id.value]) else None
  }

  /** The display name of a target card; None when the card is dropped.
      The interchangeable title's name wins whenever its query found a row;
      otherwise the title's name is used; an empty name drops the card. */
  function DisplayName(titleId: Option<int>, interchangeId: Option<int>, names: map<int, string>)
    : (r: Option<string>)
    ensures r.Some? ==> r.value != ""
    ensures NameFor(interchangeId, names).Some? ==>
              r == (if NameFor(interchangeId, names).value != "" then NameFor(interchangeId, names) else None)
    ensures NameFor(interchangeId, names).None? ==>
              r == (if NameFor(titleId, names).Some? && NameFor(titleId, names).value != ""
                    then NameFor(titleId, names) else None)
  {
    var titleName := NameFor(titleId, names);
    var interchangeName := NameFor(interchangeId, names);
    var primaryId := if Truthy(interchangeId) then interchangeId else titleId;
    var primary :=
      if primaryId == interchangeId then (if interchangeName.Some? then interchangeName else titleName)
      else (if titleName.Some? then titleName else interchangeName);
    if primary.Some? && primary.value != "" then primary else None
  }

  /** A catalog card: the URL of its art crop, when it has one. */
  datatype CatalogCard = CatalogCard(artCrop: Option<string>)

  /** The catalog card filed under a name's key, for a non-empty name. */
  function Filed(cards: map<string, CatalogCard>, name: Option<string>): (r: Option<CatalogCard>)
    ensures r.Some? ==> name.Some? && name.value != "" && NormalizeName(name) in cards
  {
    if name.Some? && name.value != "" && NormalizeName(name) in cards
    then Some(cards[NormalizeName(name)]) else None
  }

  /** The art-crop URL a target card gets from the catalog of its expansion:
      the card filed under the title name is tried first, the one under
      the interchangeable name only when there is none; the card found must
      have an art crop. */
  function CatalogArt(catalog: map<string, map<string, CatalogCard>>, expansion: string,
                      titleName: Option<string>, interchangeName: Option<string>)
    : (r: Option<string>)
    ensures var cards := if expansion in catalog then catalog[expansion] else map[];
            && (Filed(cards, titleName).Some? ==> r == Filed(cards, titleName).value.artCrop)
            && (Filed(cards, titleName).None? && Filed(cards, interchangeName).Some? ==>
                  r == Filed(cards, interchangeName).value.artCrop)
            && (Filed(cards, titleName).None? && Filed(cards, interchangeName).None? ==> r.None?)
  {
    var cards := if expansion in catalog then catalog[expansion] else map[];
    var info :=
      if titleName.Some? && titleName.value != "" && NormalizeName(titleName) in cards
      then Some(cards[NormalizeName(titleName)]) else None;
    var info' :=
      if info.None? && interchangeName.Some? && interchangeName.value != ""
         && NormalizeName(interchangeName) in cards
      then Some(cards[NormalizeName(interchangeName)]) else info;
    if info'.Some? && info'.value.artCrop.Some? then info'.value.artCrop else None
  }

  /** A card found under its title name without an art crop is reported
      missing, even when the interchangeable name would find one. */
  lemma TitleHitWithoutArtIsFinal(catalog: map<string, map<string, CatalogCard>>, expansion: string,
                                  titleName: Option<string>, interchangeName: Option<string>)
    requires expansion in catalog
    requires Filed(catalog[expansion], titleName).Some?
    requires Filed(catalog[expansion], titleName).value.artCrop.None?
    ensures CatalogArt(catalog, expansion, titleName, interchangeName).None?
  {
  }

  /** The catalog set codes searched for an expansion code. */
  function SearchCodes(code: string): (r: seq<string>)
    ensures 1 <= |r| <= 2
    ensures AsciiUpper(code) == "OM1" ==> r == ["spm", "tspm"]
    ensures AsciiUpper(code) == "OMB" ==> r == ["mar", "tspm"]
    ensures AsciiUpper(code) != "OM1" && AsciiUpper(code) != "OMB" ==>
              r == [AsciiLower(code)] && forall k :: 0 <= k < |code| ==> !IsAsciiUpper(r[0][k])
  {
    if AsciiUpper(code) == "OM1" then ["spm", "tspm"]
    else if AsciiUpper(code) == "OMB" then ["mar", "tspm"]
    else [AsciiLower(code)]
  }

  /** Lower-casing ignores a prior upper-casing. */
  lemma LowerOfUpper(s: string)
    ensures AsciiLower(AsciiUpper(s)) == AsciiLower(s)
  {
    forall k | 0 <= k < |s| ensures AsciiLower(AsciiUpper(s))[k] == AsciiLower(s)[k] {
    }
  }

  /** Two codes that differ only in ASCII case are searched the same way. */
  lemma SearchCodesIgnoreCase(a: string, b: string)
    requires AsciiUpper(a) == AsciiUpper(b)
    ensures SearchCodes(a) == SearchCodes(b)
  {
    LowerOfUpper(a);
    LowerOfUpper(b);
  }
}
