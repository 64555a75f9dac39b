/** The (old, new) replacement pairs derived from one translation record,
    per script: English, Korean NFC and Korean NFD. The full-name pair comes
    first; a short-form pair follows for names with a comma or a space. */
module Pairs {
  import opened PyText
  import opened Lists

  /** One replacement: every `before` becomes `after`. */
  datatype Pair = Pair(before: string, after: string)

  function BeforeLength(p: Pair): nat
  {
    |p.before|
  }

  /** The names of one translation record; a missing field reads as "". */
  datatype Names = Names(
    originEn: string, newEn: string,
    originKoNfc: string, newKoNfc: string,
    originKoNfd: string, newKoNfd: string)

  datatype Replacements = Replacements(en: seq<Pair>, koNfc: seq<Pair>, koNfd: seq<Pair>)

  /** The English list before sorting: the full pair, then the text before
      the first comma of each name, or else the first word of the old name
      mapped to the whole new name. */
  function EnglishRaw(origin: string, target: string): seq<Pair>
  {
    if origin == "" || target == "" then [] else
    [Pair(origin, target)] +
      (if ',' in origin then [Pair(Strip(Split(origin, ',')[0]), Strip(Split(target, ',')[0]))]
       else if ' ' in origin then [Pair(Strip(Split(origin, ' ')[0]), target)]
       else [])
  }

  /** The Korean list before sorting: the full pair, then the text after the
      last comma of the old name mapped to the text after the last comma of
      the new name (or the whole new name if it has no comma), or else the
      last word of the old name mapped to the whole new name. */
  function KoreanRaw(origin: string, target: string): seq<Pair>
  {
    if origin == "" || target == "" then [] else
    [Pair(origin, target)] +
      (if ',' in origin then
         [Pair(Strip(Last(Split(origin, ','))),
               if ',' in target then Strip(Last(Split(target, ','))) else target)]
       else if ' ' in origin then [Pair(Strip(Last(Split(origin, ' '))), target)]
       else [])
  }

  /** The `before` lengths strictly decrease along the list. */
  predicate FullThenShorter(raw: seq<Pair>)
  {
    forall i, j :: 0 <= i < j < |raw| ==> BeforeLength(raw[i]) > BeforeLength(raw[j])
  }

  /** The English short form's `before` is strictly shorter than the full
      name, so the raw list is strictly decreasing in `before` length. */
  lemma EnglishShortIsShorter(origin: string, target: string)
    ensures FullThenShorter(EnglishRaw(origin, target))
  {
    var raw := EnglishRaw(origin, target);
    if origin != "" && target != "" {
      if ',' in origin {
        SplitEndsAreShorter(origin, ',');
        StripIsFactor(Split(origin, ',')[0]);
        assert |raw[1].before| <= |Split(origin, ',')[0]| < |origin|;
      } else if ' ' in origin {
        SplitEndsAreShorter(origin, ' ');
        StripIsFactor(Split(origin, ' ')[0]);
        assert |raw[1].before| <= |Split(origin, ' ')[0]| < |origin|;
      }
    }
  }

  /** The same for the Korean short form, taken from the end of the name. */
  lemma KoreanShortIsShorter(origin: string, target: string)
    ensures FullThenShorter(KoreanRaw(origin, target))
  {
    var raw := KoreanRaw(origin, target);
    if origin != "" && target != "" {
      if ',' in origin {
        SplitEndsAreShorter(origin, ',');
        StripIsFactor(Last(Split(origin, ',')));
        assert |raw[1].before| <= |Last(Split(origin, ','))| < |origin|;
      } else if ' ' in origin {
        SplitEndsAreShorter(origin, ' ');
        StripIsFactor(Last(Split(origin, ' ')));
        assert |raw[1].before| <= |Last(Split(origin, ' '))| < |origin|;
      }
    }
  }

  /** A raw list that starts with the full pair, has at most one more pair
      and strictly decreasing `before` lengths is non-empty exactly when both
      names are, and its second pair is shorter than the full name. */
  lemma RawShape(raw: seq<Pair>, origin: string, target: string)
    requires raw == EnglishRaw(origin, target) || raw == KoreanRaw(origin, target)
    requires FullThenShorter(raw)
    ensures origin != "" && target != "" ==> 1 <= |raw| <= 2 && raw[0] == Pair(origin, target)
    ensures origin == "" || target == "" ==> raw == []
    ensures |raw| == 2 ==> |raw[1].before| < |origin|
  {
  }

  /** The derived English list: distinct pairs, longest `before` first; the
      full-name pair is present, and first, whenever both names are non-empty;
      the short-form pair follows exactly when the old name has a comma or a
      space. Deduplicating and sorting leave the raw list as it is. */
  function EnglishPairs(origin: string, target: string): (r: seq<Pair>)
    ensures SortedDesc(r, BeforeLength) && NoDuplicates(r)
    ensures origin != "" && target != "" ==> 1 <= |r| <= 2 && r[0] == Pair(origin, target)
    ensures origin == "" || target == "" ==> r == []
    ensures |r| == 2 ==> |r[1].before| < |origin|
    ensures |r| == 2 <==> origin != "" && target != "" && (',' in origin || ' ' in origin)
    ensures r == EnglishRaw(origin, target)
  {
    var raw := EnglishRaw(origin, target);
    EnglishShortIsShorter(origin, target);
    RawShape(raw, origin, target);
    SortedDistinctOfStrictlyDecreasing(raw, BeforeLength);
    SortedDistinct(raw, BeforeLength)
  }

  /** The derived Korean list, with the same guarantees as the English one;
      it too is its raw list. */
  function KoreanPairs(origin: string, target: string): (r: seq<Pair>)
    ensures SortedDesc(r, BeforeLength) && NoDuplicates(r)
    ensures origin != "" && target != "" ==> 1 <= |r| <= 2 && r[0] == Pair(origin, target)
    ensures origin == "" || target == "" ==> r == []
    ensures |r| == 2 ==> |r[1].before| < |origin|
    ensures |r| == 2 <==> origin != "" && target != "" && (',' in origin || ' ' in origin)
    ensures r == KoreanRaw(origin, target)
  {
    var raw := KoreanRaw(origin, target);
    KoreanShortIsShorter(origin, target);
    RawShape(raw, origin, target);
    SortedDistinctOfStrictlyDecreasing(raw, BeforeLength);
    SortedDistinct(raw, BeforeLength)
  }

  /** The three lists of one record; the Korean ones stay empty in the
      English-only run. */
  function ReplacementsFor(n: Names, onlyEnglish: bool): (r: Replacements)
    ensures r.en == EnglishPairs(n.originEn, n.newEn)
    ensures onlyEnglish ==> r.koNfc == [] && r.koNfd == []
    ensures !onlyEnglish ==>
              r.koNfc == KoreanPairs(n.originKoNfc, n.newKoNfc) &&
              r.koNfd == KoreanPairs(n.originKoNfd, n.newKoNfd)
  {
    Replacements(
      EnglishPairs(n.originEn, n.newEn),
      if onlyEnglish then [] else KoreanPairs(n.originKoNfc, n.newKoNfc),
      if onlyEnglish then [] else KoreanPairs(n.originKoNfd, n.newKoNfd))
  }

  /** Every `before` is non-empty, as `str.replace` and the Korean loop need. */
  predicate UsableBefores(pairs: seq<Pair>)
  {
    forall p :: p in pairs ==> p.before != ""
  }
}
