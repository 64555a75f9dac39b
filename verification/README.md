# MTGA Korean patcher: text-rewriting core in Dafny

This project models the text-rewriting engine of the MTG Arena Korean
patcher (`app/mtga_KR_patcher.py`) and proves properties of it. The patcher
rewrites card names inside the ability texts of the game's card database,
in English and in Korean. Korean comes in two normalization forms, NFC and
NFD. It also renames one expansion in the client's UI strings, chooses card
art from an online catalog, and pushes corrected translations into the
`Formatted` variants of the Korean localization table.

Modelled, module by module:

- **Seqs**, **PyText**: Python's `str.find`, `str.replace`, `in`,
  `strip`, `split` and `split(':', 1)[1]`, and ASCII `lower`/`upper`,
  with the properties the rest of the model needs.
- **Hangul**: `has_final_consonant`. It uses the syllable arithmetic of
  The Unicode Standard, section 3.12 (Conjoining Jamo Behavior). Also the
  four particle (josa) pairs 은/는, 이/가, 을/를, 과/와.
- **Particles**, **KoreanSplice**: the Korean find/replace loop with
  particle repair. `Spliced` is its reference definition and
  `ReplaceWithParticles` is the `while` loop, proved equal to it.
- **Lists**, **Pairs**: the replacement pairs of a translation record for
  English, Korean NFC and Korean NFD. Each list is deduplicated and sorted
  longest-first.
- **Tokens**, **Protection**: creature-type protection. Terms are hidden
  behind placeholders, the pairs are applied and the terms are restored.
  English uses `str.replace` and Korean uses the particle loop. Here a
  placeholder is an opaque token that no pair can match.
- **LiteralPlaceholders**: the same protection with the literal
  `__PROTECTED_i__` text the source uses. See "## Findings".
- **AbilityIds**, **AbilityRun**: `update_ability_text`. This covers
  parsing the ability-id columns, finding each card's texts, and the
  per-row rewrites. A run produces update lists, or nothing at all when
  the Korean loop raises.
- **CardNames**: `normalize_name`, the display-name choice, the catalog
  lookup order and the expansion-code mapping.
- **ExpansionName**: the expansion-name patch of the `Loc` table.
- **Localization**: the `Formatted`-variant value choice of the
  card-translation feed.

Database tables are sequences of rows in table order. Writes are returned
as lists of updates rather than performed. Unicode normalization (NFD) is a
parameter.

## Model

| member | source | states |
|---|---|---|
| Seqs.Find | app/mtga_KR_patcher.py:469-470 | `find(p, start)`: the least index at or after `start` where `p` occurs; None (Python's -1) exactly when there is none |
| Seqs.ReplaceAllNoMatch | app/mtga_KR_patcher.py:445 | `str.replace` on a text where the pattern does not occur returns the text unchanged |
| Seqs.ReplaceAllSkipsTo | app/mtga_KR_patcher.py:445 | `str.replace` copies every element before the first occurrence unchanged |
| Seqs.ReplaceAllAtFirst | app/mtga_KR_patcher.py:445 | `str.replace` keeps the text before the first occurrence, emits the replacement, and resumes after the occurrence without rescanning |
| Seqs.ReplaceOnce | app/mtga_KR_patcher.py:445 | `str.replace` of a pattern that occurs once changes that occurrence only |
| Seqs.ReplaceAllElements | app/mtga_KR_patcher.py:445 | every element of a replacement result comes from the text or from the replacement |
| PyText.StripIsFactor | app/mtga_KR_patcher.py:403-404 | `strip()` yields a contiguous factor of the text whose ends are not whitespace, with only whitespace cut on either side |
| PyText.Split | app/mtga_KR_patcher.py:403 | `split(sep)` yields at least one piece |
| PyText.JoinSplit | app/mtga_KR_patcher.py:421 | joining the pieces of `split(sep)` with `sep` gives the text back |
| PyText.SplitAround | app/mtga_KR_patcher.py:421 | splitting `x + sep + y` is splitting `x` followed by splitting `y` |
| PyText.SplitPiecesHaveNoSep | app/mtga_KR_patcher.py:403-404 | no piece of `split(sep)` contains `sep` |
| PyText.SplitEndsAreShorter | app/mtga_KR_patcher.py:403-404 | when `sep` occurs, the first and last pieces are strictly shorter than the text |
| PyText.AfterFirst | app/mtga_KR_patcher.py:424 | `split(':', 1)[1]`: exactly the text after the first colon |
| PyText.AsciiLower | app/mtga_KR_patcher.py:190 | `lower()` on ASCII: each of A-Z becomes the letter at the same alphabet position in a-z, every other character is kept, the length is kept |
| PyText.AsciiUpper | app/mtga_KR_patcher.py:186 | `upper()` on ASCII: each of a-z becomes the letter at the same alphabet position in A-Z, every other character is kept, the length is kept |
| Hangul.FinalConsonantIsTrail | app/mtga_KR_patcher.py:356-358 | inside 가..힣, true exactly when the decomposed trailing-consonant index is non-zero; true for every other character |
| Hangul.Decompose | app/mtga_KR_patcher.py:357 | a syllable block yields valid lead, vowel and trail indices |
| Hangul.ComposeDecompose | app/mtga_KR_patcher.py:357 | composing the decomposition of a syllable gives the syllable back |
| Hangul.DecomposeCompose | app/mtga_KR_patcher.py:357 | decomposing a composed syllable gives its indices back |
| Hangul.PairsAreClosed | app/mtga_KR_patcher.py:475-480 | both forms of a particle map to their pair, the two forms differ, and the chosen form stays in the pair |
| Particles.RepairAtMeaning | app/mtga_KR_patcher.py:473-481 | repair changes only the one position after the splice, and only when it holds a particle; the length is kept; the particle stays in its pair and becomes the after-consonant form exactly when the inserted text's last character has a final consonant |
| Particles.RepairKeepsCorrectText | app/mtga_KR_patcher.py:481 | a particle already in the right form is left alone |
| Particles.RepairIdempotent | app/mtga_KR_patcher.py:473-481 | repairing twice is repairing once |
| Particles.RepairAtSeam | app/mtga_KR_patcher.py:471-481 | repair at the end of the inserted text touches only the remainder |
| KoreanSplice.ReplaceWithParticles | app/mtga_KR_patcher.py:466-482 | the find/splice/repair loop, which terminates because the unscanned suffix shrinks, computes `Spliced`: non-overlapping replacements left to right, inserted text never rescanned, None exactly where `new[-1]` raises |
| KoreanSplice.SpliceStep | app/mtga_KR_patcher.py:469-482 | one loop round extends the finished prefix by the text before the match and `new`, and continues on the repaired remainder |
| KoreanSplice.SpliceAdvance | app/mtga_KR_patcher.py:469-482 | the same round on the loop's own text and resume index: it raises when `new` is empty and a particle follows, and otherwise resumes right after the inserted `new` |
| KoreanSplice.SpliceDone | app/mtga_KR_patcher.py:470 | when `find` answers -1, the rest of the text is kept as it is |
| KoreanSplice.SplicedNoMatch | app/mtga_KR_patcher.py:466-470 | text without `old` is returned unchanged |
| KoreanSplice.SplicedNeverFailsWithText | app/mtga_KR_patcher.py:480 | with a non-empty `new` the loop never raises |
| KoreanSplice.RepairKeepsPlaceholders | app/mtga_KR_patcher.py:473-481 | particle repair never touches a protected span |
| KoreanSplice.SplicedKeepsPlaceholders | app/mtga_KR_patcher.py:466-485 | the loop keeps every protected span, in order |
| KoreanSplice.SplicedIsReplaceWithoutParticles | app/mtga_KR_patcher.py:466-482 | on text without particles the loop is exactly `str.replace` |
| Lists.Dedupe | app/mtga_KR_patcher.py:416 | `list(set(xs))`: no duplicates, the same members, no longer than the input |
| Lists.DedupeDistinct | app/mtga_KR_patcher.py:416 | a list without duplicates is its own deduplication |
| Lists.Insert | app/mtga_KR_patcher.py:416 | insertion into a longest-first list keeps it sorted and adds exactly one element |
| Lists.SortDesc | app/mtga_KR_patcher.py:416 | `sorted(..., key, reverse=True)`: sorted by non-increasing key and a permutation of the input |
| Lists.SortDescOfSorted | app/mtga_KR_patcher.py:416 | a list already sorted by non-increasing key is left as it is |
| Lists.PermutationKeepsDistinct | app/mtga_KR_patcher.py:416 | sorting a duplicate-free list keeps it duplicate-free, with the same members |
| Lists.SortedDistinct | app/mtga_KR_patcher.py:416 | the distinct elements of the input, sorted by non-increasing key |
| Lists.SortedDistinctOfStrictlyDecreasing | app/mtga_KR_patcher.py:416 | a list with strictly decreasing keys is its own `SortedDistinct` |
| Pairs.EnglishShortIsShorter | app/mtga_KR_patcher.py:403-404 | the English short form's old text is strictly shorter than the full old name |
| Pairs.KoreanShortIsShorter | app/mtga_KR_patcher.py:409-415 | the Korean short form's old text is strictly shorter than the full old name |
| Pairs.EnglishPairs | app/mtga_KR_patcher.py:400-404 | no pairs unless both names are non-empty; otherwise (origin, new) first, then a short-form pair exactly when the old name holds a comma or a space (the first comma-piece of each name, or the first word of the old name with the full new name), strictly shorter; no duplicates, non-increasing old length |
| Pairs.KoreanPairs | app/mtga_KR_patcher.py:406-415 | the same for a Korean form, whose short-form pair uses the last comma-piece of each name (the full new name when it has no comma), or the last word of the old name |
| Pairs.ReplacementsFor | app/mtga_KR_patcher.py:399-416 | a record's three lists; the Korean ones stay empty in the English-only run |
| Tokens.Lift | app/mtga_KR_patcher.py:436 | text as tokens: the same length and the same characters |
| Tokens.LiftReplaceAll | app/mtga_KR_patcher.py:445 | replacement on tokens of plain text is `str.replace` on the text |
| Tokens.FlattenLift | app/mtga_KR_patcher.py:447-448 | restoring plain text gives the text back |
| Tokens.ReplaceKeepsPlaceholders | app/mtga_KR_patcher.py:444-445 | a pair never creates, drops or reorders a placeholder |
| Tokens.HideRestores | app/mtga_KR_patcher.py:439-448 | hiding one term and then restoring gives the same text |
| Tokens.HideLeavesNoMatch | app/mtga_KR_patcher.py:440-441 | after `replace(term, placeholder)` the term no longer occurs in plain text |
| Tokens.HideKeepsAbsent | app/mtga_KR_patcher.py:440-441 | replacing one term by a placeholder never creates an occurrence of another term |
| Tokens.HidePrefix | app/mtga_KR_patcher.py:440-441 | a prefix of the hiding result is either a prefix of the text or holds a placeholder |
| Tokens.RefsOfPlaceholders | app/mtga_KR_patcher.py:442 | every placeholder in a text names a recorded term exactly when its placeholder list is in range |
| Protection.HideFromRestores | app/mtga_KR_patcher.py:438-448 | hiding any suffix of the term list is undone by restoring |
| Protection.Protect | app/mtga_KR_patcher.py:437-442 | the hidden text only names recorded terms, and restoring it gives the original text |
| Protection.ProtectHidesTerms | app/mtga_KR_patcher.py:438-442 | no protected term occurs in the hidden text outside placeholders, so no pair can match inside one |
| Protection.HideFromHides | app/mtga_KR_patcher.py:438-442 | after hiding terms `k` onwards, none of those terms occurs in plain text |
| Protection.HideFromKeepsAbsent | app/mtga_KR_patcher.py:438-442 | hiding later terms never makes an absent term occur |
| Protection.ProtectedExample | app/mtga_KR_patcher.py:436-448 | with the creature type "Elf Warrior" and the pair ("Elf", "Goblin"), "An Elf Warrior fights an Elf." becomes "An Elf Warrior fights an Goblin.": the protected "Elf" is kept and the article is not adjusted |
| Protection.HideSingle | app/mtga_KR_patcher.py:438-442 | a single term that first occurs after `a` and not in `b` is hidden there only |
| Protection.ApplySingle | app/mtga_KR_patcher.py:444-445 | a single pair whose old text occurs once is replaced there only |
| Protection.RestoreSingle | app/mtga_KR_patcher.py:447-448 | restoring one placeholder between plain texts puts its term back |
| Protection.SubstitutedBySteps | app/mtga_KR_patcher.py:436-448 | the English rewrite is the restore of the pairs applied to the hidden text |
| Protection.HideTerms | app/mtga_KR_patcher.py:438-442 | the hiding loop, which replaces a term only when it still occurs, computes `Protect` |
| Protection.ApplyPairs | app/mtga_KR_patcher.py:444-445 | applying the pairs in order keeps the protected spans, in the same order |
| Protection.RewriteEnglish | app/mtga_KR_patcher.py:436-448 | the English loops compute `Substituted` |
| Protection.ApplyPairsNoMatch | app/mtga_KR_patcher.py:444-445 | pairs whose old text does not occur change nothing |
| Protection.SubstitutedWithoutMatches | app/mtga_KR_patcher.py:444-450 | if no old text occurs outside protected spans, the output equals the input, so no update is produced; with no pairs this holds for every text |
| Protection.ApplyPairsOfPlainText | app/mtga_KR_patcher.py:444-445 | on unprotected text, applying the pairs is chained `str.replace` |
| Protection.SubstitutedWithoutTerms | app/mtga_KR_patcher.py:437-448 | with no creature types, the English rewrite is chained `str.replace` |
| Protection.SplicedAll | app/mtga_KR_patcher.py:466-482 | running the Korean loop once per pair keeps every protected span |
| Protection.RewriteKorean | app/mtga_KR_patcher.py:455-485 | the Korean loops compute `KoreanSubstituted` |
| Protection.SplicedAllNeverFails | app/mtga_KR_patcher.py:480 | with non-empty new texts no round raises |
| Protection.KoreanNeverFailsWithText | app/mtga_KR_patcher.py:480 | with non-empty new texts the Korean rewrite never raises |
| Protection.SplicedAllNoMatch | app/mtga_KR_patcher.py:466-470 | pairs whose old text does not occur change nothing |
| Protection.KoreanWithoutMatches | app/mtga_KR_patcher.py:466-487 | if no old text occurs outside protected spans, the Korean output equals the input |
| Protection.ReplaceKeepsNoParticles | app/mtga_KR_patcher.py:471 | splicing particle-free text into particle-free text yields particle-free text |
| Protection.SplicedAllWithoutParticles | app/mtga_KR_patcher.py:466-482 | on particle-free text with particle-free new texts, the Korean rounds are the English `str.replace` rounds |
| Protection.KoreanIsEnglishWithoutParticles | app/mtga_KR_patcher.py:444-485 | in that case the Korean rewrite equals the English rewrite |
| LiteralPlaceholders.Decimal | app/mtga_KR_patcher.py:440 | `str(i)`: non-empty, digits only |
| LiteralPlaceholders.HideLiterally | app/mtga_KR_patcher.py:438-442 | the recorded placeholder indices all name a term |
| LiteralPlaceholders.PairRewritesPlaceholder | app/mtga_KR_patcher.py:436-448 | as written, "Elf" with the term "Elf" and the pair ("D", "X") becomes "__PROTECTEX_0__"; with opaque placeholders it stays "Elf" |
| LiteralPlaceholders.PairHitsPlaceholder | app/mtga_KR_patcher.py:440-445 | the placeholder of term 0 is "__PROTECTED_0__", and the pair ("D", "X") rewrites it to "__PROTECTEX_0__" |
| LiteralPlaceholders.RestoreMissesRewrittenPlaceholder | app/mtga_KR_patcher.py:447-448 | the restore step leaves "__PROTECTEX_0__" as it is |
| AbilityIds.Parts | app/mtga_KR_patcher.py:421 | the pieces of both columns joined by a comma are the pieces of each column, a NULL column reading as "" |
| AbilityIds.ClassifyMeaning | app/mtga_KR_patcher.py:422-425 | a piece is skipped exactly when it is blank; otherwise it goes to the lookup set as its stripped text when it has no colon, or to the direct set as a shorter text when it has one |
| AbilityIds.Classified | app/mtga_KR_patcher.py:421-425 | one destination per piece, in order |
| AbilityIds.IdSetsMembers | app/mtga_KR_patcher.py:424-425 | an id is in a set exactly when some piece is classified into it |
| AbilityIds.CollectIds | app/mtga_KR_patcher.py:422-425 | the loop over the classified pieces builds exactly their direct and lookup sets |
| AbilityIds.ParseAbilityIds | app/mtga_KR_patcher.py:420-425 | the loop over the pieces builds exactly the direct and lookup sets of the classified pieces |
| AbilityIds.EachPieceLandsOnce | app/mtga_KR_patcher.py:421-425 | every non-empty piece lands in the direct set (with a colon) or in the lookup set (without one), and every id comes from a piece |
| AbilityRun.EnTexts | app/mtga_KR_patcher.py:384-386 | a text is returned exactly when some English row with an asked LocId holds it |
| AbilityRun.KoTexts | app/mtga_KR_patcher.py:389-394 | a text is returned exactly when some Korean row with an asked LocId, in the asked normalization form (Formatted 2 is NFD, 0 and 1 NFC), holds it |
| AbilityRun.CreatureTypes | app/mtga_KR_patcher.py:370-394 | the creature types per script are exactly the names of the sub-type LocIds, longest first |
| AbilityRun.FirstCard | app/mtga_KR_patcher.py:417-418 | `fetchone()`: a card row with the title id, or None exactly when there is none |
| AbilityRun.EnUpdatesOf | app/mtga_KR_patcher.py:434-450 | every English update rewrites an existing asked row to a different text |
| AbilityRun.KoUpdatesOf | app/mtga_KR_patcher.py:452-487 | every Korean update rewrites an existing asked row, of the same variant, to a different text |
| AbilityRun.EnUpdatesMeaning | app/mtga_KR_patcher.py:434-450 | an English update is produced exactly for each asked row whose `Substituted` text differs from it, with that text |
| AbilityRun.KoUpdatesMeaning | app/mtga_KR_patcher.py:452-487 | the Korean rows raise exactly when some asked row's rewrite (NFD lists for Formatted 2, NFC otherwise) raises; otherwise a Korean update is produced exactly for each asked row whose `KoreanSubstituted` text differs from it, with that text and variant |
| AbilityRun.ChangesConcat | app/mtga_KR_patcher.py:450-487 | appending update lists keeps every update a real change |
| AbilityRun.RecordUpdates | app/mtga_KR_patcher.py:396-487 | one record's updates: no Korean updates and no failure in the English-only run, and every update is a real change of an existing row |
| AbilityRun.RecordUpdatesMeaning | app/mtga_KR_patcher.py:396-487 | a record with title id 0, no card or no text ids gives no updates; otherwise it raises exactly when a Korean row raises, and its updates are exactly the changed asked rows, rewritten with the record's pairs and the database's creature types |
| AbilityRun.IdUpdates | app/mtga_KR_patcher.py:431-487 | the updates of the asked rows: no Korean updates and no failure in the English-only run, and every update is a real change of an existing row |
| AbilityRun.IdUpdatesMeaning | app/mtga_KR_patcher.py:431-487 | for known text ids: None exactly when the run is not English-only and a Korean row raises; otherwise the English and Korean updates are exactly the changed asked rows |
| AbilityRun.RunOf | app/mtga_KR_patcher.py:396-491 | the whole run has the same guarantees, and is None when any record raises |
| AbilityRun.RunOfMeaning | app/mtga_KR_patcher.py:396-491 | the run is None exactly when some record raises; otherwise its updates are exactly the updates of its records |
| AbilityRun.NoIdsNoUpdates | app/mtga_KR_patcher.py:430-431 | a card without text ids produces no updates |
| AbilityRun.EnglishRowUpdates | app/mtga_KR_patcher.py:435-450 | the English row loop computes `EnUpdatesOf` |
| AbilityRun.KoreanRowUpdates | app/mtga_KR_patcher.py:453-487 | the Korean row loop computes `KoUpdatesOf`, stopping at the first row that raises |
| AbilityRun.NoneStaysNone | app/mtga_KR_patcher.py:491 | once a Korean row raises, the rows' result is failure |
| AbilityRun.UpdatesForRecord | app/mtga_KR_patcher.py:396-487 | the body of the record loop, with its early `continue`s (title id 0, no card, no text ids), computes `RecordUpdates` |
| AbilityRun.CardTextIds | app/mtga_KR_patcher.py:420-430 | the parsed and looked-up ids, without the empty one, are `TextIds` |
| AbilityRun.UpdatesForIds | app/mtga_KR_patcher.py:432-487 | the row loops for a non-empty set of text ids compute `IdUpdates` |
| AbilityRun.UpdateAbilityText | app/mtga_KR_patcher.py:360-491 | the record loop computes `RunOf` |
| AbilityRun.RunStaysNone | app/mtga_KR_patcher.py:490-491 | once a record raises, the run commits nothing |
| CardNames.KeyPart | app/mtga_KR_patcher.py:177-178 | one character's part of the key: a key character is kept, A-Z becomes its lower-case letter, U+0130 becomes "i", U+212A becomes "k", every other character is dropped |
| CardNames.KeyOf | app/mtga_KR_patcher.py:177-178 | the key is no longer than the name and holds only `[a-z0-9]` |
| CardNames.KeyOfConcat | app/mtga_KR_patcher.py:177-178 | the key of a concatenation is the concatenation of the keys, so each character contributes its `KeyPart` in order |
| CardNames.KeyOfIsLowerThenFilter | app/mtga_KR_patcher.py:177-178 | on a name without U+0130 and U+212A, the key is the ASCII-lower-cased name with every character outside `[a-z0-9]` removed |
| CardNames.NormalizeName | app/mtga_KR_patcher.py:177-178 | only `[a-z0-9]` in the result; None or "" gives "" |
| CardNames.KeyOfKey | app/mtga_KR_patcher.py:177-178 | a key is its own key |
| CardNames.NormalizeIdempotent | app/mtga_KR_patcher.py:177-178 | normalizing twice equals normalizing once |
| CardNames.KeyIgnoresAsciiCase | app/mtga_KR_patcher.py:177-178 | keys ignore ASCII case |
| CardNames.DisplayName | app/mtga_KR_patcher.py:137-157 | the interchangeable title's name wins whenever its query finds a row; otherwise the title's name is used; the card is dropped when the chosen name is empty |
| CardNames.Filed | app/mtga_KR_patcher.py:520-528 | a catalog card is found only for a non-empty name whose key is filed |
| CardNames.CatalogArt | app/mtga_KR_patcher.py:518-530 | the card filed under the title name decides; the interchangeable name is tried only when there is none; the art crop of the card found, if any |
| CardNames.TitleHitWithoutArtIsFinal | app/mtga_KR_patcher.py:520-530 | a title hit without an art crop is reported missing, even when the interchangeable name would find art |
| CardNames.SearchCodes | app/mtga_KR_patcher.py:185-190 | OM1 searches spm and tspm; OMB searches mar and tspm, in any case; any other code searches its lower-case form |
| CardNames.LowerOfUpper | app/mtga_KR_patcher.py:185-190 | lower-casing ignores a prior upper-casing |
| CardNames.SearchCodesIgnoreCase | app/mtga_KR_patcher.py:185-190 | codes that differ only in ASCII case are searched the same way |
| ExpansionName.SpecificFor | app/mtga_KR_patcher.py:564-582 | a replacement exactly when the text equals a table entry's old text, and then that entry's new text |
| ExpansionName.SpecificTableIsConsistent | app/mtga_KR_patcher.py:564-582 | entries with the same old text have the same new text, so the search order does not matter |
| ExpansionName.FindSpecific | app/mtga_KR_patcher.py:612-617 | the table loop, which stops at the first match, computes `SpecificFor` |
| ExpansionName.OccursLift | app/mtga_KR_patcher.py:632 | `in` on the text agrees with `in` on its tokens |
| ExpansionName.SpecificTextsAreReplaced | app/mtga_KR_patcher.py:612-628 | each known full text becomes its table replacement, in English and in Korean |
| ExpansionName.EnglishWithoutOldNameUnchanged | app/mtga_KR_patcher.py:612-619 | English text not in the table and without the old name is unchanged |
| ExpansionName.KoreanWithoutOldNamesUnchanged | app/mtga_KR_patcher.py:621-649 | Korean text not in the table and without either old name is unchanged |
| ExpansionName.ParticleAfterNewNameIsRepaired | app/mtga_KR_patcher.py:631-649 | the new name ends in a consonant, and "오멘패스를 가로지르다는" becomes "마블 스파이더맨은" |
| ExpansionName.TableUpdatesMeaning | app/mtga_KR_patcher.py:608-652 | every update names a row whose column changed, with its new text, and every changed column gets its update |
| ExpansionName.PatchRow | app/mtga_KR_patcher.py:609-652 | one row's loop body computes `RowUpdates` |
| ExpansionName.PatchExpansionNames | app/mtga_KR_patcher.py:605-652 | the row loop, skipping rows with neither text, computes `TableUpdates` |
| ExpansionName.KoreanGeneralLoop | app/mtga_KR_patcher.py:631-649 | the plain replacement, then the particle loop only when the Korean name occurs, computes `KoreanGeneral` |
| Localization.FormattedValue | app/mtga_KR_patcher.py:760-774 | never an empty value; nothing for variants other than 0, 1 and 2; variant 0 gets `Formatted_0`, variant 1 its own non-empty value, variant 2 the NFD of `Formatted_0` |
| Localization.VariantOneFallsBack | app/mtga_KR_patcher.py:772 | variant 1 without a value of its own is written like variant 0 |
| Localization.VariantsOf | app/mtga_KR_patcher.py:764-765 | exactly the variants the table holds for the LocId |
| Localization.EntryUpdatesMeaning | app/mtga_KR_patcher.py:767-775 | an entry writes exactly the variants that exist and get a value |
| Localization.FeedUpdatesMeaning | app/mtga_KR_patcher.py:757-775 | every feed update rewrites an existing row with the value its entry chooses, and every such row is rewritten |
| Localization.UpdateEntry | app/mtga_KR_patcher.py:767-775 | the variant loop computes `EntryUpdates` |
| Localization.UpdateCardTexts | app/mtga_KR_patcher.py:757-775 | the feed loop computes `FeedUpdates` |

## Left out

- The Qt window, the worker thread and the self-update (`PatchWorker`, `PatcherWindow`, `check_for_updates`) are user interface and threading.
- Install-path discovery (`find_and_set_mtga_path`) scans the filesystem and the game's log.
- All SQLite I/O is left out. Queries become filters over row sequences; `UPDATE`s become returned update lists.
- SQLite type affinity is not modelled. Ids in the ability-text run are strings, as the source turns them into strings.
- NULL `Loc` texts are not modelled: every row holds a string. In the source, a NULL ability text raises in the `in` test (lines 439 and 460, `TypeError`) or, with no creature types, in `replace` or `find` (lines 445 and 469, `AttributeError`); a NULL creature-type name raises `TypeError` when the types are sorted by length. `except Exception` at line 491 then discards the whole run.
- The network is left out. This covers `fetch_json_from_url`, the Scryfall pagination loop and the threaded `download_images`. The catalog is a parameter (a map from set code to normalized name to card).
- Asset-bundle rewriting (`replace_card_art`) calls into UnityPy and PIL, which are not part of this model. So is the glob check for an existing asset.
- Unicode normalization (NFC/NFD, Unicode Standard Annex #15) is a parameter. The Korean NFD rows keep their own creature types and pairs. In NFD text the character after an inserted name is a conjoining jamo, never a precomposed particle, so those rows get no particle repair.
- Python's `lower()`/`upper()` beyond ASCII is not modelled. The exceptions are the two non-ASCII characters that lower-case into `[a-z0-9]` (U+0130 and U+212A), which the name key handles. For the codes OM1 and OMB, no non-ASCII character upper-cases to O, M, 1 or B.
- Python set iteration order is unspecified. The model removes duplicates at their first occurrence, then sorts stably by length. Lists with equal-length entries may therefore be ordered differently from a given Python run.
- AbilityRun.WellFormed requires non-empty creature-type names and non-empty old texts, but only for records that reach the row loops (`RecordReady`: a non-zero title id, a card and at least one text id). In Python, `str.replace` with an empty old text inserts at every gap, and the Korean loop never ends on it: with an empty old text `find` answers at the resume index on every round, and the text grows by as much as the index advances. Both arise only from malformed names, such as a name ending in a comma.
- Localization.FormattedValue takes `Formatted_0` and `Formatted_1` as present. In the source, a feed entry without the `Formatted_0` key raises `KeyError` at line 759, and one without `Formatted_1` at line 760. Only `sqlite3.Error` is caught (line 779), so either aborts the card-text patch with that database file left uncommitted. The model does not capture this.
- A `Formatted_0`/`Formatted_1` value that is not a string is not modelled.
- The `&lt;`/`&gt;` unescaping of Korean rows (`run_localization_patch`) is not modelled.
- The UI-string JSON patch of the client database is not modelled.
- `patch_soul_stone_card` is not modelled.
- The card-name updates of `update_card_names` are not modelled.
- The image patch keeps no record of applied patches; it re-fetches and rewrites every time. None is modelled.
- `update_ability_text` commits once at the end (line 490); any exception discards every update of the run, and `RunOf` is None then.
- The Korean loop raises on `new[-1]` when `new` is empty and a particle follows (line 480); the model returns None there.

## Findings

| source | as written | input that shows it | evidently intended | confidence | as-written member | corrected member |
|---|---|---|---|---|---|---|
| app/mtga_KR_patcher.py:438-448 | creature types are hidden behind the literal text `__PROTECTED_i__`, and the replacement pairs then run over that text too | the text "Elf", the creature type "Elf" and a pair ("D", "X"): the placeholder becomes "__PROTECTEX_0__", the restore step misses it, and the row is updated to "__PROTECTEX_0__" | protected spans survive every pair and are restored unchanged | low in practice (an old name must occur inside the placeholder text); not executed | LiteralPlaceholders.PairRewritesPlaceholder | Protection.ApplyPairs |
