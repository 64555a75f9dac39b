/** Hangul syllable arithmetic, after The Unicode Standard, section 3.12
    (Conjoining Jamo Behavior), and the four Korean particle pairs whose
    form depends on whether the preceding syllable ends in a consonant. */
module Hangul {
  import opened Seqs

  const SBase: int := 0xAC00
  const LCount: int := 19
  const VCount: int := 21
  const TCount: int := 28
  const NCount: int := VCount * TCount
  const SCount: int := LCount * NCount

  /** A precomposed syllable block, '가' (U+AC00) through '힣' (U+D7A3). */
  predicate IsSyllable(c: char)
  {
    '가' <= c <= '힣'
  }

  /** `has_final_consonant`: inside the block range, whether the trailing
      index (S - SBase) mod 28 is non-zero; any other character counts as
      ending in a consonant. */
  function HasFinalConsonant(c: char): bool
  {
    if '가' <= c <= '힣' then (c as int - '가' as int) % 28 > 0 else true
  }

  /** The leading-consonant, vowel and trailing-consonant indices of a block;
      a trailing index of 0 means no trailing consonant. */
  datatype Jamo = Jamo(lead: nat, vowel: nat, trail: nat)

  predicate ValidJamo(j: Jamo)
  {
    j.lead < LCount && j.vowel < VCount && j.trail < TCount
  }

  /** Canonical decomposition of a syllable block (arithmetic part). */
  function Decompose(c: char): (j: Jamo)
    requires IsSyllable(c)
    ensures ValidJamo(j)
  {
    var s := c as int - SBase;
    Jamo(s / NCount, (s % NCount) / TCount, s % TCount)
  }

  /** Canonical composition of a lead, vowel and optional trail. */
  function Compose(j: Jamo): (c: char)
    requires ValidJamo(j)
    ensures IsSyllable(c)
  {
    (SBase + (j.lead * VCount + j.vowel) * TCount + j.trail) as char
  }

  /** The test reads the trailing-consonant index of the decomposition of
      a syllable block; any other character counts as ending in a
      consonant. */
  lemma FinalConsonantIsTrail(c: char)
    ensures IsSyllable(c) ==> (HasFinalConsonant(c) <==> Decompose(c).trail != 0)
    ensures !IsSyllable(c) ==> HasFinalConsonant(c)
  {
  }

  /** Decomposition and composition are inverse on syllable blocks. */
  lemma ComposeDecompose(c: char)
    requires IsSyllable(c)
    ensures Compose(Decompose(c)) == c
  {
    var s := c as int - SBase;
    assert s == (s / NCount) * NCount + (s % NCount) / TCount * TCount + s % TCount;
  }

  /** And composition followed by decomposition gives the jamo back. */
  lemma DecomposeCompose(j: Jamo)
    requires ValidJamo(j)
    ensures Decompose(Compose(j)) == j
  {
    var low := j.vowel * 28 + j.trail;
    assert (j.lead * VCount + j.vowel) * TCount + j.trail == j.lead * 588 + low;
    DivModBlock(j.lead, low);
    DivModTrail(j.vowel, j.trail);
  }

  /** Division by the block size recovers the lead index and the rest. */
  lemma DivModBlock(q: nat, r: nat)
    requires r < 588
    ensures (q * 588 + r) / 588 == q && (q * 588 + r) % 588 == r
  {
  }

  /** Division by the trail count recovers the vowel and trail indices. */
  lemma DivModTrail(q: nat, r: nat)
    requires r < 28
    ensures (q * 28 + r) / 28 == q && (q * 28 + r) % 28 == r
  {
  }

  /** A particle pair: the form used after a consonant-final syllable and
      the form used after a vowel-final one. */
  datatype Particle = Particle(afterConsonant: char, afterVowel: char)

  /** The pair that `c` belongs to: 은/는, 이/가, 을/를, 과/와. */
  function PairOf(c: char): Option<Particle>
  {
    if c == '은' || c == '는' then Some(Particle('은', '는'))
    else if c == '이' || c == '가' then Some(Particle('이', '가'))
    else if c == '을' || c == '를' then Some(Particle('을', '를'))
    else if c == '과' || c == '와' then Some(Particle('과', '와'))
    else None
  }

  /** The form of `p` that follows a word whose last character is `last`. */
  function Correct(p: Particle, last: char): char
  {
    if HasFinalConsonant(last) then p.afterConsonant else p.afterVowel
  }

  /** The pairs are closed: both forms of a pair map back to that pair, and
      the chosen form is always one of the pair's members, so repairing a
      particle never moves it to another pair. */
  lemma PairsAreClosed(c: char, last: char)
    requires PairOf(c).Some?
    ensures var p := PairOf(c).value;
            && (c == p.afterConsonant || c == p.afterVowel)
            && p.afterConsonant != p.afterVowel
            && PairOf(Correct(p, last)) == Some(p)
  {
  }
}
