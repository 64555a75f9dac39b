/** Particle (josa) repair: after a replacement is spliced into Korean text,
    the single character right after it is rewritten, if it is one of the
    eight particles, to the form that agrees with the replacement's last
    character. */
module Particles {
  import opened Seqs
  import opened Hangul
  import opened Tokens

  /** Position `j` of `w` holds one of 은/는/이/가/을/를/과/와. */
  predicate ParticleAt(w: Work, j: int)
  {
    0 <= j < |w| && w[j].Ch? && PairOf(w[j].c).Some?
  }

  /** The repair step applied at index `j` after a splice whose inserted
      text ends with `last`. */
  function RepairAt(w: Work, j: nat, last: char): Work
  {
    if ParticleAt(w, j) then w[j := Ch(Correct(PairOf(w[j].c).value, last))] else w
  }

  /** Repair rewrites at most the one position `j`, and only a particle
      there; the particle stays in its pair and takes the after-consonant
      form exactly when `last` ends in a consonant. */
  lemma RepairAtMeaning(w: Work, j: nat, last: char)
    ensures var r := RepairAt(w, j, last);
            && |r| == |w|
            && (forall k :: 0 <= k < |w| && k != j ==> r[k] == w[k])
            && (r != w ==> ParticleAt(w, j))
            && (ParticleAt(w, j) ==>
                  && ParticleAt(r, j)
                  && PairOf(r[j].c) == PairOf(w[j].c)
                  && (r[j].c == PairOf(w[j].c).value.afterConsonant <==> HasFinalConsonant(last)))
  {
    if ParticleAt(w, j) {
      PairsAreClosed(w[j].c, last);
    }
  }

  /** A particle already in the form `last` calls for is left alone. */
  lemma RepairKeepsCorrectText(w: Work, j: nat, last: char)
    requires ParticleAt(w, j) && w[j].c == Correct(PairOf(w[j].c).value, last)
    ensures RepairAt(w, j, last) == w
  {
  }

  /** Repairing twice is repairing once. */
  lemma RepairIdempotent(w: Work, j: nat, last: char)
    ensures RepairAt(RepairAt(w, j, last), j, last) == RepairAt(w, j, last)
  {
    if ParticleAt(w, j) {
      PairsAreClosed(w[j].c, last);
    }
  }

  /** Repair at the seam of a concatenation touches only the right part. */
  lemma RepairAtSeam(a: Work, b: Work, last: char)
    ensures RepairAt(a + b, |a|, last) == a + RepairAt(b, 0, last)
  {
    assert ParticleAt(a + b, |a|) <==> ParticleAt(b, 0);
  }
}
