/**
 * Single rows of the Arabic rule table (src/arabic.rs), stated over what each
 * rule sees of the clusters of a window, and the one-char clusters the worked
 * examples are made of.
 */
module ArabicArms {
  import opened Wrappers
  import opened CodePoints
  import opened Segmentation
  import opened Candidates
  import opened Arabic

  /** A cluster of one char. */
  function G(start: nat, c: char): Grapheme {
    Grapheme(start, [c])
  }

  const Beh := '\U{0628}'
  const Seen := '\U{0633}'
  const Meem := '\U{0645}'
  const Alef := '\U{0627}'
  const Lam := '\U{0644}'
  const Heh := '\U{0647}'
  const Reh := '\U{0631}'
  const Hah := '\U{062D}'
  const Noon := '\U{0646}'
  const Yeh := '\U{064A}'

  // Where each letter of the examples falls in the tables.

  lemma BehClass() ensures !IsLam(Beh) && !IsSeenOrSad(Beh) {}
  lemma SeenClass() ensures IsSeenOrSad(Seen) && Seen != Kashida {}
  lemma AlefClass() ensures !IsSeenOrSad(Alef) && !IsConnector(Alef) {}
  lemma LamClass()
    ensures Lam != Kashida && IsLam(Lam) && IsConnector(Lam)
    ensures !IsSeenOrSad(Lam) && !IsDalOrTehMarbouta(Lam) && !IsWaw(Lam)
  {}
  lemma HehClass() ensures IsHeh(Heh) {}
  lemma RehClass()
    ensures Reh != Kashida && !IsSeenOrSad(Reh) && !IsConnector(Reh) && !IsLam(Reh) && !IsTooth(Reh)
    ensures !IsDalOrTehMarbouta(Reh) && !IsWaw(Reh)
  {}
  lemma HahClass() ensures Hah != Kashida && !IsSeenOrSad(Hah) && IsConnector(Hah) && !IsLam(Hah) {}
  lemma MeemClass()
    ensures Meem != Kashida && !IsDalOrTehMarbouta(Meem) && !IsAlef(Meem) && !IsWaw(Meem)
    ensures !IsSeenOrSad(Meem) && !IsTooth(Meem) && IsConnectorExceptLam(Meem) && IsYehOrMeem(Meem)
  {}
  lemma YehClass()
    ensures Yeh != Kashida && !IsDalOrTehMarbouta(Yeh) && !IsAlef(Yeh) && !IsWaw(Yeh)
    ensures !IsSeenOrSad(Yeh) && IsTooth(Yeh)
  {}
  lemma NoonClass() ensures !IsHeh(Noon) && !IsTahLamOrKaf(Noon) && !IsAinFehOrQaf(Noon) {}

  /** What a rule sees of a one-char cluster: just that char. */
  lemma HasOne(start: nat, c: char, p: char -> bool)
    ensures Has(G(start, c).chars, p) <==> p(c)
  {
    assert G(start, c).chars[1..] == [];
  }

  /** A one-char cluster holding a letter is no kashida. */
  lemma NoKashida(start: nat, c: char)
    requires c != Kashida
    ensures !AllKashida(G(start, c))
  {
  }

  // The arms that decide the example windows, stated over what a rule sees of
  // each cluster.

  /** Arm 4 through its second alternative: Seen or Sad, then a letter. */
  lemma SeenSadSecond(g1: Grapheme, g2: Grapheme, g3: Grapheme, isAlphabetic: char -> bool)
    requires !Has(g1.chars, IsLam) && !AllKashida(g2)
    requires !Has(g1.chars, IsSeenOrSad) && Has(g2.chars, IsSeenOrSad) && Has(g3.chars, isAlphabetic)
    ensures GlyphRun(Window4(Some(g1), Some(g2), Some(g3), None), isAlphabetic) == Some(Candidate(g3.start, 1))
  {
  }

  /** Arm 5: a tooth before a final Yeh or Meem. */
  lemma ToothBeforeFinalYehMeem(g1: Grapheme, g2: Grapheme, g3: Grapheme, isAlphabetic: char -> bool)
    requires !Has(g1.chars, IsLam) && !AllKashida(g2)
    requires !Has(g1.chars, IsSeenOrSad) && !Has(g2.chars, IsSeenOrSad)
    requires Has(g1.chars, IsConnector) && Has(g2.chars, IsTooth) && Has(g3.chars, IsYehOrMeem)
    ensures GlyphRun(Window4(Some(g1), Some(g2), Some(g3), None), isAlphabetic) == Some(Candidate(g2.start, 4))
  {
  }

  /** Arm 6 for a last letter that is none of Heh, Tah, Lam, Kaf, Ain, Feh or Qaf. */
  lemma PlainFinalLetter(g1: Grapheme, g2: Grapheme, g3: Grapheme, isAlphabetic: char -> bool)
    requires !Has(g1.chars, IsLam) && !AllKashida(g2)
    requires !Has(g1.chars, IsSeenOrSad) && !Has(g2.chars, IsSeenOrSad) && !Has(g2.chars, IsTooth)
    requires Has(g2.chars, IsConnectorExceptLam)
    requires !Has(g3.chars, IsHeh) && !Has(g3.chars, IsTahLamOrKaf) && !Has(g3.chars, IsAinFehOrQaf)
    ensures GlyphRun(Window4(Some(g1), Some(g2), Some(g3), None), isAlphabetic) == Some(Candidate(g3.start, 6))
  {
  }

  /** Arm 9 through its second alternative, after a joining letter that is no Lam, before an ordinary letter. */
  lemma PlainConnectionSecond(g1: Grapheme, g2: Grapheme, g3: Grapheme, g4: Grapheme, isAlphabetic: char -> bool)
    requires !AllKashida(g2)
    requires !Has(g1.chars, IsSeenOrSad) && !Has(g2.chars, IsSeenOrSad)
    requires !Has(g1.chars, IsConnector) && Has(g2.chars, IsConnector) && !Has(g2.chars, IsLam)
    requires !Has(g3.chars, IsDalOrTehMarbouta) && !Has(g3.chars, IsAlef) && !Has(g3.chars, IsWaw)
    ensures GlyphRun(Window4(Some(g1), Some(g2), Some(g3), Some(g4)), isAlphabetic) == Some(Candidate(g3.start, 7))
  {
  }

  /** Arm 9 through its first alternative, after a Lam, before a letter other than Dal, Teh Marbuta or Waw. */
  lemma NoConnectionAfterLamFirst(g1: Grapheme, g2: Grapheme, g3: Grapheme, g4: Grapheme, isAlphabetic: char -> bool)
    requires !AllKashida(g2)
    requires !Has(g1.chars, IsSeenOrSad) && !Has(g2.chars, IsSeenOrSad)
    requires !Has(g2.chars, IsLam) && !Has(g2.chars, IsTooth)
    requires Has(g1.chars, IsConnector) && Has(g1.chars, IsLam)
    requires !Has(g2.chars, IsDalOrTehMarbouta) && !Has(g2.chars, IsWaw)
    ensures GlyphRun(Window4(Some(g1), Some(g2), Some(g3), Some(g4)), isAlphabetic) == None
  {
  }

  /** Arm 9 through its second alternative, after a Lam, before a letter other than Dal, Teh Marbuta or Waw. */
  lemma NoConnectionAfterLamSecond(g1: Grapheme, g2: Grapheme, g3: Grapheme, g4: Grapheme, isAlphabetic: char -> bool)
    requires !AllKashida(g2)
    requires !Has(g1.chars, IsSeenOrSad) && !Has(g2.chars, IsSeenOrSad)
    requires !Has(g1.chars, IsConnector) && Has(g2.chars, IsConnector) && Has(g2.chars, IsLam)
    requires !Has(g3.chars, IsDalOrTehMarbouta) && !Has(g3.chars, IsWaw)
    ensures GlyphRun(Window4(Some(g1), Some(g2), Some(g3), Some(g4)), isAlphabetic) == None
  {
  }
}
