/**
 * The Arabic rule table (src/arabic.rs, `find_kashidas_in_glyph_run`) row by
 * row, over arbitrary windows. Each row's condition is stated directly over
 * the chars of the clusters; a row decides the window only when every
 * earlier row's condition fails, as in a `match` whose arms are tried in
 * order.
 */
module ArabicRules {
  import opened Wrappers
  import opened CodePoints
  import opened Segmentation
  import opened Candidates
  import opened Arabic

  /** The cluster is present and some char of it has the property (`g.contains(p)`). */
  ghost predicate Holds(g: Option<Grapheme>, p: char -> bool) {
    g.Some? && exists c :: c in g.value.chars && p(c)
  }

  /** Row 1: Lam, Lam, then Heh ending the word. */
  ghost predicate SacredNameRow(w: Window4) {
    Holds(w.g1, IsLam) && Holds(w.g2, IsLam) && Holds(w.g3, IsHeh) && w.g4.None?
  }

  /** Row 2: every char of the second cluster is U+0640. */
  ghost predicate ExistingKashidaRow(w: Window4) {
    w.g2.Some? && forall c :: c in w.g2.value.chars ==> c == '\U{0640}'
  }

  /** Row 3: a two-cluster word whose first letter joins, a Lam only when no Alef follows. */
  ghost predicate TwoLetterRow(w: Window4) {
    && w.g1.Some? && w.g2.Some? && w.g3.None? && w.g4.None?
    && (Holds(w.g1, IsConnectorExceptLam) || (Holds(w.g1, IsLam) && forall c :: c in w.g2.value.chars ==> !IsAlef(c)))
  }

  /** Row 4, first alternative: Seen or Sad in the first cluster, a letter in the second. */
  ghost predicate SeenSadFirst(w: Window4, isAlphabetic: char -> bool) {
    Holds(w.g1, IsSeenOrSad) && Holds(w.g2, isAlphabetic)
  }

  /** Row 4, second alternative: Seen or Sad in the second cluster, a letter in the third. */
  ghost predicate SeenSadSecondRow(w: Window4, isAlphabetic: char -> bool) {
    Holds(w.g2, IsSeenOrSad) && Holds(w.g3, isAlphabetic)
  }

  /** Row 5: a joining letter, a tooth, then Yeh or Meem ending the word. */
  ghost predicate ToothFinalYehMeemRow(w: Window4) {
    Holds(w.g1, IsConnector) && Holds(w.g2, IsTooth) && Holds(w.g3, IsYehOrMeem) && w.g4.None?
  }

  /** Row 6: the last cluster of the word after a joining letter that is no Lam. */
  ghost predicate FinalLetterRow(w: Window4) {
    Holds(w.g2, IsConnectorExceptLam) && w.g3.Some? && w.g4.None?
  }

  /** Row 7: a joining letter, Lam, then Alef. */
  ghost predicate LamAlefRow(w: Window4) {
    Holds(w.g1, IsConnector) && Holds(w.g2, IsLam) && Holds(w.g3, IsAlef)
  }

  /** Row 8: a joining letter, a tooth, then Reh. */
  ghost predicate ToothRehRow(w: Window4) {
    Holds(w.g1, IsConnector) && Holds(w.g2, IsTooth) && Holds(w.g3, IsReh)
  }

  /** Row 9, first alternative: a joining letter in the first cluster, a second cluster after it. */
  ghost predicate ConnectionFirst(w: Window4) {
    Holds(w.g1, IsConnector) && w.g2.Some?
  }

  /** Row 9, second alternative: a joining letter in the second cluster, a third cluster after it. */
  ghost predicate ConnectionSecondRow(w: Window4) {
    Holds(w.g2, IsConnector) && w.g3.Some?
  }

  /** None of the rows before row `k` applies to the window. */
  ghost predicate FailsRowsBefore(w: Window4, isAlphabetic: char -> bool, k: nat) {
    && (k > 1 ==> !SacredNameRow(w))
    && (k > 2 ==> !ExistingKashidaRow(w))
    && (k > 3 ==> !TwoLetterRow(w))
    && (k > 4 ==> !SeenSadFirst(w, isAlphabetic) && !SeenSadSecondRow(w, isAlphabetic))
    && (k > 5 ==> !ToothFinalYehMeemRow(w))
    && (k > 6 ==> !FinalLetterRow(w))
    && (k > 7 ==> !LamAlefRow(w))
    && (k > 8 ==> !ToothRehRow(w))
    && (k > 9 ==> !ConnectionFirst(w) && !ConnectionSecondRow(w))
  }

  /**
   * Reference for row 9: the connection before `g` gets 2 before Dal or Teh
   * Marbuta, 4 before Alef when no Lam precedes, 5 before Waw, 7 before
   * anything else when no Lam precedes, and nothing otherwise.
   */
  ghost function ConnectionOutcome(preceding: Grapheme, g: Grapheme): Option<Candidate> {
    if Holds(Some(g), IsDalOrTehMarbouta) then Some(Candidate(g.start, 2))
    else if !Holds(Some(preceding), IsLam) && Holds(Some(g), IsAlef) then Some(Candidate(g.start, 4))
    else if Holds(Some(g), IsWaw) then Some(Candidate(g.start, 5))
    else if !Holds(Some(preceding), IsLam) then Some(Candidate(g.start, 7))
    else None
  }

  /** `Has` on a present cluster is the reference `Holds`. */
  lemma HasHolds(g: Option<Grapheme>, p: char -> bool)
    ensures g.Some? ==> (Has(g.value.chars, p) <==> Holds(g, p))
  {
    if g.Some? {
      HasSome(g.value.chars, p);
    }
  }

  // Each arm predicate of `GlyphRun` is its row's condition.

  lemma SacredNameAgrees(w: Window4)
    ensures IsSacredName(w) <==> SacredNameRow(w)
  {
    HasHolds(w.g1, IsLam);
    HasHolds(w.g2, IsLam);
    HasHolds(w.g3, IsHeh);
  }

  lemma ExistingKashidaAgrees(w: Window4)
    ensures IsExistingKashida(w) <==> ExistingKashidaRow(w)
  {
    if w.g2.Some? {
      EverySome(w.g2.value.chars, IsKashida);
    }
  }

  lemma TwoLetterAgrees(w: Window4)
    ensures IsTwoLetterWord(w) <==> TwoLetterRow(w)
  {
    HasHolds(w.g1, IsConnectorExceptLam);
    HasHolds(w.g1, IsLam);
    HasHolds(w.g2, IsAlef);
  }

  lemma SeenSadAgrees(w: Window4, isAlphabetic: char -> bool)
    ensures SeenSadPair(w, isAlphabetic).Some? <==> SeenSadFirst(w, isAlphabetic) || SeenSadSecondRow(w, isAlphabetic)
    ensures SeenSadFirst(w, isAlphabetic) ==> SeenSadPair(w, isAlphabetic) == Some((w.g1.value, w.g2.value))
    ensures !SeenSadFirst(w, isAlphabetic) && SeenSadSecondRow(w, isAlphabetic) ==>
              SeenSadPair(w, isAlphabetic) == Some((w.g2.value, w.g3.value))
  {
    HasHolds(w.g1, IsSeenOrSad);
    HasHolds(w.g2, IsSeenOrSad);
    HasHolds(w.g2, isAlphabetic);
    HasHolds(w.g3, isAlphabetic);
  }

  lemma ToothFinalYehMeemAgrees(w: Window4)
    ensures IsToothBeforeFinalYehMeem(w) <==> ToothFinalYehMeemRow(w)
  {
    HasHolds(w.g1, IsConnector);
    HasHolds(w.g2, IsTooth);
    HasHolds(w.g3, IsYehOrMeem);
  }

  lemma FinalLetterAgrees(w: Window4)
    ensures IsFinalLetter(w) <==> FinalLetterRow(w)
  {
    HasHolds(w.g2, IsConnectorExceptLam);
  }

  lemma LamAlefAgrees(w: Window4)
    ensures IsLamAlef(w) <==> LamAlefRow(w)
  {
    HasHolds(w.g1, IsConnector);
    HasHolds(w.g2, IsLam);
    HasHolds(w.g3, IsAlef);
  }

  lemma ToothRehAgrees(w: Window4)
    ensures IsToothBeforeReh(w) <==> ToothRehRow(w)
  {
    HasHolds(w.g1, IsConnector);
    HasHolds(w.g2, IsTooth);
    HasHolds(w.g3, IsReh);
  }

  lemma ConnectionAgrees(w: Window4)
    ensures ConnectionPair(w).Some? <==> ConnectionFirst(w) || ConnectionSecondRow(w)
    ensures ConnectionFirst(w) ==> ConnectionPair(w) == Some((w.g1.value, w.g2.value))
    ensures !ConnectionFirst(w) && ConnectionSecondRow(w) ==> ConnectionPair(w) == Some((w.g2.value, w.g3.value))
  {
    HasHolds(w.g1, IsConnector);
    HasHolds(w.g2, IsConnector);
  }

  /** The rows before `k` fail in the terms `GlyphRun` tests. */
  lemma FailedRows(w: Window4, isAlphabetic: char -> bool, k: nat)
    requires FailsRowsBefore(w, isAlphabetic, k)
    ensures k > 1 ==> !IsSacredName(w)
    ensures k > 2 ==> !IsExistingKashida(w)
    ensures k > 3 ==> !IsTwoLetterWord(w)
    ensures k > 4 ==> SeenSadPair(w, isAlphabetic).None?
    ensures k > 5 ==> !IsToothBeforeFinalYehMeem(w)
    ensures k > 6 ==> !IsFinalLetter(w)
    ensures k > 7 ==> !IsLamAlef(w)
    ensures k > 8 ==> !IsToothBeforeReh(w)
    ensures k > 9 ==> ConnectionPair(w).None?
  {
    SacredNameAgrees(w);
    ExistingKashidaAgrees(w);
    TwoLetterAgrees(w);
    SeenSadAgrees(w, isAlphabetic);
    ToothFinalYehMeemAgrees(w);
    FinalLetterAgrees(w);
    LamAlefAgrees(w);
    ToothRehAgrees(w);
    ConnectionAgrees(w);
  }

  /** Row 1 silences the window: the name of God takes no kashida. */
  lemma SacredNameSilences(w: Window4, isAlphabetic: char -> bool)
    requires SacredNameRow(w)
    ensures GlyphRun(w, isAlphabetic) == None
  {
    SacredNameAgrees(w);
  }

  /** Row 2: failing row 1, a cluster made only of kashidas gets priority 0 at its own start. */
  lemma ExistingKashidaArm(w: Window4, isAlphabetic: char -> bool)
    requires FailsRowsBefore(w, isAlphabetic, 2) && ExistingKashidaRow(w)
    ensures GlyphRun(w, isAlphabetic) == Some(Candidate(w.g2.value.start, 0))
  {
    FailedRows(w, isAlphabetic, 2);
    ExistingKashidaAgrees(w);
  }

  /** Row 3: failing rows 1-2, a two-letter word gets priority 9 at its second cluster. */
  lemma TwoLetterArm(w: Window4, isAlphabetic: char -> bool)
    requires FailsRowsBefore(w, isAlphabetic, 3) && TwoLetterRow(w)
    ensures GlyphRun(w, isAlphabetic) == Some(Candidate(w.g2.value.start, 9))
  {
    FailedRows(w, isAlphabetic, 3);
    TwoLetterAgrees(w);
  }

  /** Row 4: failing rows 1-3, the letter after Seen or Sad gets priority 1, through the first alternative that holds. */
  lemma SeenSadArm(w: Window4, isAlphabetic: char -> bool)
    requires FailsRowsBefore(w, isAlphabetic, 4)
    requires SeenSadFirst(w, isAlphabetic) || SeenSadSecondRow(w, isAlphabetic)
    ensures SeenSadFirst(w, isAlphabetic) ==> GlyphRun(w, isAlphabetic) == Some(Candidate(w.g2.value.start, 1))
    ensures !SeenSadFirst(w, isAlphabetic) ==> GlyphRun(w, isAlphabetic) == Some(Candidate(w.g3.value.start, 1))
  {
    FailedRows(w, isAlphabetic, 4);
    SeenSadAgrees(w, isAlphabetic);
  }

  /** Row 5: failing rows 1-4, a tooth before a final Yeh or Meem gets priority 4 at the tooth. */
  lemma ToothFinalYehMeemArm(w: Window4, isAlphabetic: char -> bool)
    requires FailsRowsBefore(w, isAlphabetic, 5) && ToothFinalYehMeemRow(w)
    ensures GlyphRun(w, isAlphabetic) == Some(Candidate(w.g2.value.start, 4))
  {
    FailedRows(w, isAlphabetic, 5);
    ToothFinalYehMeemAgrees(w);
  }

  /**
   * Row 6: failing rows 1-5, the last letter gets 2 if it holds a Heh, else
   * 3 for Tah, Lam or Kaf, else 5 for Ain, Feh or Qaf, else 6.
   */
  lemma FinalLetterArm(w: Window4, isAlphabetic: char -> bool)
    requires FailsRowsBefore(w, isAlphabetic, 6) && FinalLetterRow(w)
    ensures Holds(w.g3, IsHeh) ==> GlyphRun(w, isAlphabetic) == Some(Candidate(w.g3.value.start, 2))
    ensures !Holds(w.g3, IsHeh) && Holds(w.g3, IsTahLamOrKaf) ==>
              GlyphRun(w, isAlphabetic) == Some(Candidate(w.g3.value.start, 3))
    ensures !Holds(w.g3, IsHeh) && !Holds(w.g3, IsTahLamOrKaf) && Holds(w.g3, IsAinFehOrQaf) ==>
              GlyphRun(w, isAlphabetic) == Some(Candidate(w.g3.value.start, 5))
    ensures !Holds(w.g3, IsHeh) && !Holds(w.g3, IsTahLamOrKaf) && !Holds(w.g3, IsAinFehOrQaf) ==>
              GlyphRun(w, isAlphabetic) == Some(Candidate(w.g3.value.start, 6))
  {
    FailedRows(w, isAlphabetic, 6);
    FinalLetterAgrees(w);
    HasHolds(w.g3, IsHeh);
    HasHolds(w.g3, IsTahLamOrKaf);
    HasHolds(w.g3, IsAinFehOrQaf);
  }

  /** Row 7: failing rows 1-6, Lam before Alef after a joining letter gets priority 3 at the Lam. */
  lemma LamAlefArm(w: Window4, isAlphabetic: char -> bool)
    requires FailsRowsBefore(w, isAlphabetic, 7) && LamAlefRow(w)
    ensures GlyphRun(w, isAlphabetic) == Some(Candidate(w.g2.value.start, 3))
  {
    FailedRows(w, isAlphabetic, 7);
    LamAlefAgrees(w);
  }

  /** Row 8: failing rows 1-7, a tooth before Reh after a joining letter gets priority 4 at the tooth. */
  lemma ToothRehArm(w: Window4, isAlphabetic: char -> bool)
    requires FailsRowsBefore(w, isAlphabetic, 8) && ToothRehRow(w)
    ensures GlyphRun(w, isAlphabetic) == Some(Candidate(w.g2.value.start, 4))
  {
    FailedRows(w, isAlphabetic, 8);
    ToothRehAgrees(w);
  }

  /** The priority row 9 gives, read over the chars of the two clusters. */
  lemma ConnectionPriorityAgrees(preceding: Grapheme, g: Grapheme)
    ensures match ConnectionPriority(preceding, g)
            case Some(p) => ConnectionOutcome(preceding, g) == Some(Candidate(g.start, p))
            case None => ConnectionOutcome(preceding, g) == None
  {
    HasHolds(Some(g), IsDalOrTehMarbouta);
    HasHolds(Some(preceding), IsLam);
    HasHolds(Some(g), IsAlef);
    HasHolds(Some(g), IsWaw);
  }

  /** Row 9 through its first alternative: failing rows 1-8, the connection from the first cluster to the second. */
  lemma ConnectionFirstArm(w: Window4, isAlphabetic: char -> bool)
    requires FailsRowsBefore(w, isAlphabetic, 9) && ConnectionFirst(w)
    ensures GlyphRun(w, isAlphabetic) == ConnectionOutcome(w.g1.value, w.g2.value)
  {
    FailedRows(w, isAlphabetic, 9);
    ConnectionAgrees(w);
    ConnectionPriorityAgrees(w.g1.value, w.g2.value);
  }

  /** Row 9 through its second alternative: failing the first, the connection from the second cluster to the third. */
  lemma ConnectionSecondArm(w: Window4, isAlphabetic: char -> bool)
    requires FailsRowsBefore(w, isAlphabetic, 9) && !ConnectionFirst(w) && ConnectionSecondRow(w)
    ensures GlyphRun(w, isAlphabetic) == ConnectionOutcome(w.g2.value, w.g3.value)
  {
    FailedRows(w, isAlphabetic, 9);
    ConnectionAgrees(w);
    ConnectionPriorityAgrees(w.g2.value, w.g3.value);
  }

  /** The catch-all: a window no row applies to yields nothing. */
  lemma NoRowSilences(w: Window4, isAlphabetic: char -> bool)
    requires FailsRowsBefore(w, isAlphabetic, 10)
    ensures GlyphRun(w, isAlphabetic) == None
  {
    FailedRows(w, isAlphabetic, 10);
  }
}
