/**
 * The Arabic finder (src/arabic.rs): every non-blank word is cut into
 * windows of four optional grapheme clusters, an ordered rule table picks at
 * most one candidate per window, each word keeps its best candidate, and the
 * survivors are returned best first.
 */
module Arabic {
  import opened Wrappers
  import opened Utf8
  import opened CodePoints
  import opened Segmentation
  import opened Candidates

  predicate IsSeenOrSad(c: char) { IsSad(c) || IsSeen(c) }
  predicate IsYehOrMeem(c: char) { IsYeh(c) || IsMeem(c) }
  predicate IsTahLamOrKaf(c: char) { IsTah(c) || IsLam(c) || IsKaf(c) }
  predicate IsAinFehOrQaf(c: char) { IsAin(c) || IsFeh(c) || IsQaf(c) }
  predicate IsDalOrTehMarbouta(c: char) { IsDal(c) || IsTehMarbouta(c) }
  predicate IsKashida(c: char) { c == Kashida }

  /** Every char of the cluster is the kashida (`g.chars().all(|c| c == KASHIDA)`). */
  predicate AllKashida(g: Grapheme) {
    Every(g.chars, IsKashida)
  }

  /** The priorities the rule table hands out. */
  predicate IsArabicPriority(p: nat) {
    p <= 7 || p == 9
  }

  /** Arm 1, the name of God: Lam, Lam, then Heh ending the word. */
  predicate IsSacredName(w: Window4) {
    && w.g1.Some? && w.g2.Some? && w.g3.Some? && w.g4.None?
    && Has(w.g1.value.chars, IsLam) && Has(w.g2.value.chars, IsLam) && Has(w.g3.value.chars, IsHeh)
  }

  /** Arm 2: the second cluster is an explicit kashida. */
  predicate IsExistingKashida(w: Window4) {
    w.g2.Some? && AllKashida(w.g2.value)
  }

  /**
   * Arm 3, a two-letter word: the first letter joins (a Lam only when the
   * second letter is no Alef).
   */
  predicate IsTwoLetterWord(w: Window4) {
    && w.g1.Some? && w.g2.Some? && w.g3.None? && w.g4.None?
    && (|| Has(w.g1.value.chars, IsConnectorExceptLam)
        || (Has(w.g1.value.chars, IsLam) && !Has(w.g2.value.chars, IsAlef)))
  }

  predicate SeenSadGuard(g1: Grapheme, g2: Grapheme, isAlphabetic: char -> bool) {
    Has(g1.chars, IsSeenOrSad) && Has(g2.chars, isAlphabetic)
  }

  /**
   * Arm 4, after Seen or Sad: the pair bound by the first alternative of
   * `(Some(g1), Some(g2), ..) | (_, Some(g1), Some(g2), _)` whose guard holds.
   */
  function SeenSadPair(w: Window4, isAlphabetic: char -> bool): Option<(Grapheme, Grapheme)> {
    if w.g1.Some? && w.g2.Some? && SeenSadGuard(w.g1.value, w.g2.value, isAlphabetic) then
      Some((w.g1.value, w.g2.value))
    else if w.g2.Some? && w.g3.Some? && SeenSadGuard(w.g2.value, w.g3.value, isAlphabetic) then
      Some((w.g2.value, w.g3.value))
    else None
  }

  /** Arm 5: a joining letter, a tooth, then Yeh or Meem ending the word. */
  predicate IsToothBeforeFinalYehMeem(w: Window4) {
    && w.g1.Some? && w.g2.Some? && w.g3.Some? && w.g4.None?
    && Has(w.g1.value.chars, IsConnector) && Has(w.g2.value.chars, IsTooth)
    && Has(w.g3.value.chars, IsYehOrMeem)
  }

  /** Arm 6: the last letter of the word, after a connector that is no Lam. */
  predicate IsFinalLetter(w: Window4) {
    w.g2.Some? && w.g3.Some? && w.g4.None? && Has(w.g2.value.chars, IsConnectorExceptLam)
  }

  /** The priority arm 6 gives the last letter `g`. */
  function FinalLetterPriority(g: Grapheme): nat {
    if Has(g.chars, IsHeh) then 2
    else if Has(g.chars, IsTahLamOrKaf) then 3
    else if Has(g.chars, IsAinFehOrQaf) then 5
    else 6
  }

  /** Arm 7: a joining letter, then Lam, then Alef. */
  predicate IsLamAlef(w: Window4) {
    && w.g1.Some? && w.g2.Some? && w.g3.Some?
    && Has(w.g1.value.chars, IsConnector) && Has(w.g2.value.chars, IsLam) && Has(w.g3.value.chars, IsAlef)
  }

  /** Arm 8: a joining letter, a tooth, then Reh. */
  predicate IsToothBeforeReh(w: Window4) {
    && w.g1.Some? && w.g2.Some? && w.g3.Some?
    && Has(w.g1.value.chars, IsConnector) && Has(w.g2.value.chars, IsTooth) && Has(w.g3.value.chars, IsReh)
  }

  /**
   * Arm 9, a connection: the pair bound by the first alternative of
   * `(Some(preceding), Some(g), ..) | (_, Some(preceding), Some(g), _)`
   * whose preceding cluster joins.
   */
  function ConnectionPair(w: Window4): Option<(Grapheme, Grapheme)> {
    if w.g1.Some? && w.g2.Some? && Has(w.g1.value.chars, IsConnector) then Some((w.g1.value, w.g2.value))
    else if w.g2.Some? && w.g3.Some? && Has(w.g2.value.chars, IsConnector) then Some((w.g2.value, w.g3.value))
    else None
  }

  /**
   * The priority arm 9 gives the connection before `g`, if any: none when a
   * Lam precedes anything but Dal, Teh Marbuta or Waw.
   */
  function ConnectionPriority(preceding: Grapheme, g: Grapheme): Option<nat> {
    if Has(g.chars, IsDalOrTehMarbouta) then Some(2)
    else if !Has(preceding.chars, IsLam) && Has(g.chars, IsAlef) then Some(4)
    else if Has(g.chars, IsWaw) then Some(5)
    else if !Has(preceding.chars, IsLam) then Some(7)
    else None
  }

  /**
   * `find_kashidas_in_glyph_run`: the arms are tried in order and the first
   * whose pattern and guard hold decides the window, even when it emits
   * nothing. A candidate always sits at the second or third cluster.
   */
  function GlyphRun(w: Window4, isAlphabetic: char -> bool): (r: Option<Candidate>)
    ensures r.Some? ==> IsArabicPriority(r.value.priority)
    ensures r.Some? ==> || (w.g2.Some? && r.value.breakpoint == w.g2.value.start)
                        || (w.g3.Some? && r.value.breakpoint == w.g3.value.start)
  {
    if IsSacredName(w) then None
    else if IsExistingKashida(w) then Some(Candidate(w.g2.value.start, 0))
    else if IsTwoLetterWord(w) then Some(Candidate(w.g2.value.start, 9))
    else if SeenSadPair(w, isAlphabetic).Some? then Some(Candidate(SeenSadPair(w, isAlphabetic).value.1.start, 1))
    else if IsToothBeforeFinalYehMeem(w) then Some(Candidate(w.g2.value.start, 4))
    else if IsFinalLetter(w) then Some(Candidate(w.g3.value.start, FinalLetterPriority(w.g3.value)))
    else if IsLamAlef(w) then Some(Candidate(w.g2.value.start, 3))
    else if IsToothBeforeReh(w) then Some(Candidate(w.g2.value.start, 4))
    else if ConnectionPair(w).Some? then
      var (preceding, g) := ConnectionPair(w).value;
      match ConnectionPriority(preceding, g)
      case Some(p) => Some(Candidate(g.start, p))
      case None => None
    else None
  }

  /** The rule as a function value, for the aggregation. */
  function Rule(isAlphabetic: char -> bool): Window4 -> Option<Candidate> {
    w => GlyphRun(w, isAlphabetic)
  }

  /** A word's windows: its clusters padded with `None` to at least three, one more `None`, four at a time. */
  function WordWindows(w: Word): seq<Window4> {
    Windows4(Padded(w, 3) + [None])
  }

  /** The windows of every retained word, by word index. */
  function AllWindows(segments: seq<Word>, isWhitespace: char -> bool): seq<seq<Window4>> {
    var words := Retained(segments, isWhitespace);
    seq(|words|, k requires 0 <= k < |words| => WordWindows(words[k]))
  }

  /** The candidate each word keeps, in word order. */
  function ArabicSurvivors(segments: seq<Word>, isWhitespace: char -> bool, isAlphabetic: char -> bool): seq<Candidate> {
    Survivors(AllWindows(segments, isWhitespace), Rule(isAlphabetic))
  }

  /**
   * A word of n clusters gives max(n, 3) - 2 windows, and window j holds
   * clusters j to j + 3, `None` past the end of the word.
   */
  lemma WordWindowsShape(w: Word)
    ensures |WordWindows(w)| == if |w| < 3 then 1 else |w| - 2
    ensures forall j :: 0 <= j < |WordWindows(w)| ==>
              WordWindows(w)[j] == Window4(At(w, j), At(w, j + 1), At(w, j + 2), At(w, j + 3))
  {
  }

  /**
   * Every candidate a word emits sits at the start of one of its clusters,
   * never the first, and has a priority from the table.
   */
  lemma EmittedInWord(w: Word, isAlphabetic: char -> bool, c: Candidate)
    requires c in Emitted(WordWindows(w), Rule(isAlphabetic))
    ensures exists i :: 1 <= i < |w| && w[i].start == c.breakpoint
    ensures IsArabicPriority(c.priority)
  {
    EmittedByAWindow(WordWindows(w), Rule(isAlphabetic), c);
    var j :| 0 <= j < |WordWindows(w)| && Rule(isAlphabetic)(WordWindows(w)[j]) == Some(c);
    var win := WordWindows(w)[j];
    assert GlyphRun(win, isAlphabetic) == Some(c);
    WindowClusters(w, j);
    if win.g2.Some? && c.breakpoint == win.g2.value.start {
      assert w[j + 1].start == c.breakpoint;
    } else {
      assert w[j + 2].start == c.breakpoint;
    }
  }

  /** The second and third clusters of window `j`, when present, are clusters `j + 1` and `j + 2` of the word. */
  lemma WindowClusters(w: Word, j: nat)
    requires j < |WordWindows(w)|
    ensures WordWindows(w)[j].g2.Some? ==> j + 1 < |w| && WordWindows(w)[j].g2.value == w[j + 1]
    ensures WordWindows(w)[j].g3.Some? ==> j + 2 < |w| && WordWindows(w)[j].g3.value == w[j + 2]
  {
    WordWindowsShape(w);
  }

  /** Each survivor sits at the start of a cluster of a retained word, never its first. */
  lemma SurvivorInWord(segments: seq<Word>, isWhitespace: char -> bool, isAlphabetic: char -> bool, c: Candidate)
    requires c in ArabicSurvivors(segments, isWhitespace, isAlphabetic)
    ensures IsInnerClusterStart(Retained(segments, isWhitespace), c.breakpoint)
    ensures IsArabicPriority(c.priority)
  {
    var words := Retained(segments, isWhitespace);
    var windows := AllWindows(segments, isWhitespace);
    SurvivorOfAWord(windows, Rule(isAlphabetic), c);
    var k :| 0 <= k < |windows| && c in Emitted(windows[k], Rule(isAlphabetic));
    assert windows[k] == WordWindows(words[k]);
    EmittedInWord(words[k], isAlphabetic, c);
    var i :| 1 <= i < |words[k]| && words[k][i].start == c.breakpoint;
    assert IsInnerClusterStart(words, c.breakpoint);
  }

  /**
   * `find_kashidas`: the offsets of the candidates the words keep, best
   * priority first. Each is the start of a cluster of a non-blank word (never
   * its first), so it lies inside the input on a character boundary.
   */
  method FindKashidas(input: seq<byte>, segments: seq<Word>, isWhitespace: char -> bool, isAlphabetic: char -> bool)
    returns (offsets: seq<nat>)
    requires WellFormed(input, segments)
    ensures IsRankedOutput(offsets, ArabicSurvivors(segments, isWhitespace, isAlphabetic))
    ensures forall o :: o in offsets ==> IsInnerClusterStart(Retained(segments, isWhitespace), o)
    ensures forall o :: o in offsets ==> o < |input| && IsCharBoundary(input, o)
  {
    var words := Retained(segments, isWhitespace);
    var windows := seq(|words|, k requires 0 <= k < |words| => WordWindows(words[k]));
    var candidates := CollectBest(windows, Rule(isAlphabetic));
    offsets := RankSurvivors(candidates, |windows|);
    BestPerWordInKeyOrder(windows, Rule(isAlphabetic));
    assert windows == AllWindows(segments, isWhitespace);
    ghost var survivors := ArabicSurvivors(segments, isWhitespace, isAlphabetic);
    RankedOutputOffsets(offsets, survivors);
    RetainedWellFormed(input, segments, isWhitespace);
    forall o | o in offsets
      ensures IsInnerClusterStart(words, o) && o < |input| && IsCharBoundary(input, o)
    {
      var c :| c in survivors && c.breakpoint == o;
      SurvivorInWord(segments, isWhitespace, isAlphabetic, c);
      assert IsGraphemeStart(words, o);
      GraphemeStartIsCharBoundary(input, words, o);
    }
  }
}
