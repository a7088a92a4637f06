/**
 * The Syriac finder (src/syriac.rs): every non-blank word is cut into
 * windows of three optional grapheme clusters, a window offers the end of
 * an explicit kashida, nothing inside a Lamadh-Alaph ligature, or the start
 * of a joined second cluster; each word keeps its best candidate, and the
 * survivors are returned best first, as in the Arabic finder.
 */
module Syriac {
  import opened Wrappers
  import opened Utf8
  import opened CodePoints
  import opened Segmentation
  import opened Candidates
  import opened Global

  /** The Unicode Joining_Group property of a char, as far as the finder looks at it. */
  datatype JoiningGroup = Alaph | Lamadh | OtherGroup

  function JoinCauser(joiningType: char -> JoiningType): char -> bool {
    c => IsJoinCausing(joiningType, c)
  }

  /** `is_alaph` */
  function Alaphs(joiningGroup: char -> JoiningGroup): char -> bool {
    c => joiningGroup(c) == Alaph
  }

  /** `is_lamadh` */
  function Lamadhs(joiningGroup: char -> JoiningGroup): char -> bool {
    c => joiningGroup(c) == Lamadh
  }

  /** Arm 1: the second cluster is made of join-causing chars only. */
  predicate IsExistingKashida(w: Window3, joiningType: char -> JoiningType) {
    w.g2.Some? && Every(w.g2.value.chars, JoinCauser(joiningType))
  }

  /** A cluster holding a Lamadh directly followed by one holding an Alaph. */
  predicate IsLamadhAlaph(joiningGroup: char -> JoiningGroup, lam: Grapheme, alef: Grapheme) {
    Has(lam.chars, Lamadhs(joiningGroup)) && Has(alef.chars, Alaphs(joiningGroup))
  }

  /** Arm 2: the ligature sits in the first two slots, or, after a first cluster, in the last two. */
  predicate IsLigature(w: Window3, joiningGroup: char -> JoiningGroup) {
    || (w.g1.Some? && w.g2.Some? && IsLamadhAlaph(joiningGroup, w.g1.value, w.g2.value))
    || (w.g1.Some? && w.g2.Some? && w.g3.Some? && IsLamadhAlaph(joiningGroup, w.g2.value, w.g3.value))
  }

  /** Arm 3: the boundary between the first two clusters joins. */
  predicate IsJoinedPair(w: Window3, joiningType: char -> JoiningType) {
    w.g1.Some? && w.g2.Some? && IsJoint(joiningType, w.g1.value, w.g2.value)
  }

  /**
   * `find_kashidas_in_glyph_run`: the arms are tried in order. A candidate
   * has priority 0 or 1 and always belongs to the second cluster: priority 0
   * sits at its end, priority 1 at its start, after a first cluster.
   */
  function GlyphRun(w: Window3, joiningType: char -> JoiningType, joiningGroup: char -> JoiningGroup)
    : (r: Option<Candidate>)
    ensures r.Some? ==> w.g2.Some? && r.value.priority <= 1
    ensures r.Some? && r.value.priority == 0 ==> r.value.breakpoint == End(w.g2.value)
    ensures r.Some? && r.value.priority == 1 ==> w.g1.Some? && r.value.breakpoint == w.g2.value.start
  {
    if IsExistingKashida(w, joiningType) then Some(Candidate(End(w.g2.value), 0))
    else if IsLigature(w, joiningGroup) then None
    else if IsJoinedPair(w, joiningType) then Some(Candidate(w.g2.value.start, 1))
    else None
  }

  /** Reference for arm 1: a present cluster all of whose chars are join-causing. */
  ghost predicate MadeOfJoinCausers(joiningType: char -> JoiningType, g: Option<Grapheme>) {
    g.Some? && forall c :: c in g.value.chars ==> joiningType(c) == JoinCausing
  }

  /** Reference for arm 2: two present clusters, a Lamadh in the first and an Alaph in the second. */
  ghost predicate LamadhThenAlaph(joiningGroup: char -> JoiningGroup, a: Option<Grapheme>, b: Option<Grapheme>) {
    && a.Some? && b.Some?
    && (exists c :: c in a.value.chars && joiningGroup(c) == Lamadh)
    && (exists c :: c in b.value.chars && joiningGroup(c) == Alaph)
  }

  /** Reference for arm 3: two present clusters, the first joining its follower and the second its predecessor. */
  ghost predicate JoinsAcross(joiningType: char -> JoiningType, a: Option<Grapheme>, b: Option<Grapheme>) {
    && a.Some? && b.Some?
    && (exists c :: c in a.value.chars && JoinsFollowing(joiningType, c))
    && (exists c :: c in b.value.chars && JoinsPreceding(joiningType, c))
  }

  /** Arm 1 comes first: a second cluster made of join-causing chars gives priority 0 at its end, even inside a ligature. */
  lemma KashidaArmFirst(w: Window3, joiningType: char -> JoiningType, joiningGroup: char -> JoiningGroup)
    requires MadeOfJoinCausers(joiningType, w.g2)
    ensures GlyphRun(w, joiningType, joiningGroup) == Some(Candidate(End(w.g2.value), 0))
  {
    EverySome(w.g2.value.chars, JoinCauser(joiningType));
  }

  /** Arm 2: failing arm 1, a Lamadh-Alaph ligature in the first two slots, or after a first cluster in the last two, silences the window. */
  lemma LigatureSilences(w: Window3, joiningType: char -> JoiningType, joiningGroup: char -> JoiningGroup)
    requires !MadeOfJoinCausers(joiningType, w.g2)
    requires LamadhThenAlaph(joiningGroup, w.g1, w.g2) || (w.g1.Some? && LamadhThenAlaph(joiningGroup, w.g2, w.g3))
    ensures GlyphRun(w, joiningType, joiningGroup) == None
  {
    EverySome(w.g2.value.chars, JoinCauser(joiningType));
    HasSome(w.g2.value.chars, Lamadhs(joiningGroup));
    HasSome(w.g2.value.chars, Alaphs(joiningGroup));
    HasSome(w.g1.value.chars, Lamadhs(joiningGroup));
    if w.g3.Some? {
      HasSome(w.g3.value.chars, Alaphs(joiningGroup));
    }
  }

  /**
   * Arm 3: failing the first two, the window gives priority 1 at the start of
   * its second cluster exactly when the boundary before it joins.
   */
  lemma JoinedPairArm(w: Window3, joiningType: char -> JoiningType, joiningGroup: char -> JoiningGroup)
    requires !MadeOfJoinCausers(joiningType, w.g2)
    requires !LamadhThenAlaph(joiningGroup, w.g1, w.g2) && !(w.g1.Some? && LamadhThenAlaph(joiningGroup, w.g2, w.g3))
    ensures JoinsAcross(joiningType, w.g1, w.g2) ==> GlyphRun(w, joiningType, joiningGroup) == Some(Candidate(w.g2.value.start, 1))
    ensures !JoinsAcross(joiningType, w.g1, w.g2) ==> GlyphRun(w, joiningType, joiningGroup) == None
  {
    if w.g2.Some? {
      EverySome(w.g2.value.chars, JoinCauser(joiningType));
      HasSome(w.g2.value.chars, PrecedingJoiner(joiningType));
      if w.g1.Some? {
        HasSome(w.g1.value.chars, FollowingJoiner(joiningType));
        HasSome(w.g1.value.chars, Lamadhs(joiningGroup));
        HasSome(w.g2.value.chars, Alaphs(joiningGroup));
        HasSome(w.g2.value.chars, Lamadhs(joiningGroup));
        if w.g3.Some? {
          HasSome(w.g3.value.chars, Alaphs(joiningGroup));
        }
      }
    }
  }

  /** The rule as a function value, for the aggregation. */
  function Rule(joiningType: char -> JoiningType, joiningGroup: char -> JoiningGroup): Window3 -> Option<Candidate> {
    w => GlyphRun(w, joiningType, joiningGroup)
  }

  /** A word's windows: its clusters padded with `None` to at least three, three at a time, with no trailing `None`. */
  function WordWindows(w: Word): seq<Window3> {
    Windows3(Padded(w, 3))
  }

  /**
   * A word of n clusters gives max(n, 3) - 2 windows, and window j holds
   * clusters j to j + 2, `None` past the end of the word.
   */
  lemma WordWindowsShape(w: Word)
    ensures |WordWindows(w)| == if |w| < 3 then 1 else |w| - 2
    ensures forall j :: 0 <= j < |WordWindows(w)| ==> WordWindows(w)[j] == Window3(At(w, j), At(w, j + 1), At(w, j + 2))
  {
  }

  /** The windows of every retained word, by word index. */
  function AllWindows(segments: seq<Word>, isWhitespace: char -> bool): seq<seq<Window3>> {
    var words := Retained(segments, isWhitespace);
    seq(|words|, k requires 0 <= k < |words| => WordWindows(words[k]))
  }

  /** The candidate each word keeps, in word order. */
  function SyriacSurvivors(segments: seq<Word>, isWhitespace: char -> bool, joiningType: char -> JoiningType,
                           joiningGroup: char -> JoiningGroup): seq<Candidate> {
    Survivors(AllWindows(segments, isWhitespace), Rule(joiningType, joiningGroup))
  }

  /**
   * Cluster `i` of the word can carry a candidate: it is not the first, and
   * in a word of three clusters or more it is not the last either, since no
   * window has the last cluster in its second slot.
   */
  predicate IsExaminedCluster(w: Word, i: int) {
    1 <= i < |w| && (|w| >= 3 ==> i < |w| - 1)
  }

  /** The candidate is one a cluster of the word can carry: its end at priority 0 or its start at priority 1. */
  predicate IsCandidateOf(w: Word, i: int, c: Candidate) {
    && IsExaminedCluster(w, i)
    && ((c.priority == 0 && c.breakpoint == End(w[i])) || (c.priority == 1 && c.breakpoint == w[i].start))
  }

  /** Every candidate a word emits belongs to an examined cluster of it. */
  lemma EmittedInWord(w: Word, joiningType: char -> JoiningType, joiningGroup: char -> JoiningGroup, c: Candidate)
    requires c in Emitted(WordWindows(w), Rule(joiningType, joiningGroup))
    ensures exists i :: IsCandidateOf(w, i, c)
  {
    EmittedByAWindow(WordWindows(w), Rule(joiningType, joiningGroup), c);
    var j :| 0 <= j < |WordWindows(w)| && Rule(joiningType, joiningGroup)(WordWindows(w)[j]) == Some(c);
    WordWindowsShape(w);
    assert GlyphRun(WordWindows(w)[j], joiningType, joiningGroup) == Some(c);
    assert IsCandidateOf(w, j + 1, c);
  }

  /** The last cluster of a word of three clusters or more is never offered as a candidate. */
  lemma LastClusterNotExamined(w: Word, joiningType: char -> JoiningType, joiningGroup: char -> JoiningGroup)
    requires |w| >= 3
    ensures forall c :: c in Emitted(WordWindows(w), Rule(joiningType, joiningGroup)) ==>
              exists i :: 1 <= i < |w| - 1 && IsCandidateOf(w, i, c)
  {
    forall c | c in Emitted(WordWindows(w), Rule(joiningType, joiningGroup))
      ensures exists i :: 1 <= i < |w| - 1 && IsCandidateOf(w, i, c)
    {
      EmittedInWord(w, joiningType, joiningGroup, c);
    }
  }

  /** A cluster's end lies inside the input, or at its very end. */
  predicate IsInnerClusterEnd(words: seq<Word>, o: nat) {
    exists k, i :: 0 <= k < |words| && 1 <= i < |words[k]| && End(words[k][i]) == o
  }

  /** Each survivor belongs to an examined cluster of a retained word. */
  lemma SurvivorInWord(segments: seq<Word>, isWhitespace: char -> bool, joiningType: char -> JoiningType,
                       joiningGroup: char -> JoiningGroup, c: Candidate)
    requires c in SyriacSurvivors(segments, isWhitespace, joiningType, joiningGroup)
    ensures exists k, i :: 0 <= k < |Retained(segments, isWhitespace)| && IsCandidateOf(Retained(segments, isWhitespace)[k], i, c)
  {
    var words := Retained(segments, isWhitespace);
    var windows := AllWindows(segments, isWhitespace);
    SurvivorOfAWord(windows, Rule(joiningType, joiningGroup), c);
    var k :| 0 <= k < |windows| && c in Emitted(windows[k], Rule(joiningType, joiningGroup));
    assert windows[k] == WordWindows(words[k]);
    EmittedInWord(words[k], joiningType, joiningGroup, c);
  }

  /** A survivor's offset is where a non-first cluster starts (priority 1) or ends (priority 0), inside the input or at its end. */
  lemma SurvivorInInput(input: seq<byte>, segments: seq<Word>, isWhitespace: char -> bool, joiningType: char -> JoiningType,
                        joiningGroup: char -> JoiningGroup, c: Candidate)
    requires WellFormed(input, segments)
    requires c in SyriacSurvivors(segments, isWhitespace, joiningType, joiningGroup)
    ensures c.priority == 1 ==>
              IsInnerClusterStart(Retained(segments, isWhitespace), c.breakpoint) && c.breakpoint < |input| && IsCharBoundary(input, c.breakpoint)
    ensures c.priority == 0 ==> IsInnerClusterEnd(Retained(segments, isWhitespace), c.breakpoint)
    ensures c.breakpoint <= |input| && c.priority <= 1
  {
    var words := Retained(segments, isWhitespace);
    RetainedWellFormed(input, segments, isWhitespace);
    SurvivorInWord(segments, isWhitespace, joiningType, joiningGroup, c);
    var k, i :| 0 <= k < |words| && IsCandidateOf(words[k], i, c);
    assert IsSliceOf(input, words[k][i]);
    if c.priority == 1 {
      assert IsInnerClusterStart(words, c.breakpoint);
      assert IsGraphemeStart(words, c.breakpoint);
      GraphemeStartIsCharBoundary(input, words, c.breakpoint);
    } else {
      assert IsInnerClusterEnd(words, c.breakpoint);
    }
  }

  /** The ranked offsets of the survivors lie within the input, each at the start or the end of a non-first cluster. */
  lemma RankedOffsetsInInput(input: seq<byte>, segments: seq<Word>, isWhitespace: char -> bool, joiningType: char -> JoiningType,
                             joiningGroup: char -> JoiningGroup, offsets: seq<nat>)
    requires WellFormed(input, segments)
    requires IsRankedOutput(offsets, SyriacSurvivors(segments, isWhitespace, joiningType, joiningGroup))
    ensures forall o :: o in offsets ==> o <= |input|
    ensures forall o :: o in offsets ==>
              IsInnerClusterStart(Retained(segments, isWhitespace), o) || IsInnerClusterEnd(Retained(segments, isWhitespace), o)
  {
    var words := Retained(segments, isWhitespace);
    var survivors := SyriacSurvivors(segments, isWhitespace, joiningType, joiningGroup);
    RankedOutputOffsets(offsets, survivors);
    forall o | o in offsets
      ensures o <= |input| && (IsInnerClusterStart(words, o) || IsInnerClusterEnd(words, o))
    {
      var c :| c in survivors && c.breakpoint == o;
      SurvivorInInput(input, segments, isWhitespace, joiningType, joiningGroup, c);
    }
  }

  /**
   * `find_kashidas`: the offsets of the candidates the words keep, best
   * priority first. A priority-1 offset is the start of a non-first cluster;
   * a priority-0 offset is the end of an explicit kashida cluster; both lie
   * within the input.
   */
  method FindKashidas(input: seq<byte>, segments: seq<Word>, isWhitespace: char -> bool,
                      joiningType: char -> JoiningType, joiningGroup: char -> JoiningGroup)
    returns (offsets: seq<nat>)
    requires WellFormed(input, segments)
    ensures IsRankedOutput(offsets, SyriacSurvivors(segments, isWhitespace, joiningType, joiningGroup))
    ensures forall o :: o in offsets ==> o <= |input|
    ensures forall o :: o in offsets ==>
              IsInnerClusterStart(Retained(segments, isWhitespace), o) || IsInnerClusterEnd(Retained(segments, isWhitespace), o)
  {
    var words := Retained(segments, isWhitespace);
    var windows := seq(|words|, k requires 0 <= k < |words| => WordWindows(words[k]));
    var candidates := CollectBest(windows, Rule(joiningType, joiningGroup));
    offsets := RankSurvivors(candidates, |windows|);
    BestPerWordInKeyOrder(windows, Rule(joiningType, joiningGroup));
    assert windows == AllWindows(segments, isWhitespace);
    RankedOffsetsInInput(input, segments, isWhitespace, joiningType, joiningGroup, offsets);
  }
}
