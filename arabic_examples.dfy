/**
 * The two cases the Arabic finder's unit tests pin down (src/arabic.rs,
 * tests `jalala_no_candidates` and `basmala_candidates`), with one letter per
 * grapheme cluster and the spaces as blank word segments.
 */
module ArabicExamples {
  import opened Wrappers
  import opened Utf8
  import opened Segmentation
  import opened Candidates
  import opened Arabic
  import opened CodePoints
  import opened ArabicArms
  import opened Layout

  /** "بسم" */
  const BismText: seq<char> := [Beh, Seen, Meem]
  /** "الله" */
  const AllahText: seq<char> := [Alef, Lam, Lam, Heh]
  /** "الرحمن" */
  const RahmanText: seq<char> := [Alef, Lam, Reh, Hah, Meem, Noon]
  /** "الرحيم" */
  const RahimText: seq<char> := [Alef, Lam, Reh, Hah, Yeh, Meem]
  const SpaceText: seq<char> := [' ']

  // The words of the basmala, each laid out from byte `s`.

  function BismAt(s: nat): Word {
    [G(s, Beh), G(s + 2, Seen), G(s + 4, Meem)]
  }

  function AllahAt(s: nat): Word {
    [G(s, Alef), G(s + 2, Lam), G(s + 4, Lam), G(s + 6, Heh)]
  }

  function RahmanAt(s: nat): Word {
    [G(s, Alef), G(s + 2, Lam), G(s + 4, Reh), G(s + 6, Hah), G(s + 8, Meem), G(s + 10, Noon)]
  }

  function RahimAt(s: nat): Word {
    [G(s, Alef), G(s + 2, Lam), G(s + 4, Reh), G(s + 6, Hah), G(s + 8, Yeh), G(s + 10, Meem)]
  }

  function Space(s: nat): Word {
    [G(s, ' ')]
  }

  /** "بسم": Seen followed by a letter gives priority 1 before the Meem. */
  lemma BismKeeps(s: nat, isAlphabetic: char -> bool)
    requires isAlphabetic(Meem)
    ensures Best(Emitted(WordWindows(BismAt(s)), Rule(isAlphabetic))) == Some(Candidate(s + 4, 1))
  {
    BehClass(); SeenClass();
    WordWindowsShape(BismAt(s));
    var w := Window4(Some(G(s, Beh)), Some(G(s + 2, Seen)), Some(G(s + 4, Meem)), None);
    assert WordWindows(BismAt(s)) == [w];
    HasOne(s, Beh, IsLam); NoKashida(s + 2, Seen);
    HasOne(s, Beh, IsSeenOrSad); HasOne(s + 2, Seen, IsSeenOrSad); HasOne(s + 4, Meem, isAlphabetic);
    SeenSadSecond(G(s, Beh), G(s + 2, Seen), G(s + 4, Meem), isAlphabetic);
  }

  /** Alef, Lam, Lam, Heh: the connection before the second Lam is skipped, as it follows a Lam. */
  lemma AlefLamLamWindow(s: nat, isAlphabetic: char -> bool)
    ensures GlyphRun(Window4(Some(G(s, Alef)), Some(G(s + 2, Lam)), Some(G(s + 4, Lam)), Some(G(s + 6, Heh))), isAlphabetic) == None
  {
    AlefClass(); LamClass();
    NoKashida(s + 2, Lam);
    HasOne(s, Alef, IsSeenOrSad); HasOne(s + 2, Lam, IsSeenOrSad);
    HasOne(s, Alef, IsConnector); HasOne(s + 2, Lam, IsConnector); HasOne(s + 2, Lam, IsLam);
    HasOne(s + 4, Lam, IsDalOrTehMarbouta); HasOne(s + 4, Lam, IsWaw);
    NoConnectionAfterLamSecond(G(s, Alef), G(s + 2, Lam), G(s + 4, Lam), G(s + 6, Heh), isAlphabetic);
  }

  /** Lam, Lam, Heh ending the word: the sacred-name arm, which emits nothing. */
  lemma LamLamHehWindow(s: nat, isAlphabetic: char -> bool)
    ensures GlyphRun(Window4(Some(G(s + 2, Lam)), Some(G(s + 4, Lam)), Some(G(s + 6, Heh)), None), isAlphabetic) == None
  {
    LamClass(); HehClass();
    HasOne(s + 2, Lam, IsLam); HasOne(s + 4, Lam, IsLam); HasOne(s + 6, Heh, IsHeh);
  }

  /** No window of the name of God emits a candidate. */
  lemma AllahEmitsNothing(s: nat, isAlphabetic: char -> bool)
    ensures Emitted(WordWindows(AllahAt(s)), Rule(isAlphabetic)) == []
  {
    WordWindowsShape(AllahAt(s));
    var w1 := Window4(Some(G(s, Alef)), Some(G(s + 2, Lam)), Some(G(s + 4, Lam)), Some(G(s + 6, Heh)));
    var w2 := Window4(Some(G(s + 2, Lam)), Some(G(s + 4, Lam)), Some(G(s + 6, Heh)), None);
    assert WordWindows(AllahAt(s)) == [w1, w2];
    AlefLamLamWindow(s, isAlphabetic);
    LamLamHehWindow(s, isAlphabetic);
    EmittedSnoc([], w1, Rule(isAlphabetic));
    EmittedSnoc([w1], w2, Rule(isAlphabetic));
  }

  /** Alef, Lam, Reh: a connection after a Lam, before Reh, which emits nothing. */
  lemma AlefLamRehWindow(s: nat, g4: Grapheme, isAlphabetic: char -> bool)
    ensures GlyphRun(Window4(Some(G(s, Alef)), Some(G(s + 2, Lam)), Some(G(s + 4, Reh)), Some(g4)), isAlphabetic) == None
  {
    AlefClass(); LamClass(); RehClass();
    NoKashida(s + 2, Lam);
    HasOne(s, Alef, IsSeenOrSad); HasOne(s + 2, Lam, IsSeenOrSad);
    HasOne(s, Alef, IsConnector); HasOne(s + 2, Lam, IsConnector); HasOne(s + 2, Lam, IsLam);
    HasOne(s + 4, Reh, IsDalOrTehMarbouta); HasOne(s + 4, Reh, IsWaw);
    NoConnectionAfterLamSecond(G(s, Alef), G(s + 2, Lam), G(s + 4, Reh), g4, isAlphabetic);
  }

  /** Lam, Reh, then anything: again the connection after a Lam, before Reh. */
  lemma LamRehWindow(s: nat, g3: Grapheme, g4: Grapheme, isAlphabetic: char -> bool)
    ensures GlyphRun(Window4(Some(G(s, Lam)), Some(G(s + 2, Reh)), Some(g3), Some(g4)), isAlphabetic) == None
  {
    LamClass(); RehClass();
    NoKashida(s + 2, Reh);
    HasOne(s, Lam, IsSeenOrSad); HasOne(s + 2, Reh, IsSeenOrSad);
    HasOne(s + 2, Reh, IsLam); HasOne(s + 2, Reh, IsTooth);
    HasOne(s, Lam, IsConnector); HasOne(s, Lam, IsLam);
    HasOne(s + 2, Reh, IsDalOrTehMarbouta); HasOne(s + 2, Reh, IsWaw);
    NoConnectionAfterLamFirst(G(s, Lam), G(s + 2, Reh), g3, g4, isAlphabetic);
  }

  /** Reh, Hah, then a letter `x` that is no Alef, Waw, Dal or Teh Marbuta: a plain connection before `x`, priority 7. */
  lemma RehHahWindow(s: nat, x: char, g4: Grapheme, isAlphabetic: char -> bool)
    requires !IsAlef(x) && !IsWaw(x) && !IsDalOrTehMarbouta(x)
    ensures GlyphRun(Window4(Some(G(s, Reh)), Some(G(s + 2, Hah)), Some(G(s + 4, x)), Some(g4)), isAlphabetic)
         == Some(Candidate(s + 4, 7))
  {
    RehClass(); HahClass();
    NoKashida(s + 2, Hah);
    HasOne(s, Reh, IsSeenOrSad); HasOne(s + 2, Hah, IsSeenOrSad);
    HasOne(s, Reh, IsConnector); HasOne(s + 2, Hah, IsConnector); HasOne(s + 2, Hah, IsLam);
    HasOne(s + 4, x, IsDalOrTehMarbouta); HasOne(s + 4, x, IsAlef); HasOne(s + 4, x, IsWaw);
    PlainConnectionSecond(G(s, Reh), G(s + 2, Hah), G(s + 4, x), g4, isAlphabetic);
  }

  /** Hah, Meem, Noon ending the word: the last letter after a connector, priority 6. */
  lemma HahMeemNoonWindow(s: nat, isAlphabetic: char -> bool)
    ensures GlyphRun(Window4(Some(G(s, Hah)), Some(G(s + 2, Meem)), Some(G(s + 4, Noon)), None), isAlphabetic)
         == Some(Candidate(s + 4, 6))
  {
    HahClass(); MeemClass(); NoonClass();
    HasOne(s, Hah, IsLam); NoKashida(s + 2, Meem);
    HasOne(s, Hah, IsSeenOrSad); HasOne(s + 2, Meem, IsSeenOrSad);
    HasOne(s + 2, Meem, IsTooth); HasOne(s + 2, Meem, IsConnectorExceptLam);
    HasOne(s + 4, Noon, IsHeh); HasOne(s + 4, Noon, IsTahLamOrKaf); HasOne(s + 4, Noon, IsAinFehOrQaf);
    PlainFinalLetter(G(s, Hah), G(s + 2, Meem), G(s + 4, Noon), isAlphabetic);
  }

  /** Hah, Yeh, Meem ending the word: a tooth before a final Meem, priority 4. */
  lemma HahYehMeemWindow(s: nat, isAlphabetic: char -> bool)
    ensures GlyphRun(Window4(Some(G(s, Hah)), Some(G(s + 2, Yeh)), Some(G(s + 4, Meem)), None), isAlphabetic)
         == Some(Candidate(s + 2, 4))
  {
    HahClass(); YehClass(); MeemClass();
    HasOne(s, Hah, IsLam); NoKashida(s + 2, Yeh);
    HasOne(s, Hah, IsSeenOrSad); HasOne(s + 2, Yeh, IsSeenOrSad);
    HasOne(s, Hah, IsConnector); HasOne(s + 2, Yeh, IsTooth); HasOne(s + 4, Meem, IsYehOrMeem);
    ToothBeforeFinalYehMeem(G(s, Hah), G(s + 2, Yeh), G(s + 4, Meem), isAlphabetic);
  }

  /** The four windows of a six-cluster word. */
  lemma SixClusterWindows(w: Word)
    requires |w| == 6
    ensures WordWindows(w) == [Window4(Some(w[0]), Some(w[1]), Some(w[2]), Some(w[3])),
                               Window4(Some(w[1]), Some(w[2]), Some(w[3]), Some(w[4])),
                               Window4(Some(w[2]), Some(w[3]), Some(w[4]), Some(w[5])),
                               Window4(Some(w[3]), Some(w[4]), Some(w[5]), None)]
  {
    WordWindowsShape(w);
  }

  /** What four windows emit, in order. */
  lemma EmittedByFour<W>(w1: W, w2: W, w3: W, w4: W, rule: W -> Option<Candidate>)
    ensures Emitted([w1, w2, w3, w4], rule) == ToSeq(rule(w1)) + ToSeq(rule(w2)) + ToSeq(rule(w3)) + ToSeq(rule(w4))
  {
    EmittedSnoc([], w1, rule);
    assert [] + [w1] == [w1];
    EmittedSnoc([w1], w2, rule);
    assert [w1] + [w2] == [w1, w2];
    EmittedSnoc([w1, w2], w3, rule);
    assert [w1, w2] + [w3] == [w1, w2, w3];
    EmittedSnoc([w1, w2, w3], w4, rule);
    assert [w1, w2, w3] + [w4] == [w1, w2, w3, w4];
  }

  /** The slot after two candidates were offered. */
  lemma BestOfTwo(a: Candidate, b: Candidate)
    ensures Best([a, b]) == Some(Keep(Some(a), b))
  {
    assert [a][..0] == [];
    assert Best([a]) == Some(a);
    assert [a, b][..1] == [a];
  }

  /** "الرحمن" emits 7 before the Meem, then 6 before the final Noon. */
  lemma RahmanEmits(s: nat, isAlphabetic: char -> bool)
    ensures Emitted(WordWindows(RahmanAt(s)), Rule(isAlphabetic)) == [Candidate(s + 8, 7), Candidate(s + 10, 6)]
  {
    MeemClass();
    SixClusterWindows(RahmanAt(s));
    AlefLamRehWindow(s, G(s + 6, Hah), isAlphabetic);
    LamRehWindow(s + 2, G(s + 6, Hah), G(s + 8, Meem), isAlphabetic);
    RehHahWindow(s + 4, Meem, G(s + 10, Noon), isAlphabetic);
    HahMeemNoonWindow(s + 6, isAlphabetic);
    EmittedByFour(Window4(Some(G(s, Alef)), Some(G(s + 2, Lam)), Some(G(s + 4, Reh)), Some(G(s + 6, Hah))),
                  Window4(Some(G(s + 2, Lam)), Some(G(s + 4, Reh)), Some(G(s + 6, Hah)), Some(G(s + 8, Meem))),
                  Window4(Some(G(s + 4, Reh)), Some(G(s + 6, Hah)), Some(G(s + 8, Meem)), Some(G(s + 10, Noon))),
                  Window4(Some(G(s + 6, Hah)), Some(G(s + 8, Meem)), Some(G(s + 10, Noon)), None),
                  Rule(isAlphabetic));
  }

  /** Of the two, the word keeps the final Noon's 6. */
  lemma RahmanKeeps(s: nat, isAlphabetic: char -> bool)
    ensures Best(Emitted(WordWindows(RahmanAt(s)), Rule(isAlphabetic))) == Some(Candidate(s + 10, 6))
  {
    RahmanEmits(s, isAlphabetic);
    BestOfTwo(Candidate(s + 8, 7), Candidate(s + 10, 6));
  }

  /** "الرحيم" emits 7 before the Yeh, then 4 at the same place for the tooth before the final Meem. */
  lemma RahimEmits(s: nat, isAlphabetic: char -> bool)
    ensures Emitted(WordWindows(RahimAt(s)), Rule(isAlphabetic)) == [Candidate(s + 8, 7), Candidate(s + 8, 4)]
  {
    YehClass();
    SixClusterWindows(RahimAt(s));
    AlefLamRehWindow(s, G(s + 6, Hah), isAlphabetic);
    LamRehWindow(s + 2, G(s + 6, Hah), G(s + 8, Yeh), isAlphabetic);
    RehHahWindow(s + 4, Yeh, G(s + 10, Meem), isAlphabetic);
    HahYehMeemWindow(s + 6, isAlphabetic);
    EmittedByFour(Window4(Some(G(s, Alef)), Some(G(s + 2, Lam)), Some(G(s + 4, Reh)), Some(G(s + 6, Hah))),
                  Window4(Some(G(s + 2, Lam)), Some(G(s + 4, Reh)), Some(G(s + 6, Hah)), Some(G(s + 8, Yeh))),
                  Window4(Some(G(s + 4, Reh)), Some(G(s + 6, Hah)), Some(G(s + 8, Yeh)), Some(G(s + 10, Meem))),
                  Window4(Some(G(s + 6, Hah)), Some(G(s + 8, Yeh)), Some(G(s + 10, Meem)), None),
                  Rule(isAlphabetic));
  }

  /** Of the two, the later 4 replaces the 7. */
  lemma RahimKeeps(s: nat, isAlphabetic: char -> bool)
    ensures Best(Emitted(WordWindows(RahimAt(s)), Rule(isAlphabetic))) == Some(Candidate(s + 8, 4))
  {
    RahimEmits(s, isAlphabetic);
    BestOfTwo(Candidate(s + 8, 7), Candidate(s + 8, 4));
  }

  // Laying the texts out, one letter per cluster.

  lemma BismLaidOut(s: nat)
    ensures Clusters(BismText, s) == BismAt(s) && |EncodeStr(BismText)| == 6
  {
    TwoByteClusters(BismText, s);
  }

  lemma AllahLaidOut(s: nat)
    ensures Clusters(AllahText, s) == AllahAt(s) && |EncodeStr(AllahText)| == 8
  {
    TwoByteClusters(AllahText, s);
  }

  lemma RahmanLaidOut(s: nat)
    ensures Clusters(RahmanText, s) == RahmanAt(s) && |EncodeStr(RahmanText)| == 12
  {
    TwoByteClusters(RahmanText, s);
  }

  lemma RahimLaidOut(s: nat)
    ensures Clusters(RahimText, s) == RahimAt(s) && |EncodeStr(RahimText)| == 12
  {
    TwoByteClusters(RahimText, s);
  }

  lemma SpaceLaidOut(s: nat)
    ensures Clusters(SpaceText, s) == Space(s) && |EncodeStr(SpaceText)| == 1
  {
    assert SpaceText[1..] == [];
    assert EncodeStr(SpaceText) == Encode(' ') + EncodeStr([]);
  }

  // The test `jalala_no_candidates`.

  lemma JalalaLaidOut(s: nat)
    ensures Lay([AllahText], s) == [AllahAt(s)]
  {
    AllahLaidOut(s);
    LayCons(AllahText, [], s, s + 8);
    assert [AllahText] + [] == [AllahText];
  }

  /** Whether or not the word is kept, it leaves no survivor. */
  lemma JalalaSurvivors(s: nat, isWhitespace: char -> bool, isAlphabetic: char -> bool)
    ensures ArabicSurvivors([AllahAt(s)], isWhitespace, isAlphabetic) == []
  {
    RetainedCons(AllahAt(s), [], isWhitespace);
    assert [AllahAt(s)] + [] == [AllahAt(s)];
    if !IsBlank(AllahAt(s), isWhitespace) {
      assert AllWindows([AllahAt(s)], isWhitespace) == [] + [WordWindows(AllahAt(s))];
      SurvivorsSnoc([], WordWindows(AllahAt(s)), Rule(isAlphabetic));
      AllahEmitsNothing(s, isAlphabetic);
    }
  }

  /** The name of God on its own has no kashida point, whatever the Unicode properties say. */
  method Jalala(isWhitespace: char -> bool, isAlphabetic: char -> bool) returns (offsets: seq<nat>)
    ensures offsets == []
  {
    LaidOut([AllahText]);
    JalalaLaidOut(0);
    offsets := FindKashidas(EncodeStr(Concat([AllahText])), [AllahAt(0)], isWhitespace, isAlphabetic);
    JalalaSurvivors(0, isWhitespace, isAlphabetic);
    RankedOutputOffsets(offsets, []);
  }

  // The test `basmala_candidates`.
  //
  // The basmala as the segmenter cuts it: four words and the three spaces
  // between them, written word by word from its end so that each step of the
  // layout is one word.

  function FromRahim(): seq<seq<char>> {
    [RahimText] + []
  }

  function FromRahman(): seq<seq<char>> {
    [RahmanText] + ([SpaceText] + FromRahim())
  }

  function FromAllah(): seq<seq<char>> {
    [AllahText] + ([SpaceText] + FromRahman())
  }

  function BasmalaWords(): seq<seq<char>> {
    [BismText] + ([SpaceText] + FromAllah())
  }

  // Its segments, the text starting at byte `o`.

  function SegmentsFromRahim(o: nat): seq<Word> {
    [RahimAt(o + 29)] + []
  }

  function SegmentsFromRahman(o: nat): seq<Word> {
    [RahmanAt(o + 16)] + ([Space(o + 28)] + SegmentsFromRahim(o))
  }

  function SegmentsFromAllah(o: nat): seq<Word> {
    [AllahAt(o + 7)] + ([Space(o + 15)] + SegmentsFromRahman(o))
  }

  function BasmalaSegments(o: nat): seq<Word> {
    [BismAt(o)] + ([Space(o + 6)] + SegmentsFromAllah(o))
  }

  lemma RahimOnward(o: nat)
    ensures Lay(FromRahim(), o + 29) == SegmentsFromRahim(o)
  {
    RahimLaidOut(o + 29);
    LayCons(RahimText, [], o + 29, o + 41);
  }

  lemma RahmanOnward(o: nat)
    ensures Lay(FromRahman(), o + 16) == SegmentsFromRahman(o)
  {
    RahimOnward(o);
    SpaceLaidOut(o + 28);
    LayCons(SpaceText, FromRahim(), o + 28, o + 29);
    RahmanLaidOut(o + 16);
    LayCons(RahmanText, [SpaceText] + FromRahim(), o + 16, o + 28);
  }

  lemma AllahOnward(o: nat)
    ensures Lay(FromAllah(), o + 7) == SegmentsFromAllah(o)
  {
    RahmanOnward(o);
    SpaceLaidOut(o + 15);
    LayCons(SpaceText, FromRahman(), o + 15, o + 16);
    AllahLaidOut(o + 7);
    LayCons(AllahText, [SpaceText] + FromRahman(), o + 7, o + 15);
  }

  lemma BasmalaLaidOut(o: nat)
    ensures Lay(BasmalaWords(), o) == BasmalaSegments(o)
  {
    AllahOnward(o);
    SpaceLaidOut(o + 6);
    LayCons(SpaceText, FromAllah(), o + 6, o + 7);
    BismLaidOut(o);
    LayCons(BismText, [SpaceText] + FromAllah(), o, o + 6);
  }

  /** A lone space trims to nothing. */
  lemma SpaceIsBlank(s: nat, isWhitespace: char -> bool)
    requires isWhitespace(' ')
    ensures IsBlank(Space(s), isWhitespace)
  {
  }

  /** A word whose first char is no white space is kept. */
  lemma NotBlank(w: Word, isWhitespace: char -> bool)
    requires w != [] && w[0].chars != [] && !isWhitespace(w[0].chars[0])
    ensures !IsBlank(w, isWhitespace)
  {
    assert w[0].chars[0] in w[0].chars;
  }

  // The finder keeps the four words and drops the three spaces.

  lemma RetainedFromRahim(o: nat, isWhitespace: char -> bool)
    requires !isWhitespace(Alef)
    ensures Retained(SegmentsFromRahim(o), isWhitespace) == [RahimAt(o + 29)]
  {
    NotBlank(RahimAt(o + 29), isWhitespace);
    RetainedCons(RahimAt(o + 29), [], isWhitespace);
  }

  lemma RetainedFromRahman(o: nat, isWhitespace: char -> bool)
    requires isWhitespace(' ') && !isWhitespace(Alef)
    ensures Retained(SegmentsFromRahman(o), isWhitespace) == [RahmanAt(o + 16), RahimAt(o + 29)]
  {
    RetainedFromRahim(o, isWhitespace);
    SpaceIsBlank(o + 28, isWhitespace);
    RetainedCons(Space(o + 28), SegmentsFromRahim(o), isWhitespace);
    NotBlank(RahmanAt(o + 16), isWhitespace);
    RetainedCons(RahmanAt(o + 16), [Space(o + 28)] + SegmentsFromRahim(o), isWhitespace);
  }

  lemma RetainedFromAllah(o: nat, isWhitespace: char -> bool)
    requires isWhitespace(' ') && !isWhitespace(Alef)
    ensures Retained(SegmentsFromAllah(o), isWhitespace) == [AllahAt(o + 7), RahmanAt(o + 16), RahimAt(o + 29)]
  {
    RetainedFromRahman(o, isWhitespace);
    SpaceIsBlank(o + 15, isWhitespace);
    RetainedCons(Space(o + 15), SegmentsFromRahman(o), isWhitespace);
    NotBlank(AllahAt(o + 7), isWhitespace);
    RetainedCons(AllahAt(o + 7), [Space(o + 15)] + SegmentsFromRahman(o), isWhitespace);
  }

  lemma BasmalaRetained(o: nat, isWhitespace: char -> bool)
    requires isWhitespace(' ') && !isWhitespace(Beh) && !isWhitespace(Alef)
    ensures Retained(BasmalaSegments(o), isWhitespace) == [BismAt(o), AllahAt(o + 7), RahmanAt(o + 16), RahimAt(o + 29)]
  {
    RetainedFromAllah(o, isWhitespace);
    SpaceIsBlank(o + 6, isWhitespace);
    RetainedCons(Space(o + 6), SegmentsFromAllah(o), isWhitespace);
    NotBlank(BismAt(o), isWhitespace);
    RetainedCons(BismAt(o), [Space(o + 6)] + SegmentsFromAllah(o), isWhitespace);
  }

  /** What four words keep, in word order. */
  lemma SurvivorsOfFour<W>(ws: seq<seq<W>>, rule: W -> Option<Candidate>)
    requires |ws| == 4
    ensures Survivors(ws, rule)
         == ToSeq(Best(Emitted(ws[0], rule))) + ToSeq(Best(Emitted(ws[1], rule)))
          + ToSeq(Best(Emitted(ws[2], rule))) + ToSeq(Best(Emitted(ws[3], rule)))
  {
    var s0, s1, s2, s3 := ToSeq(Best(Emitted(ws[0], rule))), ToSeq(Best(Emitted(ws[1], rule))),
                          ToSeq(Best(Emitted(ws[2], rule))), ToSeq(Best(Emitted(ws[3], rule)));
    assert Survivors(ws[..1], rule) == s0 by {
      assert ws[..1][..0] == [];
    }
    assert Survivors(ws[..2], rule) == s0 + s1 by {
      assert ws[..2][..1] == ws[..1];
    }
    assert Survivors(ws[..3], rule) == s0 + s1 + s2 by {
      assert ws[..3][..2] == ws[..2];
    }
    assert ws[..4][..3] == ws[..3];
    assert ws[..4] == ws;
  }

  /** The windows of the four kept words. */
  lemma BasmalaWindows(o: nat, isWhitespace: char -> bool)
    requires isWhitespace(' ') && !isWhitespace(Beh) && !isWhitespace(Alef)
    ensures AllWindows(BasmalaSegments(o), isWhitespace)
         == [WordWindows(BismAt(o)), WordWindows(AllahAt(o + 7)), WordWindows(RahmanAt(o + 16)), WordWindows(RahimAt(o + 29))]
  {
    BasmalaRetained(o, isWhitespace);
  }

  /** Four words, the second of which emits nothing, leave the survivors of the other three. */
  lemma FourWordSurvivors<W>(a: seq<W>, b: seq<W>, c: seq<W>, d: seq<W>, rule: W -> Option<Candidate>,
                             ca: Candidate, cc: Candidate, cd: Candidate)
    requires Best(Emitted(a, rule)) == Some(ca)
    requires Emitted(b, rule) == []
    requires Best(Emitted(c, rule)) == Some(cc)
    requires Best(Emitted(d, rule)) == Some(cd)
    ensures Survivors([a, b, c, d], rule) == [ca, cc, cd]
  {
    SurvivorsOfFour([a, b, c, d], rule);
    assert [ca] + [] + [cc] + [cd] == [ca, cc, cd];
  }

  /** Bism keeps its 1, the name of God nothing, al-Rahman its 6 and al-Rahim its 4. */
  lemma BasmalaSurvivors(o: nat, isWhitespace: char -> bool, isAlphabetic: char -> bool)
    requires isWhitespace(' ') && !isWhitespace(Beh) && !isWhitespace(Alef) && isAlphabetic(Meem)
    ensures ArabicSurvivors(BasmalaSegments(o), isWhitespace, isAlphabetic)
         == [Candidate(o + 4, 1), Candidate(o + 26, 6), Candidate(o + 37, 4)]
  {
    var rule := Rule(isAlphabetic);
    var bism, allah, rahman, rahim := WordWindows(BismAt(o)), WordWindows(AllahAt(o + 7)),
                                      WordWindows(RahmanAt(o + 16)), WordWindows(RahimAt(o + 29));
    assert ArabicSurvivors(BasmalaSegments(o), isWhitespace, isAlphabetic) == Survivors([bism, allah, rahman, rahim], rule) by {
      BasmalaWindows(o, isWhitespace);
    }
    BismKeeps(o, isAlphabetic);
    AllahEmitsNothing(o + 7, isAlphabetic);
    RahmanKeeps(o + 16, isAlphabetic);
    RahimKeeps(o + 29, isAlphabetic);
    FourWordSurvivors(bism, allah, rahman, rahim, rule, Candidate(o + 4, 1), Candidate(o + 26, 6), Candidate(o + 37, 4));
  }

  /** The breakpoints of three candidates. */
  lemma BreakpointsOfThree(a: Candidate, b: Candidate, c: Candidate)
    ensures Breakpoints([a, b, c]) == [a.breakpoint, b.breakpoint, c.breakpoint]
  {
  }

  /** Three candidates in increasing priority are strictly ranked. */
  lemma ThreeStrictlyRanked(a: Candidate, b: Candidate, c: Candidate)
    requires a.priority < b.priority < c.priority
    ensures StrictlyRanked([a, b, c])
  {
  }

  /** Swapping the last two of three keeps the multiset. */
  lemma SwapLastTwo<T>(a: T, b: T, c: T)
    ensures multiset([a, c, b]) == multiset([a, b, c])
  {
    calc {
      multiset([a, c, b]);
      multiset{a, c, b};
      multiset{a, b, c};
      multiset([a, b, c]);
    }
  }

  /** Three survivors whose priorities rank them first, third, second come out in that order. */
  lemma RankedThree(offsets: seq<nat>, survivors: seq<Candidate>, a: Candidate, b: Candidate, c: Candidate)
    requires IsRankedOutput(offsets, survivors) && survivors == [a, b, c]
    requires a.priority < c.priority < b.priority
    ensures offsets == [a.breakpoint, c.breakpoint, b.breakpoint]
  {
    ThreeStrictlyRanked(a, c, b);
    SwapLastTwo(a, b, c);
    RankedOutputOfDistinctPriorities(offsets, survivors, [a, c, b]);
    BreakpointsOfThree(a, c, b);
  }

  /** Whatever ranking the finder returns for the basmala's survivors, it is this one. */
  lemma BasmalaRanked(offsets: seq<nat>, o: nat, isWhitespace: char -> bool, isAlphabetic: char -> bool)
    requires isWhitespace(' ') && !isWhitespace(Beh) && !isWhitespace(Alef) && isAlphabetic(Meem)
    requires IsRankedOutput(offsets, ArabicSurvivors(BasmalaSegments(o), isWhitespace, isAlphabetic))
    ensures offsets == [o + 4, o + 37, o + 26]
  {
    BasmalaSurvivors(o, isWhitespace, isAlphabetic);
    RankedThree(offsets, ArabicSurvivors(BasmalaSegments(o), isWhitespace, isAlphabetic),
                Candidate(o + 4, 1), Candidate(o + 26, 6), Candidate(o + 37, 4));
  }

  /** The basmala's offsets when it starts the text. */
  lemma AtTextStart(offsets: seq<nat>, o: nat)
    requires o == 0 && offsets == [o + 4, o + 37, o + 26]
    ensures offsets == [4, 37, 26]
  {
  }

  /**
   * The basmala, "بسم الله الرحمن الرحيم": the kashida points, best first,
   * are after the Seen of Bism, before the Yeh of al-Rahim and before the
   * final Noon of al-Rahman.
   */
  method Basmala(isWhitespace: char -> bool, isAlphabetic: char -> bool) returns (offsets: seq<nat>)
    requires isWhitespace(' ') && !isWhitespace(Beh) && !isWhitespace(Alef) && isAlphabetic(Meem)
    ensures offsets == [4, 37, 26]
  {
    var input := EncodeStr(Concat(BasmalaWords()));
    var o := 0;
    var segments := BasmalaSegments(o);
    assert WellFormed(input, segments) by {
      LaidOut(BasmalaWords());
      BasmalaLaidOut(o);
    }
    offsets := FindKashidas(input, segments, isWhitespace, isAlphabetic);
    BasmalaRanked(offsets, o, isWhitespace, isAlphabetic);
    AtTextStart(offsets, o);
  }
}
