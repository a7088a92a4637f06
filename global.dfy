/**
 * The script-agnostic finder (src/global.rs): every non-blank word is cut
 * into windows of three optional grapheme clusters, a window marks the
 * boundary before its second cluster when the first joins its follower and
 * the second joins its predecessor, and each word keeps the last boundary it
 * marked. The joining predicates are shared with the Syriac finder.
 */
module Global {
  import opened Wrappers
  import opened Utf8
  import opened CodePoints
  import opened Segmentation
  import opened Candidates

  /** The Unicode Joining_Type property of a char (looked up by the caller). */
  datatype JoiningType = NonJoining | Transparent | DualJoining | RightJoining | LeftJoining | JoinCausing

  /** `is_kashida`: the char is join-causing, as the tatweel is. */
  predicate IsJoinCausing(joiningType: char -> JoiningType, c: char) {
    joiningType(c) == JoinCausing
  }

  /** `joins_following`: dual-joining or join-causing. */
  predicate JoinsFollowing(joiningType: char -> JoiningType, c: char) {
    joiningType(c) == DualJoining || joiningType(c) == JoinCausing
  }

  /** `joins_preceding`: dual-joining, join-causing or right-joining. */
  predicate JoinsPreceding(joiningType: char -> JoiningType, c: char) {
    joiningType(c) == DualJoining || joiningType(c) == JoinCausing || joiningType(c) == RightJoining
  }

  /**
   * A char that joins its follower also joins its predecessor, a join-causing
   * char joins both, and a left-joining char counts as joining neither.
   */
  lemma JoiningImplications(joiningType: char -> JoiningType, c: char)
    ensures JoinsFollowing(joiningType, c) ==> JoinsPreceding(joiningType, c)
    ensures IsJoinCausing(joiningType, c) ==> JoinsFollowing(joiningType, c) && JoinsPreceding(joiningType, c)
    ensures JoinsPreceding(joiningType, c) && !JoinsFollowing(joiningType, c) <==> joiningType(c) == RightJoining
    ensures joiningType(c) == LeftJoining ==> !JoinsFollowing(joiningType, c) && !JoinsPreceding(joiningType, c)
  {
  }

  function FollowingJoiner(joiningType: char -> JoiningType): char -> bool {
    c => JoinsFollowing(joiningType, c)
  }

  function PrecedingJoiner(joiningType: char -> JoiningType): char -> bool {
    c => JoinsPreceding(joiningType, c)
  }

  /** The boundary between `preceding` and `g` joins: some char of each joins across it. */
  predicate IsJoint(joiningType: char -> JoiningType, preceding: Grapheme, g: Grapheme) {
    Has(preceding.chars, FollowingJoiner(joiningType)) && Has(g.chars, PrecedingJoiner(joiningType))
  }

  /**
   * `find_kashidas_in_glyph_run`: the offset of the second cluster, exactly
   * when the first two clusters are present and the boundary between them joins.
   */
  function GlyphRun(w: Window3, joiningType: char -> JoiningType): (r: Option<nat>)
    ensures r.Some? <==>
              && w.g1.Some? && w.g2.Some?
              && (exists c :: c in w.g1.value.chars && JoinsFollowing(joiningType, c))
              && (exists c :: c in w.g2.value.chars && JoinsPreceding(joiningType, c))
    ensures r.Some? ==> r.value == w.g2.value.start
  {
    if w.g1.Some? && w.g2.Some? then
      HasSome(w.g1.value.chars, FollowingJoiner(joiningType));
      HasSome(w.g2.value.chars, PrecedingJoiner(joiningType));
      if IsJoint(joiningType, w.g1.value, w.g2.value) then Some(w.g2.value.start) else None
    else None
  }

  /** A word's windows: its clusters padded with `None` to at least two, one more `None`, three at a time. */
  function WordWindows(w: Word): seq<Window3> {
    Windows3(Padded(w, 2) + [None])
  }

  /**
   * A word of n clusters gives max(n, 2) - 1 windows, and window j holds
   * clusters j to j + 2, `None` past the end of the word.
   */
  lemma WordWindowsShape(w: Word)
    ensures |WordWindows(w)| == if |w| < 2 then 1 else |w| - 1
    ensures forall j :: 0 <= j < |WordWindows(w)| ==> WordWindows(w)[j] == Window3(At(w, j), At(w, j + 1), At(w, j + 2))
  {
  }

  /** The offset the word's map entry holds after the windows `ws`, each marked boundary overwriting the one before. */
  function LastMarked(ws: seq<Window3>, joiningType: char -> JoiningType): Option<nat> {
    if ws == [] then None
    else
      var n := |ws| - 1;
      match GlyphRun(ws[n], joiningType)
      case Some(b) => Some(b)
      case None => LastMarked(ws[..n], joiningType)
  }

  /** The entry is what some window marked, and it stays empty only when no window marks anything. */
  lemma {:induction false} LastMarkedIsMarked(ws: seq<Window3>, joiningType: char -> JoiningType)
    ensures LastMarked(ws, joiningType).Some? ==> exists j :: 0 <= j < |ws| && GlyphRun(ws[j], joiningType) == LastMarked(ws, joiningType)
    ensures LastMarked(ws, joiningType).None? <==> forall j :: 0 <= j < |ws| ==> GlyphRun(ws[j], joiningType).None?
  {
    if ws != [] {
      var n := |ws| - 1;
      LastMarkedIsMarked(ws[..n], joiningType);
      assert forall j :: 0 <= j < n ==> ws[..n][j] == ws[j];
    }
  }

  /** The cluster `i` of the word starts a joining boundary. */
  predicate IsJoinAt(w: Word, joiningType: char -> JoiningType, i: int) {
    1 <= i < |w| && IsJoint(joiningType, w[i - 1], w[i])
  }

  /** Reference: the start of the last cluster below `n` that starts a joining boundary. */
  function LastJoin(w: Word, joiningType: char -> JoiningType, n: nat): Option<nat>
    requires n <= |w|
  {
    if n <= 1 then None
    else if IsJoinAt(w, joiningType, n - 1) then Some(w[n - 1].start)
    else LastJoin(w, joiningType, n - 1)
  }

  /** Cluster `i` starts a joining boundary, and no later cluster below `n` does. */
  predicate IsLastJoinAt(w: Word, joiningType: char -> JoiningType, n: nat, i: int) {
    && i < n
    && IsJoinAt(w, joiningType, i)
    && forall i' :: i < i' < n ==> !IsJoinAt(w, joiningType, i')
  }

  /** There is no joining boundary below `n` exactly when `LastJoin` finds none. */
  lemma {:induction false} LastJoinNone(w: Word, joiningType: char -> JoiningType, n: nat)
    requires n <= |w|
    ensures LastJoin(w, joiningType, n).None? <==> forall i :: 1 <= i < n ==> !IsJoinAt(w, joiningType, i)
  {
    if n > 1 {
      LastJoinNone(w, joiningType, n - 1);
    }
  }

  /** `LastJoin` is the last joining boundary, and there is none only when no cluster below `n` starts one. */
  lemma {:induction false} LastJoinIsLast(w: Word, joiningType: char -> JoiningType, n: nat)
    requires n <= |w|
    ensures LastJoin(w, joiningType, n).Some? ==>
              exists i :: IsLastJoinAt(w, joiningType, n, i) && w[i].start == LastJoin(w, joiningType, n).value
  {
    if n > 1 {
      if IsJoinAt(w, joiningType, n - 1) {
        assert IsLastJoinAt(w, joiningType, n, n - 1);
      } else if LastJoin(w, joiningType, n - 1).Some? {
        LastJoinIsLast(w, joiningType, n - 1);
        var i :| IsLastJoinAt(w, joiningType, n - 1, i) && w[i].start == LastJoin(w, joiningType, n - 1).value;
        LastJoinAtExtends(w, joiningType, n, i);
      }
    }
  }

  /** A cluster that is not a joining boundary does not displace the last one below it. */
  lemma LastJoinAtExtends(w: Word, joiningType: char -> JoiningType, n: nat, i: int)
    requires 1 < n <= |w| && !IsJoinAt(w, joiningType, n - 1)
    requires IsLastJoinAt(w, joiningType, n - 1, i)
    ensures IsLastJoinAt(w, joiningType, n, i)
  {
  }

  /** The windows examine every pair of adjacent clusters, so a word keeps its last joining boundary. */
  lemma {:induction false} WordKeepsLastJoin(w: Word, joiningType: char -> JoiningType)
    ensures LastMarked(WordWindows(w), joiningType) == LastJoin(w, joiningType, |w|)
  {
    var ws := WordWindows(w);
    WordWindowsShape(w);
    for j := 0 to |ws|
      invariant LastMarked(ws[..j], joiningType) == LastJoin(w, joiningType, if j + 1 < |w| then j + 1 else |w|)
    {
      assert ws[..j + 1][..j] == ws[..j];
      assert GlyphRun(ws[j], joiningType).Some? <==> IsJoinAt(w, joiningType, j + 1);
    }
    assert ws[..|ws|] == ws;
  }

  /** The map `m` after the entry `k` is overwritten with `o`, when `o` holds an offset. */
  function Mark(m: map<nat, nat>, k: nat, o: Option<nat>): map<nat, nat> {
    match o
    case Some(b) => m[k := b]
    case None => m
  }

  /** The map from word index to the last offset the word marked. */
  function LastPerWord(windows: seq<seq<Window3>>, joiningType: char -> JoiningType): map<nat, nat> {
    if windows == [] then map[]
    else
      var n := |windows| - 1;
      Mark(LastPerWord(windows[..n], joiningType), n, LastMarked(windows[n], joiningType))
  }

  /** Word `k` has an entry exactly when it marked a boundary, and the entry is its last. */
  lemma {:induction false} LastPerWordAt(windows: seq<seq<Window3>>, joiningType: char -> JoiningType, k: nat)
    ensures k in LastPerWord(windows, joiningType) <==> k < |windows| && LastMarked(windows[k], joiningType).Some?
    ensures k in LastPerWord(windows, joiningType) ==> LastPerWord(windows, joiningType)[k] == LastMarked(windows[k], joiningType).value
  {
    if windows != [] {
      var n := |windows| - 1;
      LastPerWordAt(windows[..n], joiningType, k);
    }
  }

  /** The last marked offset of each word that marked one, in word order. */
  function LastMarks(windows: seq<seq<Window3>>, joiningType: char -> JoiningType): seq<nat> {
    if windows == [] then []
    else LastMarks(windows[..|windows| - 1], joiningType) + ToSeq(LastMarked(windows[|windows| - 1], joiningType))
  }

  /** The entries of the per-word map, in word order, are the last marks. */
  lemma {:induction false} LastPerWordInKeyOrder(windows: seq<seq<Window3>>, joiningType: char -> JoiningType)
    ensures InKeyOrder(LastPerWord(windows, joiningType), |windows|) == LastMarks(windows, joiningType)
  {
    if windows != [] {
      var n := |windows| - 1;
      var prefix := windows[..n];
      LastPerWordInKeyOrder(prefix, joiningType);
      forall k: nat | k < n
        ensures (k in LastPerWord(prefix, joiningType) <==> k in LastPerWord(windows, joiningType))
        ensures k in LastPerWord(prefix, joiningType) ==> LastPerWord(prefix, joiningType)[k] == LastPerWord(windows, joiningType)[k]
      {
        LastPerWordAt(prefix, joiningType, k);
        LastPerWordAt(windows, joiningType, k);
      }
      SameEntriesBelow(LastPerWord(prefix, joiningType), LastPerWord(windows, joiningType), n);
      LastPerWordAt(windows, joiningType, n);
    }
  }

  /** The windows of every retained word, by word index. */
  function AllWindows(segments: seq<Word>, isWhitespace: char -> bool): seq<seq<Window3>> {
    var words := Retained(segments, isWhitespace);
    seq(|words|, k requires 0 <= k < |words| => WordWindows(words[k]))
  }

  /** The offset each retained word keeps, in word order. */
  function GlobalMarks(segments: seq<Word>, isWhitespace: char -> bool, joiningType: char -> JoiningType): seq<nat> {
    LastMarks(AllWindows(segments, isWhitespace), joiningType)
  }

  /** Each word contributes its last joining boundary, and words without one contribute nothing. */
  lemma {:induction false} MarksAreLastJoins(words: seq<Word>, joiningType: char -> JoiningType)
    ensures LastMarks(seq(|words|, k requires 0 <= k < |words| => WordWindows(words[k])), joiningType)
         == LastJoins(words, joiningType)
  {
    var windows := seq(|words|, k requires 0 <= k < |words| => WordWindows(words[k]));
    if words != [] {
      var n := |words| - 1;
      assert windows[..n] == seq(n, k requires 0 <= k < n => WordWindows(words[..n][k]));
      MarksAreLastJoins(words[..n], joiningType);
      WordKeepsLastJoin(words[n], joiningType);
    }
  }

  /** Reference: the last joining boundary of each word that has one, in word order. */
  function LastJoins(words: seq<Word>, joiningType: char -> JoiningType): seq<nat> {
    if words == [] then []
    else
      var w := words[|words| - 1];
      LastJoins(words[..|words| - 1], joiningType) + ToSeq(LastJoin(w, joiningType, |w|))
  }

  /** Every kept offset sits at the start of a cluster of its word, never the first. */
  lemma {:induction false} LastJoinsInWords(words: seq<Word>, joiningType: char -> JoiningType, o: nat)
    requires o in LastJoins(words, joiningType)
    ensures IsInnerClusterStart(words, o)
  {
    var n := |words| - 1;
    if o in LastJoins(words[..n], joiningType) {
      LastJoinsInWords(words[..n], joiningType, o);
      var k, i :| 0 <= k < n && 1 <= i < |words[..n][k]| && words[..n][k][i].start == o;
      assert words[k][i].start == o;
    } else {
      LastJoinIsLast(words[n], joiningType, |words[n]|);
      var i :| IsLastJoinAt(words[n], joiningType, |words[n]|, i) && words[n][i].start == o;
      assert IsInnerClusterStart(words, o);
    }
  }

  /** So every kept offset lies inside the input, on a character boundary. */
  lemma LastJoinsInInput(input: seq<byte>, words: seq<Word>, joiningType: char -> JoiningType)
    requires WellFormed(input, words)
    ensures forall o :: o in LastJoins(words, joiningType) ==> IsInnerClusterStart(words, o) && o < |input| && IsCharBoundary(input, o)
  {
    forall o | o in LastJoins(words, joiningType)
      ensures IsInnerClusterStart(words, o) && o < |input| && IsCharBoundary(input, o)
    {
      LastJoinsInWords(words, joiningType, o);
      GraphemeStartIsCharBoundary(input, words, o);
    }
  }

  /** One more window overwrites the entry when it marks a boundary. */
  lemma LastMarkedStep(ws: seq<Window3>, joiningType: char -> JoiningType, j: nat)
    requires j < |ws|
    ensures LastMarked(ws[..j + 1], joiningType)
         == if GlyphRun(ws[j], joiningType).Some? then GlyphRun(ws[j], joiningType) else LastMarked(ws[..j], joiningType)
  {
    assert ws[..j + 1][..j] == ws[..j];
  }

  /** One more word adds its entry, if it marked a boundary. */
  lemma LastPerWordStep(windows: seq<seq<Window3>>, joiningType: char -> JoiningType, k: nat)
    requires k < |windows|
    ensures LastPerWord(windows[..k + 1], joiningType) == Mark(LastPerWord(windows[..k], joiningType), k, LastMarked(windows[k], joiningType))
  {
    assert windows[..k + 1][..k] == windows[..k];
  }

  /** The inner loop over one word's windows: every boundary marked overwrites the word's entry. */
  method CollectWord(before: map<nat, nat>, wordIdx: nat, ws: seq<Window3>, joiningType: char -> JoiningType)
    returns (candidates: map<nat, nat>)
    ensures candidates == Mark(before, wordIdx, LastMarked(ws, joiningType))
  {
    candidates := before;
    for j := 0 to |ws|
      invariant candidates == Mark(before, wordIdx, LastMarked(ws[..j], joiningType))
    {
      LastMarkedStep(ws, joiningType, j);
      var marked := GlyphRun(ws[j], joiningType);
      if marked.Some? {
        candidates := candidates[wordIdx := marked.value];
      }
    }
    assert ws[..|ws|] == ws;
  }

  /** The loop over the words: each word's last boundary ends up in its entry. */
  method CollectLast(windows: seq<seq<Window3>>, joiningType: char -> JoiningType) returns (candidates: map<nat, nat>)
    ensures candidates == LastPerWord(windows, joiningType)
  {
    candidates := map[];
    for wordIdx := 0 to |windows|
      invariant candidates == LastPerWord(windows[..wordIdx], joiningType)
    {
      candidates := CollectWord(candidates, wordIdx, windows[wordIdx], joiningType);
      LastPerWordStep(windows, joiningType, wordIdx);
    }
    assert windows[..|windows|] == windows;
  }

  /**
   * `find_kashidas`: one offset per word with a joining boundary, the last
   * one it has, in no particular order (the hash map's). Each is the start
   * of a cluster of a non-blank word, so it lies inside the input on a
   * character boundary.
   */
  method FindKashidas(input: seq<byte>, segments: seq<Word>, isWhitespace: char -> bool, joiningType: char -> JoiningType)
    returns (offsets: seq<nat>)
    requires WellFormed(input, segments)
    ensures multiset(offsets) == multiset(LastJoins(Retained(segments, isWhitespace), joiningType))
    ensures forall o :: o in offsets ==> IsInnerClusterStart(Retained(segments, isWhitespace), o)
    ensures forall o :: o in offsets ==> o < |input| && IsCharBoundary(input, o)
  {
    var words := Retained(segments, isWhitespace);
    var windows := seq(|words|, k requires 0 <= k < |words| => WordWindows(words[k]));
    var candidates := CollectLast(windows, joiningType);
    offsets := Values(candidates, |windows|);
    assert offsets == LastJoins(words, joiningType) by {
      LastPerWordInKeyOrder(windows, joiningType);
      MarksAreLastJoins(words, joiningType);
    }
    RetainedWellFormed(input, segments, isWhitespace);
    LastJoinsInInput(input, words, joiningType);
  }
}
