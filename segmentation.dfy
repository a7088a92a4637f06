/**
 * The segmentation the finders consume. Word and grapheme-cluster boundaries
 * come from an external segmenter; the model takes its result as input: the
 * word segments of the text in order, each the list of its grapheme clusters
 * with their byte offsets in the text. The finders drop the words that trim
 * to nothing and cut the rest into padded, fixed-width windows.
 */
module Segmentation {
  import opened Wrappers
  import opened Utf8

  /** A grapheme cluster: the byte offset of its first byte in the input, and its chars. */
  datatype Grapheme = Grapheme(start: nat, chars: seq<char>)

  /** A word segment: its grapheme clusters in text order. */
  type Word = seq<Grapheme>

  /** The byte offset just past the cluster (`breakpoint(g) + g.len()`). */
  function End(g: Grapheme): nat {
    g.start + |EncodeStr(g.chars)|
  }

  /** The cluster is a non-empty slice of the input, found at its offset. */
  predicate IsSliceOf(input: seq<byte>, g: Grapheme) {
    g.chars != [] && End(g) <= |input| && input[g.start..End(g)] == EncodeStr(g.chars)
  }

  /** Every cluster is a slice of the input, and each starts where the previous one ends. */
  predicate WellFormedWord(input: seq<byte>, w: Word) {
    && (forall i :: 0 <= i < |w| ==> IsSliceOf(input, w[i]))
    && (forall i :: 0 < i < |w| ==> w[i].start == End(w[i - 1]))
  }

  /** What the model assumes of the external segmenter's output. */
  predicate WellFormed(input: seq<byte>, segments: seq<Word>) {
    forall k :: 0 <= k < |segments| ==> WellFormedWord(input, segments[k])
  }

  /** `word.trim().is_empty()`: every char of the word is white space. */
  predicate IsBlank(w: Word, isWhitespace: char -> bool) {
    forall i, c :: 0 <= i < |w| && c in w[i].chars ==> isWhitespace(c)
  }

  /**
   * The words the finders look at: the segments that do not trim to nothing,
   * in text order. A word's index counts only these.
   */
  function Retained(segments: seq<Word>, isWhitespace: char -> bool): (words: seq<Word>)
    ensures |words| <= |segments|
    ensures forall w :: w in words <==> w in segments && !IsBlank(w, isWhitespace)
  {
    if segments == [] then []
    else
      var rest := Retained(segments[1..], isWhitespace);
      assert forall w :: w in segments <==> w == segments[0] || w in segments[1..];
      if IsBlank(segments[0], isWhitespace) then rest else [segments[0]] + rest
  }

  /** Retaining works segment by segment. */
  lemma RetainedCons(w: Word, rest: seq<Word>, isWhitespace: char -> bool)
    ensures Retained([w] + rest, isWhitespace)
         == (if IsBlank(w, isWhitespace) then [] else [w]) + Retained(rest, isWhitespace)
  {
    assert ([w] + rest)[1..] == rest;
  }

  /** The byte offset `o` is where some cluster of some word starts. */
  predicate IsGraphemeStart(words: seq<Word>, o: nat) {
    exists k, i :: 0 <= k < |words| && 0 <= i < |words[k]| && words[k][i].start == o
  }

  /** `o` is where a cluster other than the first of some word starts. */
  predicate IsInnerClusterStart(words: seq<Word>, o: nat) {
    exists k, i :: 0 <= k < |words| && 1 <= i < |words[k]| && words[k][i].start == o
  }

  /** A cluster start lies inside the input, on a character boundary. */
  lemma GraphemeStartIsCharBoundary(input: seq<byte>, words: seq<Word>, o: nat)
    requires WellFormed(input, words)
    requires IsGraphemeStart(words, o)
    ensures o < |input| && IsCharBoundary(input, o)
  {
    var k, i :| 0 <= k < |words| && 0 <= i < |words[k]| && words[k][i].start == o;
    var g := words[k][i];
    assert IsSliceOf(input, g);
    assert input[o] == input[g.start..End(g)][0];
  }

  /** Retained words are well formed when the segmentation is. */
  lemma RetainedWellFormed(input: seq<byte>, segments: seq<Word>, isWhitespace: char -> bool)
    requires WellFormed(input, segments)
    ensures WellFormed(input, Retained(segments, isWhitespace))
  {
    var words := Retained(segments, isWhitespace);
    forall k | 0 <= k < |words| ensures WellFormedWord(input, words[k]) {
      assert words[k] in words;
    }
  }

  /** `graphemes.map(Some).pad_using(n, |_| None)`: the clusters, then `None` up to length `n`. */
  function Padded(w: Word, n: nat): seq<Option<Grapheme>> {
    seq(if |w| < n then n else |w|, i requires 0 <= i => if i < |w| then Some(w[i]) else None)
  }

  /** The word's `i`-th cluster, or `None` past its end. */
  function At(w: Word, i: nat): Option<Grapheme> {
    if i < |w| then Some(w[i]) else None
  }

  /** A window of three optional clusters. */
  datatype Window3 = Window3(g1: Option<Grapheme>, g2: Option<Grapheme>, g3: Option<Grapheme>)

  /** A window of four optional clusters. */
  datatype Window4 = Window4(g1: Option<Grapheme>, g2: Option<Grapheme>, g3: Option<Grapheme>, g4: Option<Grapheme>)

  /** `tuple_windows()` with 3-tuples: every run of three adjacent items. */
  function Windows3(xs: seq<Option<Grapheme>>): seq<Window3> {
    if |xs| < 3 then []
    else seq(|xs| - 2, i requires 0 <= i < |xs| - 2 => Window3(xs[i], xs[i + 1], xs[i + 2]))
  }

  /** `tuple_windows()` with 4-tuples: every run of four adjacent items. */
  function Windows4(xs: seq<Option<Grapheme>>): seq<Window4> {
    if |xs| < 4 then []
    else seq(|xs| - 3, i requires 0 <= i < |xs| - 3 => Window4(xs[i], xs[i + 1], xs[i + 2], xs[i + 3]))
  }

  /** Every cluster in `xs` is one of the word's. */
  predicate FromWord(xs: seq<Option<Grapheme>>, w: Word) {
    forall i :: 0 <= i < |xs| && xs[i].Some? ==> xs[i].value in w
  }
}
