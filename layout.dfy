/**
 * A text laid out with one char per grapheme cluster, cut into given word
 * segments: the simplest segmentation the external segmenter can produce, and
 * the one the worked examples use. Whatever the words, it is well formed for
 * the text's UTF-8 encoding.
 */
module Layout {
  import opened Utf8
  import opened Segmentation

  /** The clusters of `text`, one per char, the first at byte `start`. */
  function Clusters(text: seq<char>, start: nat): Word
    decreases |text|
  {
    if text == [] then [] else [Grapheme(start, [text[0]])] + Clusters(text[1..], start + |Encode(text[0])|)
  }

  /** Every char of `text` takes two bytes of UTF-8, as the Arabic and Syriac letters do. */
  predicate IsTwoByteText(text: seq<char>) {
    forall i :: 0 <= i < |text| ==> 0x80 <= text[i] as int < 0x800
  }

  /** A two-byte text takes twice its length, and its clusters start two bytes apart. */
  lemma {:induction false} TwoByteClusters(text: seq<char>, start: nat)
    requires IsTwoByteText(text)
    ensures |EncodeStr(text)| == 2 * |text|
    ensures |Clusters(text, start)| == |text|
    ensures forall i :: 0 <= i < |text| ==> Clusters(text, start)[i] == Grapheme(start + 2 * i, [text[i]])
    decreases |text|
  {
    if text != [] {
      TwoByteClusters(text[1..], start + 2);
      var rest := Clusters(text[1..], start + 2);
      assert Clusters(text, start) == [Grapheme(start, [text[0]])] + rest;
      forall i | 0 < i < |text| ensures Clusters(text, start)[i] == Grapheme(start + 2 * i, [text[i]]) {
        assert Clusters(text, start)[i] == rest[i - 1];
      }
    }
  }

  /** The words joined back into one text. */
  function Concat(words: seq<seq<char>>): seq<char> {
    if words == [] then [] else words[0] + Concat(words[1..])
  }

  /** The segments of the words in order, the first at byte `start`. */
  function Lay(words: seq<seq<char>>, start: nat): seq<Word> {
    if words == [] then [] else [Clusters(words[0], start)] + Lay(words[1..], start + |EncodeStr(words[0])|)
  }

  /** Laying out works word by word: the next word starts where this one's bytes end. */
  lemma LayCons(w: seq<char>, ws: seq<seq<char>>, start: nat, next: nat)
    requires next == start + |EncodeStr(w)|
    ensures Lay([w] + ws, start) == [Clusters(w, start)] + Lay(ws, next)
  {
    assert ([w] + ws)[1..] == ws;
  }

  /** The first cluster holds the first char, and the rest start where its bytes end. */
  lemma ClustersCons(text: seq<char>, start: nat)
    requires text != []
    ensures End(Grapheme(start, [text[0]])) == start + |Encode(text[0])|
    ensures Clusters(text, start) == [Grapheme(start, [text[0]])] + Clusters(text[1..], start + |Encode(text[0])|)
  {
    assert EncodeStr([text[0]]) == Encode(text[0]) + EncodeStr([]);
  }

  /** A char whose bytes sit in the input at `s` is a cluster there. */
  lemma OneCharSlice(input: seq<byte>, c: char, s: nat)
    requires SitsAt(input, Encode(c), s)
    ensures IsSliceOf(input, Grapheme(s, [c]))
  {
    assert EncodeStr([c]) == Encode(c) + EncodeStr([]);
  }

  /** A slice in front of a well-formed word that starts where the slice ends. */
  lemma WordCons(input: seq<byte>, g: Grapheme, rest: Word)
    requires IsSliceOf(input, g) && WellFormedWord(input, rest)
    requires rest != [] ==> rest[0].start == End(g)
    ensures WellFormedWord(input, [g] + rest)
  {
    var w := [g] + rest;
    forall i | 0 < i < |w| ensures w[i] == rest[i - 1] {
    }
  }

  /** `bytes` sits in `input` at offset `s`. */
  predicate SitsAt(input: seq<byte>, bytes: seq<byte>, s: nat) {
    s + |bytes| <= |input| && input[s..s + |bytes|] == bytes
  }

  /** Two byte runs sitting one after the other: each sits in its own place. */
  lemma SitsAtSplit(input: seq<byte>, e: seq<byte>, r: seq<byte>, s: nat)
    requires SitsAt(input, e + r, s)
    ensures SitsAt(input, e, s)
    ensures SitsAt(input, r, s + |e|)
  {
    var whole := input[s..s + |e| + |r|];
    SliceOfSlice(input, s, |e| + |r|, 0, |e|);
    SliceOfSlice(input, s, |e| + |r|, |e|, |e| + |r|);
    assert whole[0..|e|] == e;
    assert whole[|e|..|e| + |r|] == r;
  }

  /** A slice of a slice is a slice. */
  lemma SliceOfSlice(a: seq<byte>, s: nat, n: nat, i: nat, j: nat)
    requires s + n <= |a| && i <= j <= n
    ensures a[s..s + n][i..j] == a[s + i..s + j]
  {
    var outer, inner := a[s..s + n][i..j], a[s + i..s + j];
    assert |outer| == |inner|;
    forall k | 0 <= k < |outer| ensures outer[k] == inner[k] {
    }
  }

  /** The clusters of a text whose encoding sits in the input at `s` are well formed for it. */
  lemma {:induction false} ClustersWellFormed(input: seq<byte>, text: seq<char>, s: nat)
    requires SitsAt(input, EncodeStr(text), s)
    ensures WellFormedWord(input, Clusters(text, s))
    decreases |text|
  {
    if text != [] {
      var c, tail := text[0], text[1..];
      var next := s + |Encode(c)|;
      SitsAtSplit(input, Encode(c), EncodeStr(tail), s);
      OneCharSlice(input, c, s);
      ClustersWellFormed(input, tail, next);
      ClustersCons(text, s);
      if tail != [] {
        ClustersCons(tail, next);
      }
      WordCons(input, Grapheme(s, [c]), Clusters(tail, next));
    }
  }

  /** The encoding of `text` sits in that of `before + text + after` right after `before`'s bytes. */
  lemma EncodedWithin(before: seq<char>, text: seq<char>, after: seq<char>)
    ensures SitsAt(EncodeStr(before + text + after), EncodeStr(text), |EncodeStr(before)|)
  {
    EncodeStrAppend(before, text);
    EncodeStrAppend(before + text, after);
    var b, t, a := EncodeStr(before), EncodeStr(text), EncodeStr(after);
    assert EncodeStr(before + text + after) == b + t + a;
    assert (b + t + a)[|b|..|b| + |t|] == t;
  }

  /** A well-formed word in front of well-formed segments. */
  lemma WellFormedCons(input: seq<byte>, w: Word, rest: seq<Word>)
    requires WellFormedWord(input, w) && WellFormed(input, rest)
    ensures WellFormed(input, [w] + rest)
  {
    forall k | 0 <= k < |[w] + rest| ensures WellFormedWord(input, ([w] + rest)[k]) {
      if k > 0 {
        assert ([w] + rest)[k] == rest[k - 1];
      }
    }
  }

  /** The first word's clusters are well formed for the whole text. */
  lemma LayHead(before: seq<char>, words: seq<seq<char>>, after: seq<char>)
    requires words != []
    ensures WellFormedWord(EncodeStr(before + Concat(words) + after), Clusters(words[0], |EncodeStr(before)|))
  {
    assert before + Concat(words) + after == before + words[0] + (Concat(words[1..]) + after);
    EncodedWithin(before, words[0], Concat(words[1..]) + after);
    ClustersWellFormed(EncodeStr(before + words[0] + (Concat(words[1..]) + after)), words[0], |EncodeStr(before)|);
  }

  /** Moving the first word into the text before the rest leaves the whole text as it is. */
  lemma ConcatShift(before: seq<char>, words: seq<seq<char>>, after: seq<char>)
    requires words != []
    ensures (before + words[0]) + Concat(words[1..]) + after == before + Concat(words) + after
  {
    var w, rest := words[0], Concat(words[1..]);
    assert Concat(words) == w + rest;
  }

  /** The rest of the words are laid out from where the first word's bytes end. */
  lemma LayShift(before: seq<char>, words: seq<seq<char>>)
    requires words != []
    ensures Lay(words, |EncodeStr(before)|)
         == [Clusters(words[0], |EncodeStr(before)|)] + Lay(words[1..], |EncodeStr(before + words[0])|)
  {
    var s := |EncodeStr(before)|;
    assert |EncodeStr(before + words[0])| == s + |EncodeStr(words[0])| by {
      EncodeStrAppend(before, words[0]);
    }
  }

  /** The laid-out segments are well formed for the encoded text. */
  lemma {:induction false} LayWellFormed(before: seq<char>, words: seq<seq<char>>, after: seq<char>)
    ensures WellFormed(EncodeStr(before + Concat(words) + after), Lay(words, |EncodeStr(before)|))
    decreases |words|
  {
    if words != [] {
      var before' := before + words[0];
      LayHead(before, words, after);
      LayWellFormed(before', words[1..], after);
      ConcatShift(before, words, after);
      LayShift(before, words);
      WellFormedCons(EncodeStr(before + Concat(words) + after), Clusters(words[0], |EncodeStr(before)|),
                     Lay(words[1..], |EncodeStr(before')|));
    }
  }

  /** The segments of `words` laid out from the start of their joined text are well formed for its encoding. */
  lemma LaidOut(words: seq<seq<char>>)
    ensures WellFormed(EncodeStr(Concat(words)), Lay(words, 0))
  {
    LayWellFormed([], words, []);
    assert [] + Concat(words) + [] == Concat(words);
  }
}
