/**
 * The library's entry points (src/lib.rs): `find_kashidas` dispatches on the
 * script to its finder, and `place_kashidas` inserts U+0640 ARABIC TATWEEL
 * into a copy of the text at the offsets a finder returned.
 */
module Kashida {
  import opened Utf8
  import opened CodePoints
  import opened Segmentation
  import opened Candidates
  import opened Sorting
  import ArabicFinder = Arabic

  /** The scripts the library finds kashidas in: only Arabic so far. */
  datatype Script = Arabic

  /**
   * `find_kashidas`: the chosen script's finder. Its offsets are the ranked
   * survivors of that finder, each the start of a cluster of a non-blank word
   * (never its first), inside the input on a character boundary.
   */
  method FindKashidas(input: seq<byte>, segments: seq<Word>, script: Script, isWhitespace: char -> bool,
                      isAlphabetic: char -> bool)
    returns (offsets: seq<nat>)
    requires WellFormed(input, segments)
    ensures script == Arabic ==> IsRankedOutput(offsets, ArabicFinder.ArabicSurvivors(segments, isWhitespace, isAlphabetic))
    ensures forall o :: o in offsets ==> IsInnerClusterStart(Retained(segments, isWhitespace), o)
    ensures forall o :: o in offsets ==> o < |input| && IsCharBoundary(input, o)
  {
    match script
    case Arabic =>
      offsets := ArabicFinder.FindKashidas(input, segments, isWhitespace, isAlphabetic);
  }

  /** The two bytes `String::insert` writes for the tatweel. */
  const Tatweel: seq<byte> := [0xD9, 0x80]

  /** They are the tatweel's UTF-8 encoding, and the first starts a character. */
  lemma TatweelIsEncoded()
    ensures Encode(Kashida) == Tatweel
    ensures !IsContinuation(Tatweel[0])
  {
  }

  /** `n` tatweels in a row. */
  function Tatweels(n: nat): (r: seq<byte>)
    ensures |r| == 2 * n
  {
    if n == 0 then [] else Tatweel + Tatweels(n - 1)
  }

  /**
   * Reference for the placed text from byte `from` on: before each byte `p`
   * of `text`, and after its last byte for `p == |text|`, as many tatweels as
   * `p` occurs in `m`.
   */
  function Spread(text: seq<byte>, m: multiset<nat>, from: nat): seq<byte>
    requires from <= |text|
    decreases |text| - from
  {
    if from == |text| then Tatweels(m[from]) else Tatweels(m[from]) + [text[from]] + Spread(text, m, from + 1)
  }

  /** `kashida_locs.iter().cycle().take(kashida_count)`: the list whole as often as it fits, then a prefix of it. */
  function Cycled(locs: seq<nat>, count: nat): (r: seq<nat>)
    requires locs != []
    ensures |r| == count
    decreases count
  {
    if count <= |locs| then locs[..count] else locs + Cycled(locs, count - |locs|)
  }

  /** The key `sort_unstable_by(|a, b| b.cmp(a))` orders by: non-decreasing in it is non-increasing in the offset. */
  function Descending(l: nat): int {
    0 - l as int
  }

  /**
   * `place_kashidas`: the text unchanged when no tatweel is asked for or no
   * location is given; otherwise, with the first `count` locations taken
   * cyclically, the text with as many tatweels before each byte offset as the
   * offset was taken, two bytes longer per tatweel. The locations used must
   * lie in the text on character boundaries (`String::insert` panics
   * otherwise), and each insertion then lands on a boundary of the buffer.
   */
  method PlaceKashidas(text: seq<byte>, locs: seq<nat>, count: nat) returns (result: seq<byte>)
    requires forall i :: 0 <= i < |locs| && i < count ==> IsCharBoundary(text, locs[i])
    ensures count == 0 || locs == [] ==> result == text
    ensures count > 0 && locs != [] ==> result == Spread(text, multiset(Cycled(locs, count)), 0)
    ensures count > 0 && locs != [] ==> |result| == |text| + 2 * count
  {
    if count == 0 || |locs| == 0 {
      result := text;
    } else {
      var used := Cycled(locs, count);
      var order := SortBy(used, Descending);
      CycledFromPrefix(locs, count);
      forall i | 0 <= i < |order| ensures IsCharBoundary(text, order[i]) {
        assert order[i] in multiset(used);
      }
      result := InsertAll(text, order);
    }
  }

  /**
   * The insertion loop over the locations in non-increasing order: each
   * tatweel goes in at its location's byte in the buffer, which is a
   * character boundary there, and every location ends up with as many
   * tatweels before its byte as it occurs in `order`.
   */
  method InsertAll(text: seq<byte>, order: seq<nat>) returns (buffer: seq<byte>)
    requires SortedBy(order, Descending)
    requires forall i :: 0 <= i < |order| ==> IsCharBoundary(text, order[i])
    ensures buffer == Spread(text, multiset(order), 0)
    ensures |buffer| == |text| + 2 * |order|
  {
    buffer := text;
    SpreadNothing(text, 0);
    for i := 0 to |order|
      invariant buffer == Spread(text, multiset(order[..i]), 0)
      invariant |buffer| == |text| + 2 * i
    {
      var kc := order[i];
      InsertNext(text, order, i);
      buffer := buffer[..kc] + Tatweel + buffer[kc..];
    }
    assert order[..|order|] == order;
  }

  /**
   * One turn of the insertion loop: the next location is a character
   * boundary of the buffer, and inserting there places it.
   */
  lemma InsertNext(text: seq<byte>, order: seq<nat>, i: nat)
    requires i < |order| && SortedBy(order, Descending)
    requires IsCharBoundary(text, order[i])
    ensures IsCharBoundary(Spread(text, multiset(order[..i]), 0), order[i])
    ensures var buffer := Spread(text, multiset(order[..i]), 0);
            buffer[..order[i]] + Tatweel + buffer[order[i]..] == Spread(text, multiset(order[..i + 1]), 0)
  {
    var m := multiset(order[..i]);
    PlacedAtOrAfter(order, i);
    InsertBoundary(text, m, order[i]);
    InsertSpread(text, m, order[i]);
    assert order[..i + 1] == order[..i] + [order[i]];
  }

  /** In the descending order, every location before position `i` is at or after the one at `i`. */
  lemma PlacedAtOrAfter(order: seq<nat>, i: nat)
    requires i < |order| && SortedBy(order, Descending)
    ensures forall l :: l in multiset(order[..i]) ==> order[i] <= l
  {
    forall l | l in multiset(order[..i]) ensures order[i] <= l {
      var a :| 0 <= a < i && order[..i][a] == l;
      assert Descending(order[a]) <= Descending(order[i]);
    }
  }

  /** Every location selected is among the first `count` of the list. */
  lemma {:induction false} CycledFromPrefix(locs: seq<nat>, count: nat)
    requires locs != []
    ensures forall l :: l in multiset(Cycled(locs, count)) ==> exists j :: 0 <= j < |locs| && j < count && locs[j] == l
    decreases count
  {
    if count > |locs| {
      CycledFromPrefix(locs, count - |locs|);
      assert Cycled(locs, count) == locs + Cycled(locs, count - |locs|);
    } else {
      forall l | l in multiset(Cycled(locs, count)) ensures exists j :: 0 <= j < |locs| && j < count && locs[j] == l {
        var j :| 0 <= j < count && locs[..count][j] == l;
        assert locs[j] == l;
      }
    }
  }

  /**
   * Location `q * |locs| + r` of the selection, `r` below `|locs|`, is
   * location `r` of the list: the list is cycled.
   */
  lemma {:induction false} CycledAt(locs: seq<nat>, count: nat, q: nat, r: nat)
    requires locs != [] && r < |locs| && q * |locs| + r < count
    ensures Cycled(locs, count)[q * |locs| + r] == locs[r]
    decreases q
  {
    var n := |locs|;
    if count > n {
      assert Cycled(locs, count) == locs + Cycled(locs, count - n);
      if q > 0 {
        assert q * n + r == (q - 1) * n + r + n;
        CycledAt(locs, count - n, q - 1, r);
      }
    }
  }

  /**
   * With `count == q * |locs| + r`, each location is used as many times as it
   * occurs in the list, times `q`, plus its occurrences among the first `r`.
   */
  lemma {:induction false} CycledCounts(locs: seq<nat>, count: nat, q: nat, r: nat)
    requires locs != [] && r < |locs| && count == q * |locs| + r
    ensures forall l :: multiset(Cycled(locs, count))[l] == q * multiset(locs)[l] + multiset(locs[..r])[l]
    decreases q
  {
    var n := |locs|;
    if q == 0 {
      assert count == r;
    } else {
      OneTurnLess(q, n);
      if count <= n {
        CycledOneTurn(locs, count, q, r);
      } else {
        CycledCounts(locs, count - n, q - 1, r);
        CycledOneMoreTurn(locs, count, q, r);
      }
    }
  }

  /** Counting `q` turns and `r` more, from `q - 1` turns and `r` more. */
  lemma CycledOneMoreTurn(locs: seq<nat>, count: nat, q: nat, r: nat)
    requires locs != [] && q > 0 && r < |locs| && count > |locs|
    requires forall l :: multiset(Cycled(locs, count - |locs|))[l] == (q - 1) * multiset(locs)[l] + multiset(locs[..r])[l]
    ensures forall l :: multiset(Cycled(locs, count))[l] == q * multiset(locs)[l] + multiset(locs[..r])[l]
  {
    var rest := Cycled(locs, count - |locs|);
    assert Cycled(locs, count) == locs + rest;
    forall l ensures multiset(Cycled(locs, count))[l] == q * multiset(locs)[l] + multiset(locs[..r])[l] {
      OneTurnLess(q, multiset(locs)[l]);
    }
  }

  /** A count that fits in one turn is the whole list, once. */
  lemma CycledOneTurn(locs: seq<nat>, count: nat, q: nat, r: nat)
    requires locs != [] && q > 0 && r < |locs| && count == q * |locs| + r && count <= |locs|
    ensures forall l :: multiset(Cycled(locs, count))[l] == q * multiset(locs)[l] + multiset(locs[..r])[l]
  {
    OneTurnOnly(q, |locs|, r);
    assert locs[..count] == locs;
    assert locs[..r] == [];
  }

  /** A count that fits in one turn of the list is exactly that turn. */
  lemma OneTurnOnly(q: nat, n: nat, r: nat)
    requires q > 0 && r < n && q * n + r <= n
    ensures q == 1 && r == 0
  {
    OneTurnLess(q, n);
    if q > 1 {
      OneTurnLess(q - 1, n);
    }
  }

  /** One turn fewer of `n` elements is `n` elements fewer. */
  lemma OneTurnLess(q: nat, n: nat)
    requires q > 0
    ensures q * n == (q - 1) * n + n
    ensures (q - 1) * n >= 0
  {
  }

  /** With no location of `m` below `k`, the spread text runs unchanged up to byte `k`. */
  lemma {:induction false} SpreadPrefix(text: seq<byte>, m: multiset<nat>, from: nat, k: nat)
    requires from <= k <= |text|
    requires forall l :: l in m ==> k <= l
    ensures Spread(text, m, from) == text[from..k] + Spread(text, m, k)
    decreases k - from
  {
    if from < k {
      SpreadSkip(text, m, from);
      SpreadPrefix(text, m, from + 1, k);
      assert text[from..k] == [text[from]] + text[from + 1..k];
    }
  }

  /** A byte where nothing is placed is copied as it is. */
  lemma SpreadSkip(text: seq<byte>, m: multiset<nat>, from: nat)
    requires from < |text| && from !in m
    ensures Spread(text, m, from) == [text[from]] + Spread(text, m, from + 1)
  {
    assert Tatweels(m[from]) == [];
  }

  /** The spread text from `from` on depends only on the multiplicities at or after `from`. */
  lemma {:induction false} SpreadAgree(text: seq<byte>, m1: multiset<nat>, m2: multiset<nat>, from: nat)
    requires from <= |text|
    requires forall l :: from <= l <= |text| ==> m1[l] == m2[l]
    ensures Spread(text, m1, from) == Spread(text, m2, from)
    decreases |text| - from
  {
    if from < |text| {
      SpreadAgree(text, m1, m2, from + 1);
    }
  }

  /** With nothing placed, the spread text is the text. */
  lemma {:induction false} SpreadNothing(text: seq<byte>, from: nat)
    requires from <= |text|
    ensures Spread(text, multiset{}, from) == text[from..]
    decreases |text| - from
  {
    if from < |text| {
      SpreadNothing(text, from + 1);
      assert text[from..] == [text[from]] + text[from + 1..];
    }
  }

  /** One more location at `k` puts one more tatweel in front of what is spread from `k` on. */
  lemma SpreadAddFirst(text: seq<byte>, m: multiset<nat>, k: nat)
    requires k <= |text|
    ensures Spread(text, m + multiset{k}, k) == Tatweel + Spread(text, m, k)
  {
    var m' := m + multiset{k};
    var more := Tatweels(m'[k]);
    assert more == Tatweel + Tatweels(m[k]) by {
      assert m'[k] == m[k] + 1;
    }
    if k < |text| {
      var tail := Spread(text, m, k + 1);
      assert Spread(text, m', k + 1) == tail by {
        SpreadAgree(text, m', m, k + 1);
      }
      calc {
        Spread(text, m', k);
        more + [text[k]] + tail;
        Tatweel + (Tatweels(m[k]) + [text[k]] + tail);
        Tatweel + Spread(text, m, k);
      }
    }
  }

  /**
   * One step of the insertion loop: when every location placed so far is at
   * or after `k`, inserting a tatweel at byte `k` of the buffer adds `k` once
   * to the placed locations.
   */
  lemma InsertSpread(text: seq<byte>, m: multiset<nat>, k: nat)
    requires k <= |text|
    requires forall l :: l in m ==> k <= l
    ensures k <= |Spread(text, m, 0)|
    ensures Spread(text, m + multiset{k}, 0) == Spread(text, m, 0)[..k] + Tatweel + Spread(text, m, 0)[k..]
  {
    var rest := Spread(text, m, k);
    SpreadPrefix(text, m, 0, k);
    SpreadPrefix(text, m + multiset{k}, 0, k);
    SpreadAddFirst(text, m, k);
    var s := Spread(text, m, 0);
    assert s == text[..k] + rest;
    assert s[..k] == text[..k] && s[k..] == rest;
  }

  /**
   * The insertion never panics: with every location placed so far at or after
   * `k`, and `k` a character boundary of the text, `k` is one of the buffer too.
   */
  lemma InsertBoundary(text: seq<byte>, m: multiset<nat>, k: nat)
    requires IsCharBoundary(text, k)
    requires forall l :: l in m ==> k <= l
    ensures IsCharBoundary(Spread(text, m, 0), k)
  {
    var rest := Spread(text, m, k);
    SpreadPrefix(text, m, 0, k);
    var s := Spread(text, m, 0);
    assert s == text[..k] + rest;
    if 0 < k && k < |s| {
      assert s[k] == rest[0];
      if m[k] > 0 {
        assert rest[..2] == Tatweels(m[k])[..2] == Tatweel;
        TatweelIsEncoded();
      } else {
        assert rest == [text[k]] + Spread(text, m, k + 1);
      }
    }
  }

  /** The number of locations of `m` in `from .. p - 1`. */
  function Between(m: multiset<nat>, from: nat, p: nat): nat
    decreases p
  {
    if p <= from then 0 else Between(m, from, p - 1) + m[p - 1]
  }

  /** Counting from `from` is counting `from` itself, then from `from + 1`. */
  lemma {:induction false} BetweenFirst(m: multiset<nat>, from: nat, p: nat)
    requires from < p
    ensures Between(m, from, p) == m[from] + Between(m, from + 1, p)
    decreases p
  {
    if p - 1 > from {
      BetweenFirst(m, from, p - 1);
    }
  }

  /** Byte `from` of the text follows the tatweels placed at `from`. */
  lemma SpreadLayoutHere(text: seq<byte>, m: multiset<nat>, from: nat)
    requires from <= |text|
    ensures 2 * m[from] <= |Spread(text, m, from)|
    ensures Spread(text, m, from)[..2 * m[from]] == Tatweels(m[from])
    ensures from < |text| ==> 2 * m[from] < |Spread(text, m, from)| && Spread(text, m, from)[2 * m[from]] == text[from]
  {
    var head := Tatweels(m[from]);
    if from < |text| {
      assert Spread(text, m, from) == head + ([text[from]] + Spread(text, m, from + 1));
    }
  }

  /** Where byte `p` of the text and the tatweels before it begin, counting from `from`: two bytes more per tatweel placed before `p`. */
  function Moved(m: multiset<nat>, from: nat, p: nat): nat
    requires from <= p
  {
    (p - from) + 2 * Between(m, from, p)
  }

  /** Counting from `from` passes byte `from` and the tatweels before it, then counts from `from + 1`. */
  lemma MovedFirst(m: multiset<nat>, from: nat, p: nat)
    requires from < p
    ensures Moved(m, from, p) == 2 * m[from] + 1 + Moved(m, from + 1, p)
  {
    BetweenFirst(m, from, p);
  }

  /**
   * The spread text up to byte `p`: each byte from `from` to `p - 1` of the
   * text after the tatweels placed at it.
   */
  function Upto(text: seq<byte>, m: multiset<nat>, from: nat, p: nat): seq<byte>
    requires from <= p <= |text|
    decreases p - from
  {
    if from == p then [] else Tatweels(m[from]) + [text[from]] + Upto(text, m, from + 1, p)
  }

  /** The spread text is what it holds up to byte `p`, then what it holds from `p` on. */
  lemma {:induction false} SpreadSplit(text: seq<byte>, m: multiset<nat>, from: nat, p: nat)
    requires from <= p <= |text|
    ensures Spread(text, m, from) == Upto(text, m, from, p) + Spread(text, m, p)
    decreases p - from
  {
    if from < p {
      SpreadSplit(text, m, from + 1, p);
      var head := Tatweels(m[from]) + [text[from]];
      assert Spread(text, m, from) == head + Spread(text, m, from + 1);
      assert Upto(text, m, from, p) == head + Upto(text, m, from + 1, p);
    }
  }

  /** Up to byte `p` there are `p - from` bytes of the text and two bytes per tatweel placed before `p`. */
  lemma {:induction false} UptoLength(text: seq<byte>, m: multiset<nat>, from: nat, p: nat)
    requires from <= p <= |text|
    ensures |Upto(text, m, from, p)| == Moved(m, from, p)
    decreases p - from
  {
    if from < p {
      UptoLength(text, m, from + 1, p);
      MovedFirst(m, from, p);
    }
  }

  /** What `b` holds is found `|a|` further on in `a + b`. */
  lemma Appended<T>(a: seq<T>, b: seq<T>, k: nat)
    requires k <= |b|
    ensures (a + b)[|a|..|a| + k] == b[..k]
    ensures k < |b| ==> (a + b)[|a| + k] == b[k]
  {
  }

  /**
   * The original bytes keep their order: byte `p` of the text follows the
   * tatweels placed at `p`, at its offset moved by two bytes per tatweel
   * placed before it.
   */
  lemma SpreadLayout(text: seq<byte>, m: multiset<nat>, p: nat)
    requires p <= |text|
    ensures Moved(m, 0, p) + 2 * m[p] <= |Spread(text, m, 0)|
    ensures Spread(text, m, 0)[Moved(m, 0, p)..Moved(m, 0, p) + 2 * m[p]] == Tatweels(m[p])
    ensures p < |text| ==>
              Moved(m, 0, p) + 2 * m[p] < |Spread(text, m, 0)| && Spread(text, m, 0)[Moved(m, 0, p) + 2 * m[p]] == text[p]
  {
    SpreadSplit(text, m, 0, p);
    UptoLength(text, m, 0, p);
    SpreadLayoutHere(text, m, p);
    Appended(Upto(text, m, 0, p), Spread(text, m, p), 2 * m[p]);
  }
}
