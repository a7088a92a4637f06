/**
 * Kashida candidates and the per-word aggregation shared by the Arabic and
 * Syriac finders: each word keeps one candidate, a newcomer replaces it when
 * its priority is not worse, and the survivors are returned ordered by
 * priority, best first, as bare byte offsets.
 */
module Candidates {
  import opened Wrappers
  import opened Sorting

  /** KashidaCandidate: where a kashida may go (a byte offset) and its priority; lower is better. */
  datatype Candidate = Candidate(breakpoint: nat, priority: nat)

  /** The sort key of the ranking. */
  function Priority(c: Candidate): int {
    c.priority
  }

  /**
   * The candidate a word's slot holds after `kc` is offered: the entry is
   * replaced when the newcomer's priority is less than or equal to the stored
   * one, and is filled when it was vacant.
   */
  function Keep(stored: Option<Candidate>, kc: Candidate): (r: Candidate)
    ensures r.priority <= kc.priority
    ensures stored.None? ==> r == kc
    ensures stored.Some? ==> (r == kc || r == stored.value) && r.priority <= stored.value.priority
    ensures stored.Some? && kc.priority == stored.value.priority ==> r == kc
  {
    match stored
    case Some(e) => if kc.priority <= e.priority then kc else e
    case None => kc
  }

  /** The candidate the slot holds after the candidates `cs` were offered in order. */
  function Best(cs: seq<Candidate>): Option<Candidate> {
    if cs == [] then None else Some(Keep(Best(cs[..|cs| - 1]), cs[|cs| - 1]))
  }

  /** `cs[i]` has the least priority in `cs`, and every later candidate's is greater. */
  predicate IsLastMinimum(cs: seq<Candidate>, i: int) {
    && 0 <= i < |cs|
    && (forall j :: 0 <= j < |cs| ==> cs[i].priority <= cs[j].priority)
    && (forall j :: i < j < |cs| ==> cs[i].priority < cs[j].priority)
  }

  /**
   * The slot ends up holding a candidate of least priority, and among those
   * the last one offered; it stays vacant only when nothing was offered.
   */
  lemma {:induction false} BestIsLastMinimum(cs: seq<Candidate>)
    ensures Best(cs).None? <==> cs == []
    ensures cs != [] ==> exists i :: IsLastMinimum(cs, i) && Best(cs) == Some(cs[i])
  {
    if cs != [] {
      var ps, x := cs[..|cs| - 1], cs[|cs| - 1];
      if ps == [] {
        assert IsLastMinimum(cs, 0);
      } else {
        BestIsLastMinimum(ps);
        var i :| IsLastMinimum(ps, i) && Best(ps) == Some(ps[i]);
        if x.priority <= ps[i].priority {
          assert IsLastMinimum(cs, |cs| - 1);
        } else {
          assert IsLastMinimum(cs, i);
        }
      }
    }
  }

  /** The last candidate of least priority is the survivor, whichever index states it. */
  lemma LastMinimumIsBest(cs: seq<Candidate>, i: int)
    requires IsLastMinimum(cs, i)
    ensures Best(cs) == Some(cs[i])
  {
    BestIsLastMinimum(cs);
  }

  /** The candidates a rule emits over the windows `ws`, in window order. */
  function Emitted<W>(ws: seq<W>, rule: W -> Option<Candidate>): seq<Candidate> {
    if ws == [] then [] else Emitted(ws[..|ws| - 1], rule) + ToSeq(rule(ws[|ws| - 1]))
  }

  /** One more window adds what it emits at the end. */
  lemma EmittedSnoc<W>(ws: seq<W>, w: W, rule: W -> Option<Candidate>)
    ensures Emitted(ws + [w], rule) == Emitted(ws, rule) + ToSeq(rule(w))
  {
    assert (ws + [w])[..|ws|] == ws;
  }

  /** The map `m` after the slot `k` is set to `o`, when `o` holds a candidate. */
  function Slot(m: map<nat, Candidate>, k: nat, o: Option<Candidate>): map<nat, Candidate> {
    match o
    case Some(c) => m[k := c]
    case None => m
  }

  /** The map from word index to that word's surviving candidate. */
  function BestPerWord<W>(windows: seq<seq<W>>, rule: W -> Option<Candidate>): map<nat, Candidate> {
    if windows == [] then map[]
    else
      var n := |windows| - 1;
      Slot(BestPerWord(windows[..n], rule), n, Best(Emitted(windows[n], rule)))
  }

  /** Word `k` has an entry exactly when it emitted a candidate, and the entry is its survivor. */
  lemma {:induction false} BestPerWordAt<W>(windows: seq<seq<W>>, rule: W -> Option<Candidate>, k: nat)
    ensures k in BestPerWord(windows, rule) <==> k < |windows| && Best(Emitted(windows[k], rule)).Some?
    ensures k in BestPerWord(windows, rule) ==> BestPerWord(windows, rule)[k] == Best(Emitted(windows[k], rule)).value
  {
    if windows != [] {
      var n := |windows| - 1;
      var before := BestPerWord(windows[..n], rule);
      assert BestPerWord(windows, rule) == Slot(before, n, Best(Emitted(windows[n], rule)));
      BestPerWordAt(windows[..n], rule, k);
      if k < n {
        assert windows[..n][k] == windows[k];
      }
    }
  }

  /** The surviving candidates, one per word that emitted any, in word order. */
  function Survivors<W>(windows: seq<seq<W>>, rule: W -> Option<Candidate>): seq<Candidate> {
    if windows == [] then []
    else Survivors(windows[..|windows| - 1], rule) + ToSeq(Best(Emitted(windows[|windows| - 1], rule)))
  }

  /** One more word adds its survivor, if any, at the end. */
  lemma SurvivorsSnoc<W>(windows: seq<seq<W>>, ws: seq<W>, rule: W -> Option<Candidate>)
    ensures Survivors(windows + [ws], rule) == Survivors(windows, rule) + ToSeq(Best(Emitted(ws, rule)))
  {
    assert (windows + [ws])[..|windows|] == windows;
  }

  /** The map's values for the keys below `n`, in key order. */
  function InKeyOrder<V>(m: map<nat, V>, n: nat): seq<V> {
    if n == 0 then [] else InKeyOrder(m, n - 1) + (if n - 1 in m then [m[n - 1]] else [])
  }

  /** The offsets of the candidates, in order. */
  function Breakpoints(cs: seq<Candidate>): (offsets: seq<nat>)
    ensures |offsets| == |cs|
    ensures forall i :: 0 <= i < |cs| ==> offsets[i] == cs[i].breakpoint
  {
    if cs == [] then [] else [cs[0].breakpoint] + Breakpoints(cs[1..])
  }

  /**
   * `offsets` is what the finders return for `survivors`: the offsets of a
   * permutation of them ordered by non-decreasing priority (ties in any order).
   */
  ghost predicate IsRankedOutput(offsets: seq<nat>, survivors: seq<Candidate>) {
    exists ranked :: SortedBy(ranked, Priority) && multiset(ranked) == multiset(survivors) && offsets == Breakpoints(ranked)
  }

  /** One more window offers its candidate, if any, to the word's slot. */
  lemma BestStep<W>(ws: seq<W>, rule: W -> Option<Candidate>, j: nat)
    requires j < |ws|
    ensures Best(Emitted(ws[..j + 1], rule))
         == match rule(ws[j])
            case Some(kc) => Some(Keep(Best(Emitted(ws[..j], rule)), kc))
            case None => Best(Emitted(ws[..j], rule))
  {
    assert ws[..j + 1][..j] == ws[..j];
    EmittedSnoc(ws[..j], ws[j], rule);
    assert ws[..j] + [ws[j]] == ws[..j + 1];
    var prev := Emitted(ws[..j], rule);
    match rule(ws[j]) {
      case Some(kc) =>
        assert Emitted(ws[..j + 1], rule) == prev + [kc];
        assert (prev + [kc])[..|prev|] == prev;
        assert (prev + [kc])[|prev|] == kc;
      case None =>
        assert Emitted(ws[..j + 1], rule) == prev + [];
        assert prev + [] == prev;
    }
  }

  /** The word's slot holds the stored candidate, and offering `kc` updates just that slot. */
  lemma OfferStep(before: map<nat, Candidate>, k: nat, stored: Option<Candidate>, kc: Candidate)
    requires k !in before
    ensures k in Slot(before, k, stored) <==> stored.Some?
    ensures k in Slot(before, k, stored) ==> Slot(before, k, stored)[k] == stored.value
    ensures Slot(before, k, Some(Keep(stored, kc))) == Slot(before, k, stored)[k := Keep(stored, kc)]
  {
  }

  /** One more word fills its slot with its survivor, if it has one. */
  lemma BestPerWordStep<W>(windows: seq<seq<W>>, rule: W -> Option<Candidate>, k: nat)
    requires k < |windows|
    ensures BestPerWord(windows[..k + 1], rule) == Slot(BestPerWord(windows[..k], rule), k, Best(Emitted(windows[k], rule)))
  {
    assert windows[..k + 1][..k] == windows[..k];
  }

  /**
   * The loop over one word's windows: every candidate is offered to the
   * word's slot, replacing the stored one when its priority is less or equal.
   */
  method OfferWord<W>(before: map<nat, Candidate>, wordIdx: nat, ws: seq<W>, rule: W -> Option<Candidate>)
    returns (candidates: map<nat, Candidate>)
    requires wordIdx !in before
    ensures candidates == Slot(before, wordIdx, Best(Emitted(ws, rule)))
  {
    candidates := before;
    for j := 0 to |ws|
      invariant candidates == Slot(before, wordIdx, Best(Emitted(ws[..j], rule)))
    {
      BestStep(ws, rule, j);
      match rule(ws[j]) {
        case Some(kc) =>
          OfferStep(before, wordIdx, Best(Emitted(ws[..j], rule)), kc);
          if wordIdx !in candidates {
            candidates := candidates[wordIdx := kc];
          } else if kc.priority <= candidates[wordIdx].priority {
            candidates := candidates[wordIdx := kc];
          } else {
            assert candidates == candidates[wordIdx := candidates[wordIdx]];
          }
        case None =>
      }
    }
    assert ws[..|ws|] == ws;
  }

  /** The loop over the words: each word's slot ends up holding its survivor. */
  method CollectBest<W>(windows: seq<seq<W>>, rule: W -> Option<Candidate>) returns (candidates: map<nat, Candidate>)
    ensures candidates == BestPerWord(windows, rule)
  {
    candidates := map[];
    for wordIdx := 0 to |windows|
      invariant candidates == BestPerWord(windows[..wordIdx], rule)
    {
      BestPerWordAt(windows[..wordIdx], rule, wordIdx);
      candidates := OfferWord(candidates, wordIdx, windows[wordIdx], rule);
      BestPerWordStep(windows, rule, wordIdx);
    }
    assert windows[..|windows|] == windows;
  }

  /** The entries of the per-word map, in word order, are the survivors. */
  lemma {:induction false} BestPerWordInKeyOrder<W>(windows: seq<seq<W>>, rule: W -> Option<Candidate>)
    ensures InKeyOrder(BestPerWord(windows, rule), |windows|) == Survivors(windows, rule)
  {
    if windows != [] {
      var n := |windows| - 1;
      var prefix := windows[..n];
      BestPerWordInKeyOrder(prefix, rule);
      forall k: nat | k < n
        ensures (k in BestPerWord(prefix, rule) <==> k in BestPerWord(windows, rule))
        ensures k in BestPerWord(prefix, rule) ==> BestPerWord(prefix, rule)[k] == BestPerWord(windows, rule)[k]
      {
        BestPerWordAt(prefix, rule, k);
        BestPerWordAt(windows, rule, k);
      }
      SameEntriesBelow(BestPerWord(prefix, rule), BestPerWord(windows, rule), n);
      BestPerWordAt(windows, rule, n);
    }
  }

  /** Two maps that agree below `n` list the same entries below `n`. */
  lemma {:induction false} SameEntriesBelow<V>(m1: map<nat, V>, m2: map<nat, V>, n: nat)
    requires forall k: nat :: k < n ==> (k in m1 <==> k in m2) && (k in m1 ==> m1[k] == m2[k])
    ensures InKeyOrder(m1, n) == InKeyOrder(m2, n)
  {
    if n > 0 {
      SameEntriesBelow(m1, m2, n - 1);
    }
  }

  /** `into_values().collect()`, taking the values in key order, one of the orders the hash map may yield. */
  method Values<V>(m: map<nat, V>, n: nat) returns (vs: seq<V>)
    ensures vs == InKeyOrder(m, n)
  {
    vs := [];
    for k := 0 to n
      invariant vs == InKeyOrder(m, k)
    {
      if k in m {
        vs := vs + [m[k]];
      }
    }
  }

  /**
   * The map's values, sorted by priority and projected onto their offsets
   * (`into_values().collect()`, `sort_unstable_by_key`, `map(|kc| kc.breakpoint)`).
   */
  method RankSurvivors(candidates: map<nat, Candidate>, n: nat) returns (offsets: seq<nat>)
    ensures IsRankedOutput(offsets, InKeyOrder(candidates, n))
  {
    var ret := Values(candidates, n);
    ret := SortBy(ret, Priority);
    offsets := Breakpoints(ret);
  }

  /**
   * The finders' output holds one offset per survivor: exactly the offsets of
   * the survivors, as many as there are survivors.
   */
  lemma RankedOutputOffsets(offsets: seq<nat>, survivors: seq<Candidate>)
    requires IsRankedOutput(offsets, survivors)
    ensures |offsets| == |survivors|
    ensures forall o :: o in offsets <==> exists c :: c in survivors && c.breakpoint == o
  {
    var ranked :| SortedBy(ranked, Priority) && multiset(ranked) == multiset(survivors) && offsets == Breakpoints(ranked);
    assert |ranked| == |multiset(ranked)| == |survivors|;
    forall o ensures o in offsets <==> exists c :: c in survivors && c.breakpoint == o {
      if o in offsets {
        var i :| 0 <= i < |offsets| && offsets[i] == o;
        assert ranked[i] in multiset(survivors);
      }
      if c :| c in survivors && c.breakpoint == o {
        assert c in multiset(ranked);
        var i :| 0 <= i < |ranked| && ranked[i] == c;
        assert offsets[i] == o;
      }
    }
  }

  /** Priorities strictly increase along `s`. */
  predicate StrictlyRanked(s: seq<Candidate>) {
    forall i, j :: 0 <= i < j < |s| ==> s[i].priority < s[j].priority
  }

  /** Two rankings of the same candidates agree when no two of them tie. */
  lemma {:induction false} RankingIsUnique(a: seq<Candidate>, b: seq<Candidate>)
    requires SortedBy(a, Priority) && StrictlyRanked(b)
    requires multiset(a) == multiset(b)
    ensures a == b
  {
    if a == [] {
      assert |multiset(b)| == 0;
    } else {
      SameHead(a, b);
      var a', b' := a[1..], b[1..];
      MultisetOfTail(a);
      MultisetOfTail(b);
      assert SortedBy(a', Priority);
      RankingIsUnique(a', b');
    }
  }

  /** The multiset of a sequence's tail lacks one copy of its head. */
  lemma MultisetOfTail<T>(s: seq<T>)
    requires s != []
    ensures multiset(s[1..]) == multiset(s) - multiset{s[0]}
  {
    assert s == [s[0]] + s[1..];
  }

  /** Two such rankings start with the same candidate. */
  lemma SameHead(a: seq<Candidate>, b: seq<Candidate>)
    requires SortedBy(a, Priority) && StrictlyRanked(b)
    requires multiset(a) == multiset(b) && a != []
    ensures b != [] && a[0] == b[0]
  {
    assert a[0] in multiset(b);
    var j :| 0 <= j < |b| && b[j] == a[0];
    assert b[0] in multiset(a);
    var i :| 0 <= i < |a| && a[i] == b[0];
    assert Priority(a[0]) <= Priority(a[i]);
  }

  /** When the survivors have pairwise distinct priorities the output is determined. */
  lemma RankedOutputOfDistinctPriorities(offsets: seq<nat>, survivors: seq<Candidate>, expected: seq<Candidate>)
    requires IsRankedOutput(offsets, survivors)
    requires StrictlyRanked(expected) && multiset(expected) == multiset(survivors)
    ensures offsets == Breakpoints(expected)
  {
    var ranked :| SortedBy(ranked, Priority) && multiset(ranked) == multiset(survivors) && offsets == Breakpoints(ranked);
    RankingIsUnique(ranked, expected);
  }

  /** Every emitted candidate is what the rule gave some window. */
  lemma {:induction false} EmittedByAWindow<W>(ws: seq<W>, rule: W -> Option<Candidate>, c: Candidate)
    requires c in Emitted(ws, rule)
    ensures exists j :: 0 <= j < |ws| && rule(ws[j]) == Some(c)
  {
    var n := |ws| - 1;
    if c in Emitted(ws[..n], rule) {
      EmittedByAWindow(ws[..n], rule, c);
      var j :| 0 <= j < n && rule(ws[..n][j]) == Some(c);
      assert ws[j] == ws[..n][j];
    } else {
      assert rule(ws[n]) == Some(c);
    }
  }

  /** Every survivor is the best of the candidates emitted in some word. */
  lemma {:induction false} SurvivorOfAWord<W>(windows: seq<seq<W>>, rule: W -> Option<Candidate>, c: Candidate)
    requires c in Survivors(windows, rule)
    ensures exists k :: 0 <= k < |windows| && Best(Emitted(windows[k], rule)) == Some(c) && c in Emitted(windows[k], rule)
  {
    var n := |windows| - 1;
    if c in Survivors(windows[..n], rule) {
      SurvivorOfAWord(windows[..n], rule, c);
      var k :| 0 <= k < n && Best(Emitted(windows[..n][k], rule)) == Some(c) && c in Emitted(windows[..n][k], rule);
      assert windows[k] == windows[..n][k];
    } else {
      var cs := Emitted(windows[n], rule);
      assert Best(cs) == Some(c);
      BestIsLastMinimum(cs);
    }
  }
}
