# kashida — a Dafny model

`kashida` finds the byte offsets in a UTF-8 string at which a kashida
(U+0640 ARABIC TATWEEL, the elongation stroke of Arabic-script
justification) may be inserted. It can also insert a given number of
kashidas at those offsets.

The Arabic finder works as follows:

- It splits the text into words and drops the blank ones.
- It splits each word into grapheme clusters.
- It slides a window of four clusters over each word. The word is padded
  with empty slots to at least three, plus one more empty slot.
- A table of letter-group rules turns each window into at most one
  candidate, a breakpoint with a priority (lower is better).
- Each word keeps its best candidate. A later candidate of equal priority
  replaces an earlier one.
- The surviving breakpoints are returned, ordered by priority.

Two more finders follow the same plan on three-cluster windows:

- The Syriac finder reads the Unicode joining type and joining group
  (Alaph, Lamadh).
- The script-independent finder reads joining types only. It keeps the
  last joint of each word.

`place_kashidas` repeats the chosen offsets cyclically until it has
`count` of them. It sorts them in descending order and inserts one
tatweel at each.

The model has these modules:

- `Utf8`: bytes, the UTF-8 encoding of a scalar value and character
  boundaries.
- `Segmentation`: words as sequences of `Grapheme(start, chars)`,
  well-formedness against the input bytes, the blank-word filter and the
  padded windows.
- `CodePoints`: the letter-group tables as membership predicates.
- `Candidates`: the per-word best-candidate aggregation (`CollectBest`,
  a loop over a `map`) and the ranking by priority.
- `Sorting`: an insertion sort used as the reference for the source's
  unstable sort.
- `Arabic`, `ArabicRules` and `ArabicArms`: the Arabic glyph-run rule
  table and the finder. `ArabicRules` states every row of the table over
  arbitrary windows, in terms of the chars of the clusters.
- `Global` and `Syriac`: the other two finders.
- `Kashida`: the script dispatch and `PlaceKashidas`.
- `Layout` and `ArabicExamples`: concrete UTF-8 layouts of Arabic text.
  The source's two Arabic unit tests are proved on them.

The finder methods take the source's loops as `for` loops, with
invariants tying them to reference functions. `PlaceKashidas` is proved
equal to `Spread`, a reference definition that writes out, for every
byte position, how many tatweels come before it.

## Model

| member | source | states |
|---|---|---|
| Utf8.Encode | src/lib.rs:41 | support for the byte positions of a Rust `str`: a scalar value encodes to 1–4 bytes; only the first is not a continuation byte; the length is 1 exactly below U+0080 and 2 exactly in U+0080–U+07FF |
| Utf8.Continuations | src/lib.rs:41 | support for `str` byte positions: the k trailing bytes of an encoding are exactly k continuation bytes |
| Utf8.EncodeStrAppend | src/lib.rs:41 | support for `str` byte positions: encoding a concatenation is the concatenation of the encodings, so byte offsets of later text are sums of earlier lengths |
| Sorting.Insert | src/arabic.rs:116 | inserting into a key-sorted sequence keeps it sorted and adds exactly that one element |
| Sorting.SortBy | src/arabic.rs:116 | the result is sorted by the key and is a permutation of the input |
| CodePoints.HasSome | src/arabic.rs:131 | the `contains` test on a cluster holds iff some character of the cluster has the property |
| CodePoints.EverySome | src/arabic.rs:136 | the `all` test on a cluster holds iff every character of the cluster has the property |
| CodePoints.LamsAreNotOtherConnectors | src/codepoints.rs:74-75 | among connectors, a character is a lam iff it is not among the connectors other than lams |
| CodePoints.NonConnectorsDoNotConnect | src/codepoints.rs:72-75 | the commented-out non-connector groups (alef, reh, dal, teh marbuta, waw) share no character with the connectors |
| CodePoints.AlefDoesNotConnect | src/codepoints.rs:5-10 | no alef is a connector |
| CodePoints.RehDoesNotConnect | src/codepoints.rs:26-30 | no reh is a connector |
| CodePoints.DalDoesNotConnect | src/codepoints.rs:22-25 | no dal is a connector |
| CodePoints.TehMarboutaDoesNotConnect | src/codepoints.rs:62 | no teh marbuta is a connector |
| CodePoints.WawDoesNotConnect | src/codepoints.rs:63-66 | no waw is a connector |
| CodePoints.TeethConnect | src/codepoints.rs:73-74 | every tooth letter (beh, noon, yeh) is a connector other than a lam |
| CodePoints.KashidaIsNoLetter | src/codepoints.rs:4 | U+0640 belongs to neither the connectors nor the non-connectors |
| Segmentation.Retained | src/arabic.rs:90-93 | the words kept are exactly the segments that are not blank, and there are no more of them than segments |
| Segmentation.RetainedCons | src/arabic.rs:90-93 | the blank filter works word by word: a blank head is dropped and a non-blank head is kept |
| Segmentation.GraphemeStartIsCharBoundary | src/arabic.rs:127 | in a well-formed segmentation, the start of any cluster is an offset inside the input on a character boundary |
| Segmentation.RetainedWellFormed | src/arabic.rs:93 | dropping blank words keeps the segmentation well-formed |
| Candidates.Keep | src/arabic.rs:106-110 | the stored candidate is replaced exactly when the new priority is lower or equal; the kept priority never exceeds either |
| Candidates.BestIsLastMinimum | src/arabic.rs:106-110 | a word keeps nothing iff it emitted nothing, otherwise it keeps the last candidate of minimal priority |
| Candidates.LastMinimumIsBest | src/arabic.rs:106-110 | conversely, the last candidate of minimal priority is the one kept |
| Candidates.BestPerWordAt | src/arabic.rs:95-110 | the map has an entry for word k iff word k emitted a candidate, and that entry is the word's best one |
| Candidates.BestStep | src/arabic.rs:104-111 | one more window either leaves a word's best candidate as it was (no candidate) or keeps the better of it and the new one |
| Candidates.BestPerWordStep | src/arabic.rs:95-111 | processing one more word adds its best candidate, if any, under its index and leaves the others |
| Candidates.OfferWord | src/arabic.rs:104-111 | the window loop of one word leaves the map with that word's best candidate, if any, and every other entry unchanged |
| Candidates.CollectBest | src/arabic.rs:95-113 | the loop over words and windows leaves the map of each word's best candidate |
| Candidates.BestPerWordInKeyOrder | src/arabic.rs:115 | the values of that map, read in word order, are the survivors of the non-empty words |
| Candidates.Values | src/arabic.rs:115 | collecting the map's values yields them in word order |
| Candidates.Breakpoints | src/arabic.rs:117 | the output has one offset per candidate, each the candidate's breakpoint |
| Candidates.RankSurvivors | src/arabic.rs:115-117 | the offsets are the breakpoints of a priority-sorted permutation of the survivors |
| Candidates.RankedOutputOffsets | src/arabic.rs:115-117 | a ranked output has one offset per survivor, and an offset occurs iff some survivor has it as breakpoint |
| Candidates.RankingIsUnique | src/arabic.rs:116 | when priorities are pairwise distinct, the priority-sorted order of a multiset of candidates is unique |
| Candidates.RankedOutputOfDistinctPriorities | src/arabic.rs:115-117 | with distinct priorities the output order is fully determined, despite the unstable sort and the hash-map order |
| Candidates.EmittedByAWindow | src/arabic.rs:104-111 | every emitted candidate comes from some window of the word |
| Candidates.SurvivorOfAWord | src/arabic.rs:95-113 | every survivor is the best candidate of some word, and was emitted by that word |
| Arabic.GlyphRun | src/arabic.rs:122-234 | a window yields at most one candidate, with a priority in {0..7, 9}, whose breakpoint is the start of its second or third cluster |
| Arabic.WordWindowsShape | src/arabic.rs:96-102 | a word of n clusters has max(1, n-2) windows; window j holds clusters j..j+3, with empty slots past the end |
| Arabic.EmittedInWord | src/arabic.rs:122-234 | every candidate of a word is at the start of one of its clusters other than the first |
| Arabic.SurvivorInWord | src/arabic.rs:95-113 | every survivor is an inner cluster start of a non-blank word and has an Arabic priority |
| Arabic.FindKashidas | src/arabic.rs:84-118 | the offsets are the survivors' breakpoints ranked by priority; each is an inner cluster start, inside the input and on a character boundary |
| ArabicRules.SacredNameAgrees | src/arabic.rs:130-133 | the sacred-name test is exactly: Lam in the first cluster, Lam in the second, Heh in the third, and the word ends there |
| ArabicRules.ExistingKashidaAgrees | src/arabic.rs:136 | the existing-kashida test is exactly: a second cluster all of whose chars are U+0640 |
| ArabicRules.TwoLetterAgrees | src/arabic.rs:141-145 | the two-letter test is exactly: two clusters only, the first holding a non-Lam connector, or a Lam with no Alef in the second |
| ArabicRules.SeenSadAgrees | src/arabic.rs:150-152 | the Seen/Sad row applies iff one of its two alternatives holds, and binds the first alternative's pair when both do |
| ArabicRules.ToothFinalYehMeemAgrees | src/arabic.rs:158-161 | the row before a final Yeh or Meem is exactly: connector, tooth, Yeh or Meem, end of word |
| ArabicRules.FinalLetterAgrees | src/arabic.rs:167-168 | the last-letter row is exactly: a non-Lam connector in the second cluster, a third cluster ending the word |
| ArabicRules.LamAlefAgrees | src/arabic.rs:190-193 | the Lam-Alef row is exactly: connector, Lam, Alef |
| ArabicRules.ToothRehAgrees | src/arabic.rs:198-201 | the tooth-Reh row is exactly: connector, tooth, Reh |
| ArabicRules.ConnectionAgrees | src/arabic.rs:207-208 | the connection row applies iff one of its two alternatives holds, and binds the first alternative's pair when both do |
| ArabicRules.FailedRows | src/arabic.rs:128-233 | when the rows before row k fail over the chars, every arm test of the rule before row k fails |
| ArabicRules.SacredNameSilences | src/arabic.rs:130-133 | Lam, Lam, Heh ending the word yields no candidate, whatever the clusters hold besides |
| ArabicRules.ExistingKashidaArm | src/arabic.rs:136-138 | failing row 1, a second cluster made only of U+0640 gets priority 0 at its own start |
| ArabicRules.TwoLetterArm | src/arabic.rs:141-147 | failing rows 1-2, a two-letter word gets priority 9 at its second cluster |
| ArabicRules.SeenSadArm | src/arabic.rs:150-155 | failing rows 1-3, the letter after Seen or Sad gets priority 1: the second cluster by the first alternative, otherwise the third |
| ArabicRules.ToothFinalYehMeemArm | src/arabic.rs:157-164 | failing rows 1-4, a tooth before a final Yeh or Meem gets priority 4 at the tooth |
| ArabicRules.FinalLetterArm | src/arabic.rs:166-186 | failing rows 1-5, the last letter gets 2 with a Heh, else 3 with Tah, Lam or Kaf, else 5 with Ain, Feh or Qaf, else 6 |
| ArabicRules.LamAlefArm | src/arabic.rs:190-196 | failing rows 1-6, Lam before Alef after a connector gets priority 3 at the Lam |
| ArabicRules.ToothRehArm | src/arabic.rs:198-204 | failing rows 1-7, a tooth before Reh after a connector gets priority 4 at the tooth |
| ArabicRules.ConnectionPriorityAgrees | src/arabic.rs:210-229 | the connection priority is 2 before Dal or Teh Marbuta, else 4 before Alef with no Lam before, else 5 before Waw, else 7 with no Lam before, else none |
| ArabicRules.ConnectionFirstArm | src/arabic.rs:206-229 | failing rows 1-8, a connector in the first cluster gives the connection outcome of the first two clusters |
| ArabicRules.ConnectionSecondArm | src/arabic.rs:206-229 | failing rows 1-8 and the first alternative, a connector in the second cluster gives the connection outcome of the second and third clusters |
| ArabicRules.NoRowSilences | src/arabic.rs:232 | a window no row applies to yields no candidate |
| ArabicArms.SeenSadSecond | src/arabic.rs:149-155 | after a seen or sad, a kashida goes before the next alphabetic cluster at priority 1 |
| ArabicArms.ToothBeforeFinalYehMeem | src/arabic.rs:157-164 | a tooth before a final yeh or meem, after a connector, gets priority 4 at the tooth |
| ArabicArms.PlainFinalLetter | src/arabic.rs:166-186 | a final letter that is not heh, tah/lam/kaf or ain/feh/qaf, after a non-lam connector, gets priority 6 |
| ArabicArms.PlainConnectionSecond | src/arabic.rs:206-229 | a connection from a non-lam connector to an ordinary letter gets priority 7 at the second cluster |
| ArabicArms.NoConnectionAfterLamFirst | src/arabic.rs:206-229 | after a lam, an ordinary connection gets no kashida |
| ArabicArms.NoConnectionAfterLamSecond | src/arabic.rs:206-229 | a lam in the second slot blocks the ordinary connection after it |
| ArabicExamples.AllahEmitsNothing | src/arabic.rs:129-133 | no window of the word Allah (alef lam lam heh) yields a candidate |
| ArabicExamples.JalalaSurvivors | src/arabic.rs:243-249 | the text Allah on its own has no survivor |
| ArabicExamples.Jalala | src/arabic.rs:243-249 | finding kashidas in Allah returns nothing |
| ArabicExamples.BismKeeps | src/arabic.rs:149-155 | in bism, the cluster after the seen is kept at priority 1 |
| ArabicExamples.RahmanKeeps | src/arabic.rs:166-186 | in al-rahman, the final noon is kept at priority 6 over the connection at priority 7 |
| ArabicExamples.RahimKeeps | src/arabic.rs:157-164 | in al-rahim, the tooth before the final meem is kept at priority 4 |
| ArabicExamples.BasmalaSurvivors | src/arabic.rs:251-258 | the survivors of the basmala are those of bism, al-rahman and al-rahim, in word order |
| ArabicExamples.BasmalaRanked | src/arabic.rs:251-258 | any ranked output for the basmala is exactly the offsets 4, 37, 26 after the text's start |
| ArabicExamples.Basmala | src/arabic.rs:251-258 | finding kashidas in the basmala returns [4, 37, 26] |
| Layout.TwoByteClusters | src/arabic.rs:243-258 | support for the unit tests' input texts: text of two-byte characters lays out as one cluster per character, two bytes apart |
| Layout.LayCons | src/arabic.rs:243-258 | support for the unit tests' input texts: consecutive words start where the previous word's bytes end |
| Layout.ClustersWellFormed | src/arabic.rs:243-258 | support for the unit tests' input texts: wherever a text's encoding sits in the input, its single-character clusters form a well-formed word of that input |
| Layout.LayWellFormed | src/arabic.rs:243-258 | support for the unit tests' input texts: laying out words one after another gives a well-formed segmentation of the encoded text |
| Layout.LaidOut | src/arabic.rs:243-258 | support for the unit tests' input texts: the layout of a whole text is a well-formed segmentation of its encoding |
| Global.JoiningImplications | src/global.rs:7-18 | join-causing implies joining both ways; joining the following implies joining the preceding; right-joining is exactly "preceding only"; left-joining joins neither way |
| Global.GlyphRun | src/global.rs:51-65 | a window marks its second cluster's start iff both clusters are present, the first has a character joining the following and the second one joining the preceding |
| Global.WordWindowsShape | src/global.rs:33-39 | a word of n clusters has max(1, n-1) windows; window j holds clusters j..j+2 |
| Global.LastMarkedIsMarked | src/global.rs:41-45 | the mark left by a word's windows comes from one of them, and there is none iff no window marks |
| Global.LastJoinNone | src/global.rs:41-45 | a word has no last joint exactly when no cluster pair of it joins |
| Global.LastJoinIsLast | src/global.rs:41-45 | the last joint of a word is a joint, and no later cluster is one |
| Global.WordKeepsLastJoin | src/global.rs:41-45 | overwriting per window leaves exactly the word's last joint |
| Global.LastPerWordAt | src/global.rs:32-46 | the map has an entry for word k iff word k has a joint, and it is that word's last joint |
| Global.LastPerWordInKeyOrder | src/global.rs:48 | the map's values in word order are the per-word last marks |
| Global.MarksAreLastJoins | src/global.rs:32-48 | the per-word last marks are the last joints of the words |
| Global.LastJoinsInWords | src/global.rs:56-61 | every last joint is the start of an inner cluster of some word |
| Global.LastJoinsInInput | src/global.rs:56-61 | every last joint is inside the input on a character boundary |
| Global.LastMarkedStep | src/global.rs:41-45 | one more window overwrites the mark iff it marks |
| Global.LastPerWordStep | src/global.rs:32-46 | processing one more word adds its last mark, if any, under its index |
| Global.CollectWord | src/global.rs:41-45 | the window loop leaves the map updated with the word's last mark |
| Global.CollectLast | src/global.rs:32-46 | the word loop leaves each word's last mark under its index |
| Global.FindKashidas | src/global.rs:21-49 | the offsets are, up to order, the last joints of the non-blank words; each is an inner cluster start inside the input on a character boundary |
| Syriac.GlyphRun | src/syriac.rs:57-79 | a window yields at most one candidate, with priority 0 (after an existing kashida cluster) or 1 (at the start of a joined second cluster) |
| Syriac.KashidaArmFirst | src/syriac.rs:64-67 | a second cluster made only of join-causing characters yields priority 0 at its end, before any other arm |
| Syriac.LigatureSilences | src/syriac.rs:69-71 | a lamadh followed by an alaph, in the first two or the last two slots, yields nothing |
| Syriac.JoinedPairArm | src/syriac.rs:73-78 | otherwise the second cluster gets priority 1 iff the first joins the following and the second joins the preceding |
| Syriac.WordWindowsShape | src/syriac.rs:34-39 | a word of n clusters has max(1, n-2) windows; window j holds clusters j..j+2 |
| Syriac.EmittedInWord | src/syriac.rs:41-48 | every candidate belongs to an examined cluster of the word, at its start (priority 1) or at its end (priority 0) |
| Syriac.LastClusterNotExamined | src/syriac.rs:34-39 | in a word of three or more clusters, no candidate belongs to the last cluster |
| Syriac.SurvivorInWord | src/syriac.rs:33-50 | every survivor belongs to a cluster of some non-blank word |
| Syriac.SurvivorInInput | src/syriac.rs:57-79 | a priority-1 survivor is an inner cluster start on a character boundary; a priority-0 survivor is an inner cluster end; both lie within the input |
| Syriac.RankedOffsetsInInput | src/syriac.rs:52-54 | every ranked offset lies within the input and is an inner cluster start or end |
| Syriac.FindKashidas | src/syriac.rs:21-55 | the offsets are the survivors' breakpoints ranked by priority; each lies within the input at an inner cluster start or end |
| Kashida.FindKashidas | src/lib.rs:46-50 | for the Arabic script, the result is the Arabic finder's ranked output; every offset is inside the input on a character boundary |
| Kashida.TatweelIsEncoded | src/lib.rs:70 | the inserted bytes are the UTF-8 encoding of U+0640, and they start a character |
| Kashida.Tatweels | src/lib.rs:69-71 | n tatweels take 2n bytes |
| Kashida.Cycled | src/lib.rs:67 | cycling the locations yields exactly count of them |
| Kashida.CycledFromPrefix | src/lib.rs:67 | every selected location is one of the first count locations |
| Kashida.CycledAt | src/lib.rs:67 | position q·n+r of the cycle holds location r |
| Kashida.CycledCounts | src/lib.rs:67 | after q full turns and r more, each location is chosen q times its multiplicity plus its multiplicity among the first r |
| Kashida.PlaceKashidas | src/lib.rs:58-74 | no count or no locations returns the text unchanged; otherwise the result is the text with one tatweel per cycled location, 2·count bytes longer |
| Kashida.InsertAll | src/lib.rs:68-71 | inserting at descending offsets yields the text with the tatweels spread over the chosen offsets |
| Kashida.InsertNext | src/lib.rs:69-71 | each insertion is at a character boundary of the current buffer and adds that offset's tatweel |
| Kashida.PlacedAtOrAfter | src/lib.rs:68 | after a descending sort, each offset is at or before all offsets already placed |
| Kashida.SpreadPrefix | src/lib.rs:70 | bytes before every insertion offset are untouched |
| Kashida.SpreadAgree | src/lib.rs:69-71 | the result depends only on how many tatweels each offset receives |
| Kashida.SpreadNothing | src/lib.rs:63-64 | inserting nothing leaves the text as it is |
| Kashida.SpreadSkip | src/lib.rs:70 | a byte at an offset that receives no tatweel is copied as it is, followed by the rest of the text |
| Kashida.SpreadAddFirst | src/lib.rs:70 | one more tatweel at the first offset prepends its bytes |
| Kashida.InsertSpread | src/lib.rs:70 | inserting at an offset no larger than any already used puts the tatweel at that same byte position of the buffer |
| Kashida.InsertBoundary | src/lib.rs:70 | that offset is still a character boundary of the buffer, so the insertion is valid |
| Kashida.SpreadLayout | src/lib.rs:69-71 | every original byte keeps its order, and is preceded by its own tatweels, shifted by the bytes inserted before it |

## Left out

- Word and grapheme-cluster segmentation (ICU) is an input: the model takes the clusters of every word as `seq<Word>`. The input is required to be consistent with the bytes (`WellFormed`). It is not required to be exactly what ICU produces.
- `char::is_alphabetic`, `char::is_whitespace` (`str::trim`), `get_joining_type` and `get_joining_group` are parameters of the model, not Unicode tables.
- The letter-group tables are membership predicates (disjunctions over code points and ranges), not slices. The alias `CONNECTORS_EXCEPT_LAMS`, which lists the noons twice, is a predicate, so duplicates do not arise.
- Hash-map iteration order is not modelled. The map's values are read in word order. Every finder's result is stated up to that choice: a ranked output is any priority-sorted permutation of the survivors. For the global finder, which does not sort, the output is stated as a multiset.
- The sort is unstable, so the order among equal priorities is unspecified. `IsRankedOutput` accepts every such order. `RankedOutputOfDistinctPriorities` pins the order down when priorities differ.
- `Cow` borrowed/owned is not distinguished: `PlaceKashidas` returns the byte sequence.
- Kashida.PlaceKashidas: `String::insert` panics at an offset that is not a character boundary. The model instead requires every location used to be a boundary, which is the documented contract of passing `find_kashidas` output.
- Syriac.FindKashidas: priority-0 offsets (the end of an existing kashida cluster) are stated to be inner cluster ends within the input, but not proved to be character boundaries. Well-formedness does not constrain the bytes after a cluster's characters.
- Integer width (`usize`) is not modelled; offsets and priorities are unbounded naturals. The input length bounds every offset, so no overflow arises.
- `KashidaCandidate::new` is the `Candidate` datatype's constructor.
- src/ffi.rs (C bindings) and examples/simple.rs are not part of this model.
- Facts about the code that the model keeps as written:
  - `Script` has only the `Arabic` variant.
  - The sacred-name arm (arabic.rs:130-133) tests lam, lam, heh without an alef.
  - The Syriac finder emits only priorities 0 and 1. In a word of three or more clusters, its windows never put the word's last cluster in the middle slot; a word of two clusters has the single window (first, last, none), where the last cluster can get a candidate.
  - The Syriac, global and code-point modules are not reachable from `find_kashidas` in lib.rs.
