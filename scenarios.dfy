/** Worked examples of the classifier on small decompositions, with the
    texts of the morphemes left free. */
module Scenarios {
  import opened Morphemes
  import opened StructuralDiff
  import opened FormationRules
  import opened Analyzer

  const Ending := "окончание"
  const VerbEnding := "глагольноеокончание"

  lemma KindFacts()
    ensures Prefix != Root && Prefix != Suffix && Root != Suffix
    ensures Prefix !in Endings && Root !in Endings && Suffix !in Endings
    ensures Ending in Endings && VerbEnding in Endings
    ensures Ending != Prefix && Ending != Root && Ending != Suffix
    ensures VerbEnding != Prefix && VerbEnding != Root && VerbEnding != Suffix
  {
    assert VerbEnding == Endings[0] && Ending == Endings[1];
  }

  /** The texts of one type in a two-segment decomposition. */
  lemma TextsOfTwo(a: Segment, b: Segment, k: string)
    ensures TextsOf([a, b], k) == (if a.kind == k then [a.text] else []) + (if b.kind == k then [b.text] else [])
  {
    assert TextsOf([a], k) == (if a.kind == k then [a.text] else []) by {
      TextsOfSnoc([], a, k);
      assert [] + [a] == [a];
    }
    TextsOfSnoc([a], b, k);
    assert [a] + [b] == [a, b];
  }

  /** The texts of one type in a three-segment decomposition. */
  lemma TextsOfThree(a: Segment, b: Segment, c: Segment, k: string)
    ensures TextsOf([a, b, c], k) ==
            (if a.kind == k then [a.text] else []) + (if b.kind == k then [b.text] else []) + (if c.kind == k then [c.text] else [])
  {
    TextsOfTwo(a, b, k);
    TextsOfSnoc([a, b], c, k);
    assert [a, b] + [c] == [a, b, c];
  }

  /** root + ending. */
  function RootWord(root: string, end: string): seq<Segment> {
    [Segment(root, Root), Segment(end, Ending)]
  }

  /** prefix + root + ending. */
  function PrefixedWord(pre: string, root: string, end: string): seq<Segment> {
    [Segment(pre, Prefix), Segment(root, Root), Segment(end, Ending)]
  }

  /** root + suffix + verb ending. */
  function SuffixedVerb(root: string, suf: string, end: string): seq<Segment> {
    [Segment(root, Root), Segment(suf, Suffix), Segment(end, VerbEnding)]
  }

  /** What the classifier reads of a map: its prefixes, suffixes and roots. */
  predicate Reads(m: OrderedMap, prefixes: seq<string>, suffixes: seq<string>, roots: seq<string>) {
    && (Prefix in m.values <==> prefixes != []) && (Prefix in m.values ==> m.values[Prefix] == prefixes)
    && (Suffix in m.values <==> suffixes != []) && (Suffix in m.values ==> m.values[Suffix] == suffixes)
    && (Root in m.values <==> roots != []) && (Root in m.values ==> m.values[Root] == roots)
  }

  /** The same, of a word's prepared map. */
  predicate Shows(s: seq<Segment>, prefixes: seq<string>, suffixes: seq<string>, roots: seq<string>) {
    Reads(Prepared(s), prefixes, suffixes, roots)
  }

  /** What preparation keeps of a decomposition, given its texts of each type. */
  lemma ShowsTexts(s: seq<Segment>)
    ensures Shows(s, TextsOf(s, Prefix), TextsOf(s, Suffix), TextsOf(s, Root))
  {
    KindFacts();
    PreparedValue(s, Prefix);
    PreparedValue(s, Suffix);
    PreparedValue(s, Root);
  }

  lemma RootWordShows(root: string, end: string)
    ensures Shows(RootWord(root, end), [], [], [root])
  {
    var s := RootWord(root, end);
    assert TextsOf(s, Prefix) == [] && TextsOf(s, Suffix) == [] && TextsOf(s, Root) == [root] by {
      KindFacts();
      TextsOfTwo(s[0], s[1], Prefix);
      TextsOfTwo(s[0], s[1], Suffix);
      TextsOfTwo(s[0], s[1], Root);
    }
    ShowsTexts(s);
  }

  lemma PrefixedWordShows(pre: string, root: string, end: string)
    ensures Shows(PrefixedWord(pre, root, end), [pre], [], [root])
  {
    var s := PrefixedWord(pre, root, end);
    assert TextsOf(s, Prefix) == [pre] && TextsOf(s, Suffix) == [] && TextsOf(s, Root) == [root] by {
      KindFacts();
      TextsOfThree(s[0], s[1], s[2], Prefix);
      TextsOfThree(s[0], s[1], s[2], Suffix);
      TextsOfThree(s[0], s[1], s[2], Root);
    }
    ShowsTexts(s);
  }

  lemma SuffixedVerbShows(root: string, suf: string, end: string)
    ensures Shows(SuffixedVerb(root, suf, end), [], [suf], [root])
  {
    var s := SuffixedVerb(root, suf, end);
    assert TextsOf(s, Prefix) == [] && TextsOf(s, Suffix) == [suf] && TextsOf(s, Root) == [root] by {
      KindFacts();
      TextsOfThree(s[0], s[1], s[2], Prefix);
      TextsOfThree(s[0], s[1], s[2], Suffix);
      TextsOfThree(s[0], s[1], s[2], Root);
    }
    ShowsTexts(s);
  }

  /** A prefix only in the first map is not an added prefix; the other way
      round it is. */
  lemma PrefixOnlyInFirst(m1: OrderedMap, m2: OrderedMap, pre: string, root: string, pair: PosPair, first: seq<Segment>, second: seq<Segment>)
    requires Reads(m1, [pre], [], [root]) && Reads(m2, [], [], [root])
    ensures Classify(m1, m2, pair, first, second) == Unknown
    ensures Classify(m2, m1, pair, second, first) == ApplyRules(pair, true, false, second, first)
  {
    KindFacts();
    assert !Changed(m1, m2, Root) && !Changed(m2, m1, Root);
    assert !Added(m1, m2, Prefix) && !Added(m1, m2, Suffix) && !Added(m2, m1, Suffix);
    assert Added(m2, m1, Prefix);
    NothingToClassify(pair, false, false, first, second);
  }

  /** The comparison runs from the first word to the second: a prefix present
      only in the first word is a removal, so no rule fires; in the other
      direction the same two words are prefixal. */
  lemma PrefixCountsOnlyWhenAdded(pre: string, root: string, end1: string, end2: string)
    ensures Analysis(Found(PrefixedWord(pre, root, end1)), Found(RootWord(root, end2)), ADJF, ADJF) == Unknown
    ensures Analysis(Found(RootWord(root, end2)), Found(PrefixedWord(pre, root, end1)), ADJF, ADJF)
            == Formed(Prefixal, RootWord(root, end2), PrefixedWord(pre, root, end1))
  {
    var w1, w2 := PrefixedWord(pre, root, end1), RootWord(root, end2);
    PrefixedWordShows(pre, root, end1);
    RootWordShows(root, end2);
    PrefixOnlyInFirst(Prepared(w1), Prepared(w2), pre, root, (ADJF, ADJF), w1, w2);
  }

  /** A suffix only in the first map is removed, not added; the other way
      round it is added. */
  lemma SuffixOnlyInFirst(m1: OrderedMap, m2: OrderedMap, suf: string, root: string, pair: PosPair, first: seq<Segment>, second: seq<Segment>)
    requires Reads(m1, [], [suf], [root]) && Reads(m2, [], [], [root])
    ensures Removed(m1, m2, Suffix)
    ensures Classify(m1, m2, pair, first, second) == Unknown
    ensures Classify(m2, m1, pair, second, first) == ApplyRules(pair, false, true, second, first)
  {
    KindFacts();
    assert !Changed(m1, m2, Root) && !Changed(m2, m1, Root);
    assert !Added(m1, m2, Prefix) && !Added(m1, m2, Suffix) && !Added(m2, m1, Prefix);
    assert Added(m2, m1, Suffix);
    NothingToClassify(pair, false, false, first, second);
  }

  /** The suffixless rule reads the suffix-added flag, not the suffix-removed
      one: dropping the suffix of an infinitive to get a noun (a removal, and a
      pair of the suffixless table) is left unclassified, while the opposite
      direction is suffixal. */
  lemma SuffixRemovalIsNotSuffixless(root: string, suf: string, end1: string, end2: string)
    ensures (INFN, NOUN) in SuffixlessPairs
    ensures Removed(Prepared(SuffixedVerb(root, suf, end1)), Prepared(RootWord(root, end2)), Suffix)
    ensures Analysis(Found(SuffixedVerb(root, suf, end1)), Found(RootWord(root, end2)), INFN, NOUN) == Unknown
    ensures Analysis(Found(RootWord(root, end2)), Found(SuffixedVerb(root, suf, end1)), NOUN, INFN)
            == Formed(Suffixal, RootWord(root, end2), SuffixedVerb(root, suf, end1))
  {
    var w1, w2 := SuffixedVerb(root, suf, end1), RootWord(root, end2);
    SuffixedVerbShows(root, suf, end1);
    RootWordShows(root, end2);
    SuffixOnlyInFirst(Prepared(w1), Prepared(w2), suf, root, (INFN, NOUN), w1, w2);
    SuffixOnlyInFirst(Prepared(w1), Prepared(w2), suf, root, (NOUN, INFN), w1, w2);
  }

  /** Two maps holding one root each and nothing else the classifier reads:
      equally long different roots go through the gate, and pass it only with
      an accepted alternation, after which the suffix condition holds. */
  lemma SameLengthRootsDiffer(m1: OrderedMap, m2: OrderedMap, r1: string, r2: string, pair: PosPair, first: seq<Segment>, second: seq<Segment>)
    requires Reads(m1, [], [], [r1]) && Reads(m2, [], [], [r2]) && r1 != r2 && |r1| == |r2| > 0
    ensures Classify(m1, m2, pair, first, second) ==
              if AcceptedAlternation({r1[|r1| - 1], r2[|r2| - 1]}) then ApplyRules(pair, false, true, first, second)
              else DifferentRoot(first, second)
  {
    KindFacts();
    assert m1.values[Root][0] == r1 && m2.values[Root][0] == r2;
    assert TextReplaced(m1.values[Root], m2.values[Root]);
    assert !Added(m1, m2, Prefix);
    assert SameLengthRoots(m1, m2);
    assert LastLetters(m1, m2) == {r1[|r1| - 1], r2[|r2| - 1]};
  }

  /** With roots of different lengths the gate does not apply, and with
      nothing added no rule fires. */
  lemma UnequalRootsDiffer(m1: OrderedMap, m2: OrderedMap, r1: string, r2: string, pair: PosPair, first: seq<Segment>, second: seq<Segment>)
    requires Reads(m1, [], [], [r1]) && Reads(m2, [], [], [r2]) && |r1| != |r2|
    ensures Classify(m1, m2, pair, first, second) == Unknown
  {
    KindFacts();
    assert m1.values[Root][0] == r1 && m2.values[Root][0] == r2;
    assert !SameLengthRoots(m1, m2);
    assert !Added(m1, m2, Prefix) && !Added(m1, m2, Suffix);
    NothingToClassify(pair, false, false, first, second);
  }

  /** Two root-and-ending words whose roots are equally long and differ. */
  lemma SameLengthRootChange(r1: string, r2: string, e1: string, e2: string, pos1: Pos, pos2: Pos)
    requires r1 != r2 && |r1| == |r2| > 0
    ensures Analysis(Found(RootWord(r1, e1)), Found(RootWord(r2, e2)), pos1, pos2) ==
              if AcceptedAlternation({r1[|r1| - 1], r2[|r2| - 1]}) then ApplyRules((pos1, pos2), false, true, RootWord(r1, e1), RootWord(r2, e2))
              else DifferentRoot(RootWord(r1, e1), RootWord(r2, e2))
  {
    var w1, w2 := RootWord(r1, e1), RootWord(r2, e2);
    RootWordShows(r1, e1);
    RootWordShows(r2, e2);
    SameLengthRootsDiffer(Prepared(w1), Prepared(w2), r1, r2, (pos1, pos2), w1, w2);
  }

  /** A root alternation г/ж passes the gate and, with `s` rebound to the
      letter set, a noun pair is suffixal although no suffix was added. */
  lemma AlternationIsSuffixal(e1: string, e2: string)
    ensures Analysis(Found(RootWord("друг", e1)), Found(RootWord("друж", e2)), NOUN, NOUN)
            == Formed(Suffixal, RootWord("друг", e1), RootWord("друж", e2))
  {
    assert "друг"[3] == 'г' && "друж"[3] == 'ж';
    SameLengthRootChange("друг", "друж", e1, e2, NOUN, NOUN);
  }

  /** The alternation д/ж is not accepted: "different root". */
  lemma OtherAlternationIsDifferentRoot(e1: string, e2: string)
    ensures Analysis(Found(RootWord("вод", e1)), Found(RootWord("вож", e2)), NOUN, NOUN)
            == DifferentRoot(RootWord("вод", e1), RootWord("вож", e2))
  {
    assert "вод"[2] == 'д' && "вож"[2] == 'ж';
    assert !AcceptedAlternation({'д', 'ж'}) by {
      assert 'д' in {'д', 'ж'};
    }
    SameLengthRootChange("вод", "вож", e1, e2, NOUN, NOUN);
  }

  /** A root replaced by one of another length does not reach the gate's
      letter test: with nothing else changed, no rule fires. */
  lemma UnequalRootChangeUnknown(r1: string, r2: string, e1: string, e2: string, pos1: Pos, pos2: Pos)
    requires |r1| != |r2|
    ensures Analysis(Found(RootWord(r1, e1)), Found(RootWord(r2, e2)), pos1, pos2) == Unknown
  {
    var w1, w2 := RootWord(r1, e1), RootWord(r2, e2);
    RootWordShows(r1, e1);
    RootWordShows(r2, e2);
    UnequalRootsDiffer(Prepared(w1), Prepared(w2), r1, r2, (pos1, pos2), w1, w2);
  }

  /** A word compared with itself is never classified. */
  lemma SameWordUnknown(s: seq<Segment>, pos1: Pos, pos2: Pos)
    ensures Analysis(Found(s), Found(s), pos1, pos2) == Unknown
  {
    EndingsIgnored(s, s, pos1, pos2);
  }

  /** Equally long roots that differ but end in the same letter pass the gate
      only when that letter is the Latin a; the Cyrillic а (U+0430) stops them
      with "different root". */
  lemma SameLastLetter(r1: string, r2: string, e1: string, e2: string, pos1: Pos, pos2: Pos)
    requires r1 != r2 && |r1| == |r2| > 0 && r1[|r1| - 1] == r2[|r2| - 1]
    ensures Analysis(Found(RootWord(r1, e1)), Found(RootWord(r2, e2)), pos1, pos2).DifferentRoot? <==> r1[|r1| - 1] != 'a'
    ensures r1[|r1| - 1] == '\U{0430}' ==> Analysis(Found(RootWord(r1, e1)), Found(RootWord(r2, e2)), pos1, pos2).DifferentRoot?
  {
    var c := r1[|r1| - 1];
    assert {c, r2[|r2| - 1]} == {c};
    assert {c} != {'г', 'ж'} by {
      assert 'г' in {'г', 'ж'} && 'ж' in {'г', 'ж'};
    }
    SameLengthRootChange(r1, r2, e1, e2, pos1, pos2);
    NothingToClassify((pos1, pos2), false, true, RootWord(r1, e1), RootWord(r2, e2));
  }

  /** Two roots and nothing else. */
  function TwoRootWord(r1: string, r2: string): seq<Segment> {
    [Segment(r1, Root), Segment(r2, Root)]
  }

  lemma TwoRootWordShows(r1: string, r2: string)
    ensures Shows(TwoRootWord(r1, r2), [], [], [r1, r2])
  {
    var s := TwoRootWord(r1, r2);
    assert TextsOf(s, Prefix) == [] && TextsOf(s, Suffix) == [] && TextsOf(s, Root) == [r1, r2] by {
      KindFacts();
      TextsOfTwo(s[0], s[1], Prefix);
      TextsOfTwo(s[0], s[1], Suffix);
      TextsOfTwo(s[0], s[1], Root);
    }
    ShowsTexts(s);
  }

  /** Maps whose root lists start with the empty root and differ later: the
      gate compares the empty first roots. */
  lemma EmptyFirstRoots(m1: OrderedMap, m2: OrderedMap, a: string, b: string, pair: PosPair, first: seq<Segment>, second: seq<Segment>)
    requires Reads(m1, [], [], ["", a]) && Reads(m2, [], [], ["", b]) && a != b
    ensures Classify(m1, m2, pair, first, second) == RootIndexError
  {
    KindFacts();
    assert m1.values[Root][1] != m2.values[Root][1];
    assert Changed(m1, m2, Root);
    assert EmptyRootsCompared(m1, m2);
  }

  /** Empty first roots compared after a change of a later root: the gate's
      `[-1]` raises. */
  lemma EmptyFirstRootsRaise(a: string, b: string, pos1: Pos, pos2: Pos)
    requires a != b
    ensures Analysis(Found(TwoRootWord("", a)), Found(TwoRootWord("", b)), pos1, pos2) == RootIndexError
  {
    var w1, w2 := TwoRootWord("", a), TwoRootWord("", b);
    TwoRootWordShows("", a);
    TwoRootWordShows("", b);
    EmptyFirstRoots(Prepared(w1), Prepared(w2), a, b, (pos1, pos2), w1, w2);
  }

  /** An empty root replaced by a non-empty one skips the gate, and with
      nothing else changed no rule fires. */
  lemma EmptyRootAgainstRootUnknown(e1: string, e2: string, pos1: Pos, pos2: Pos)
    ensures Analysis(Found(RootWord("", e1)), Found(RootWord("вод", e2)), pos1, pos2) == Unknown
  {
    UnequalRootChangeUnknown("", "вод", e1, e2, pos1, pos2);
  }
}
