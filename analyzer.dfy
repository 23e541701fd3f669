/** `Analyzer.analyze`: classify how the second word is formed from the first,
    given both words' morpheme decompositions (or the lookup failure) and their
    part-of-speech tags. */
module Analyzer {
  import opened Morphemes
  import opened StructuralDiff
  import opened FormationRules

  /** Why the morpheme dictionary gave no decomposition: the page was for
      another word, or it held no morpheme table. */
  datatype LookupFailure = SiteParsingError | NotFoundOnSite

  /** The morpheme lookup's answer for one word. */
  datatype Lookup = Found(segments: seq<Segment>) | Failed(reason: LookupFailure)

  /** No root text of the word is empty. */
  predicate RootTextsNonEmpty(w: Lookup) {
    w.Found? ==> forall i :: 0 <= i < |w.segments| && w.segments[i].kind == Root ==> w.segments[i].text != ""
  }

  /** A word's map as the classifier compares it: grouped, endings stripped. */
  function Prepared(m: seq<Segment>): (d: OrderedMap)
    ensures d.Valid()
  {
    Stripped(Grouped(m))
  }

  /** A prepared map's first root, when there is one, is not empty. */
  lemma PreparedRootTexts(w: Lookup)
    requires w.Found? && RootTextsNonEmpty(w)
    ensures var d := Prepared(w.segments);
            Root in d.values && |d.values[Root]| > 0 ==> |d.values[Root][0]| > 0
  {
    var m := w.segments;
    var d := Prepared(m);
    if Root in d.values && |d.values[Root]| > 0 {
      assert Root !in Endings;
      GroupedContents(m, Root);
      TextsOfMembers(m, Root);
      assert d.values[Root] == TextsOf(m, Root);
      assert d.values[Root][0] in TextsOf(m, Root);
    }
  }

  /** The alternation sets the root gate of `Analyzer.analyze` accepts, as
      written there: the pair г/ж, and a one-letter set of the Latin letter a. */
  predicate AcceptedAlternation(letters: set<char>) {
    letters == {'г', 'ж'} || letters == {'a', 'a'}
  }

  /** The two last letters the gate accepts, in either order: г and ж, or a
      Latin a twice; every other pair, the Cyrillic а twice included, is refused. */
  lemma AcceptedLastLetters(c1: char, c2: char)
    ensures AcceptedAlternation({c1, c2}) <==>
            (c1 == 'г' && c2 == 'ж') || (c1 == 'ж' && c2 == 'г') || (c1 == 'a' && c2 == 'a')
    ensures !AcceptedAlternation({'а'})
  {
  }

  /** Both maps have a root and their first roots are equally long. */
  predicate SameLengthRoots(m1: OrderedMap, m2: OrderedMap) {
    && Root in m1.values && Root in m2.values
    && |m1.values[Root]| > 0 && |m2.values[Root]| > 0
    && |m1.values[Root][0]| == |m2.values[Root][0]|
  }

  /** The set of the last letters of the two first roots. */
  function LastLetters(m1: OrderedMap, m2: OrderedMap): (letters: set<char>)
    requires SameLengthRoots(m1, m2) && |m1.values[Root][0]| > 0
    ensures letters != {}
  {
    var r1, r2 := m1.values[Root][0], m2.values[Root][0];
    {r1[|r1| - 1], r2[|r2| - 1]}
  }

  /** The first roots are equally long and end in an accepted alternation. */
  predicate AlternatingRoots(m1: OrderedMap, m2: OrderedMap) {
    SameLengthRoots(m1, m2) && |m1.values[Root][0]| > 0 && AcceptedAlternation(LastLetters(m1, m2))
  }

  /** The root gate takes the last letter of two empty first roots: a root
      text was replaced and the first roots are equally long, and empty. */
  predicate EmptyRootsCompared(m1: OrderedMap, m2: OrderedMap) {
    Changed(m1, m2, Root) && SameLengthRoots(m1, m2) && |m1.values[Root][0]| == 0
  }

  /** The root gate stops classification: a root text was replaced, and the
      first roots are equally long, not empty, and do not end in an accepted
      alternation. */
  predicate RootGateRejects(m1: OrderedMap, m2: OrderedMap) {
    Changed(m1, m2, Root) && SameLengthRoots(m1, m2) && |m1.values[Root][0]| > 0 && !AlternatingRoots(m1, m2)
  }

  /** The truth value of `s` when the rules of `Analyzer.analyze` read it: "suffix
      added", except after a root change between equally long first roots, where
      `s` has been rebound to the set of their last letters, which is never empty. */
  predicate SuffixCondition(m1: OrderedMap, m2: OrderedMap): (c: bool)
    ensures Added(m1, m2, Suffix) ==> c
    ensures !Changed(m1, m2, Root) ==> (c <==> Added(m1, m2, Suffix))
    ensures Changed(m1, m2, Root) && SameLengthRoots(m1, m2) && |m1.values[Root][0]| > 0 ==> c && LastLetters(m1, m2) != {}
  {
    if Changed(m1, m2, Root) && SameLengthRoots(m1, m2) then true else Added(m1, m2, Suffix)
  }

  /** The classification of two found words from their prepared maps, stated
      on the meaning of the diff: the root gate (which fails on empty first
      roots), then the rule chain on "prefix added" and the suffix condition. */
  function Classify(m1: OrderedMap, m2: OrderedMap, pair: PosPair, first: seq<Segment>, second: seq<Segment>): (r: Outcome)
    ensures r != UnknownParseError
    ensures r.DifferentRoot? || r.Formed? ==> r.first == first && r.second == second
    ensures r.RootIndexError? <==> EmptyRootsCompared(m1, m2)
    ensures r.DifferentRoot? <==> RootGateRejects(m1, m2)
  {
    if EmptyRootsCompared(m1, m2) then RootIndexError
    else if RootGateRejects(m1, m2) then DifferentRoot(first, second)
    else ApplyRules(pair, Added(m1, m2, Prefix), SuffixCondition(m1, m2), first, second)
  }

  /** The whole classification: a failed lookup of either word is a parse
      error, and nothing else is. */
  function Analysis(w1: Lookup, w2: Lookup, pos1: Pos, pos2: Pos): (r: Outcome)
    ensures r == UnknownParseError <==> w1.Failed? || w2.Failed?
    ensures r.DifferentRoot? || r.Formed? ==> w1.Found? && w2.Found? && r.first == w1.segments && r.second == w2.segments
    ensures r.RootIndexError? ==> w1.Found? && w2.Found?
  {
    if w1.Failed? || w2.Failed? then UnknownParseError
    else Classify(Prepared(w1.segments), Prepared(w2.segments), (pos1, pos2), w1.segments, w2.segments)
  }

  /** `analyze`: the error short-circuit, grouping, ending stripping, the diff and
      its four queries, the root gate and the rule chain, step by step. */
  method Analyze(w1: Lookup, w2: Lookup, pos1: Pos, pos2: Pos) returns (r: Outcome)
    ensures r == Analysis(w1, w2, pos1, pos2)
  {
    if w1.Failed? {
      return UnknownParseError;
    }
    if w2.Failed? {
      return UnknownParseError;
    }
    var g1 := Group(w1.segments);
    var g2 := Group(w2.segments);
    var m1, m2 := StripEndings(g1, g2);
    var pair := (pos1, pos2);
    var dif := Diff(m1, m2);
    var p := Find(dif, Add, Prefix);
    var s := Find(dif, Add, Suffix);
    var dk := Find(dif, Change, Root);
    var bs := Find(dif, Remove, Suffix);  // computed, never consulted
    assert p.Truthy() == Added(m1, m2, Prefix) by { DiffReports(m1, m2, Prefix); }
    assert s.Truthy() == Added(m1, m2, Suffix) by { DiffReports(m1, m2, Suffix); }
    assert dk.Truthy() == Changed(m1, m2, Root) by { DiffReports(m1, m2, Root); }
    ghost var spec := Classify(m1, m2, pair, w1.segments, w2.segments);
    assert spec == Analysis(w1, w2, pos1, pos2);
    // `s` is a truth value from here on, as the rules read it.
    var suffixCondition := s.Truthy();
    if dk.Truthy() {
      var root1, root2 := m1.values[Root][0], m2.values[Root][0];
      if |root1| == |root2| {
        assert SameLengthRoots(m1, m2);
        if |root1| == 0 {
          // `root1[-1]` raises
          assert EmptyRootsCompared(m1, m2);
          return RootIndexError;
        }
        var letters := LastLetters(m1, m2);
        // `s` is rebound to the letter set, which is never empty
        suffixCondition := letters != {};
        if !AcceptedAlternation(letters) {
          assert RootGateRejects(m1, m2);
          return DifferentRoot(w1.segments, w2.segments);
        }
        assert AlternatingRoots(m1, m2);
        assert suffixCondition && SuffixCondition(m1, m2);
      } else {
        assert !SameLengthRoots(m1, m2);
      }
    }
    assert !EmptyRootsCompared(m1, m2) && !RootGateRejects(m1, m2);
    assert suffixCondition == SuffixCondition(m1, m2);
    r := ApplyRules(pair, p.Truthy(), suffixCondition, w1.segments, w2.segments);
  }

  /** Words whose root texts are all non-empty never reach the `IndexError`. */
  lemma NoIndexErrorWithRootTexts(w1: Lookup, w2: Lookup, pos1: Pos, pos2: Pos)
    requires RootTextsNonEmpty(w1) && RootTextsNonEmpty(w2)
    ensures !Analysis(w1, w2, pos1, pos2).RootIndexError?
  {
    if w1.Found? && w2.Found? {
      PreparedRootTexts(w1);
    }
  }

  /** The decomposition without the segments whose type is among `kinds`. */
  function Without(m: seq<Segment>, kinds: seq<string>): seq<Segment> {
    if m == [] then []
    else Without(m[..|m| - 1], kinds) + (if m[|m| - 1].kind in kinds then [] else [m[|m| - 1]])
  }

  /** The decomposition without its ending-like segments. */
  function WithoutEndings(m: seq<Segment>): seq<Segment> {
    Without(m, Endings)
  }

  /** Dropping segments of other types leaves a type's texts as they were. */
  lemma {:induction false} TextsOfWithout(m: seq<Segment>, kinds: seq<string>, k: string)
    requires k !in kinds
    ensures TextsOf(Without(m, kinds), k) == TextsOf(m, k)
  {
    if m != [] {
      var init, s := m[..|m| - 1], m[|m| - 1];
      assert m == init + [s];
      TextsOfWithout(init, kinds, k);
      TextsOfSnoc(init, s, k);
      var w := Without(init, kinds);
      if s.kind !in kinds {
        assert Without(m, kinds) == w + [s];
        TextsOfSnoc(w, s, k);
      } else {
        assert Without(m, kinds) == w;
        assert s.kind != k;
      }
    }
  }

  /** Preparing two decompositions that differ only in ending-like segments
      gives the same contents. */
  lemma PreparedIgnoresEndings(s1: seq<Segment>, s2: seq<Segment>)
    requires WithoutEndings(s1) == WithoutEndings(s2)
    ensures Prepared(s1).values == Prepared(s2).values
  {
    var a, b := Prepared(s1).values, Prepared(s2).values;
    forall k
      ensures (k in a <==> k in b) && (k in a ==> a[k] == b[k])
    {
      if k !in Endings {
        PreparedValue(s1, k);
        PreparedValue(s2, k);
        TextsOfWithout(s1, Endings, k);
        TextsOfWithout(s2, Endings, k);
      }
    }
    SameEntries(a, b);
  }

  /** Maps with the same keys and the same value at each key are equal. */
  lemma SameEntries(a: map<string, seq<string>>, b: map<string, seq<string>>)
    requires forall k :: (k in a <==> k in b) && (k in a ==> a[k] == b[k])
    ensures a == b
  {
    assert a.Keys == b.Keys;
  }

  /** A non-ending type's prepared list is that type's texts, present exactly
      when there are any. */
  lemma PreparedValue(s: seq<Segment>, k: string)
    requires k !in Endings
    ensures k in Prepared(s).values <==> TextsOf(s, k) != []
    ensures k in Prepared(s).values ==> Prepared(s).values[k] == TextsOf(s, k)
  {
    GroupedContents(s, k);
  }

  /** Endings carry no word-formation signal: two decompositions that differ
      only in ending-like segments give an empty diff, none of the four queries
      fires, and the words are left unclassified. */
  lemma EndingsIgnored(s1: seq<Segment>, s2: seq<Segment>, pos1: Pos, pos2: Pos)
    requires WithoutEndings(s1) == WithoutEndings(s2)
    ensures Diff(Prepared(s1), Prepared(s2)) == []
    ensures var m1, m2 := Prepared(s1), Prepared(s2);
            !Added(m1, m2, Prefix) && !Added(m1, m2, Suffix) && !Changed(m1, m2, Root) && !Removed(m1, m2, Suffix)
    ensures Analysis(Found(s1), Found(s2), pos1, pos2) == Unknown
  {
    PreparedIgnoresEndings(s1, s2);
    EqualContentsUnclassified(Prepared(s1), Prepared(s2), (pos1, pos2), s1, s2);
  }

  /** Two maps with the same contents: an empty diff, no query fires, and the
      classification is unknown. */
  lemma EqualContentsUnclassified(m1: OrderedMap, m2: OrderedMap, pair: PosPair, first: seq<Segment>, second: seq<Segment>)
    requires m1.Valid() && m2.Valid() && m1.values == m2.values
    ensures Diff(m1, m2) == []
    ensures !Added(m1, m2, Prefix) && !Added(m1, m2, Suffix) && !Changed(m1, m2, Root) && !Removed(m1, m2, Suffix)
    ensures Classify(m1, m2, pair, first, second) == Unknown
  {
    DiffOfEqualContents(m1, m2);
    NothingToClassify(pair, false, false, first, second);
  }

  /** A root change between first roots of different lengths does not stop
      classification: the rules run on the diff's own flags. */
  lemma UnequalRootsFallThrough(m1: OrderedMap, m2: OrderedMap, pair: PosPair, first: seq<Segment>, second: seq<Segment>)
    requires Changed(m1, m2, Root) && |m1.values[Root][0]| != |m2.values[Root][0]|
    ensures Classify(m1, m2, pair, first, second) ==
            ApplyRules(pair, Added(m1, m2, Prefix), Added(m1, m2, Suffix), first, second)
  {
  }

  /** After an accepted same-length alternation the suffix condition holds
      whether or not a suffix was added, since `s` now holds the letter set. */
  lemma AlternationForcesSuffixCondition(m1: OrderedMap, m2: OrderedMap, pair: PosPair, first: seq<Segment>, second: seq<Segment>)
    requires Changed(m1, m2, Root) && AlternatingRoots(m1, m2)
    ensures Classify(m1, m2, pair, first, second) == ApplyRules(pair, Added(m1, m2, Prefix), true, first, second)
    ensures pair in SuffixPairs && !Added(m1, m2, Prefix) ==> Classify(m1, m2, pair, first, second) == Formed(Suffixal, first, second)
  {
  }
}
