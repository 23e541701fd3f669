/** The classification outcomes, the four tables of part-of-speech pairs and
    the prioritised rule chain that ends `Analyzer.analyze`. */
module FormationRules {
  import opened Morphemes

  /** A part-of-speech tag of the OpenCorpora tag set; `Untagged` stands for a
      word the tagger gives no part of speech. */
  datatype Pos =
    | NOUN | ADJF | ADJS | COMP | VERB | INFN | PRTF | PRTS | GRND
    | NUMR | ADVB | NPRO | PRED | PREP | CONJ | PRCL | INTJ | Untagged

  /** (tag of the first word, tag of the second word). */
  type PosPair = (Pos, Pos)

  /** Pairs admitted for prefixal formation. */
  const PrefixPairs: set<PosPair> := {
    (VERB, VERB), (VERB, INFN), (INFN, VERB), (INFN, INFN),
    (NOUN, NOUN),
    (ADJF, ADJF), (ADJF, ADJS), (ADJS, ADJF), (ADJS, ADJS),
    (NPRO, NPRO),
    (ADVB, ADVB)}

  /** Pairs admitted for suffixal formation. */
  const SuffixPairs: set<PosPair> := {
    (NOUN, NOUN), (NOUN, ADJS), (NOUN, ADJF), (NOUN, VERB), (NOUN, INFN),
    (VERB, VERB), (VERB, INFN), (VERB, NOUN), (VERB, ADJS), (VERB, ADJF),
    (INFN, VERB), (INFN, INFN), (INFN, NOUN), (INFN, ADJS), (INFN, ADJF),
    (ADJF, ADVB), (ADJF, NOUN), (ADJF, VERB), (ADJF, INFN), (ADJF, ADJF),
    (ADJS, ADVB), (ADJS, NOUN), (ADJS, VERB), (ADJS, INFN), (ADJS, ADJS)}

  /** Pairs admitted for prefixal-suffixal formation. */
  const PrefixSuffixPairs: set<PosPair> := {
    (NOUN, NOUN),
    (NOUN, ADJF), (NOUN, ADJS),
    (NOUN, VERB), (NOUN, INFN), (ADJF, VERB), (ADJF, INFN), (ADJS, VERB), (ADJS, INFN),
    (ADJF, ADVB), (ADJS, ADVB), (NOUN, ADVB), (NUMR, ADVB),
    (INFN, INFN), (VERB, VERB)}

  /** Pairs admitted for suffixless formation (back-formation). */
  const SuffixlessPairs: set<PosPair> := {
    (INFN, NOUN), (VERB, NOUN),
    (ADJF, NOUN), (ADJS, NOUN),
    (NOUN, NOUN),
    (NOUN, ADJF), (NOUN, ADJS),
    (INFN, ADJF), (INFN, ADJS), (VERB, ADJF), (VERB, ADJS),
    (ADJF, ADJF), (ADJF, ADJS), (ADJS, ADJF), (ADJS, ADJS),
    (ADVB, ADJF), (ADVB, ADJS),
    (NUMR, NUMR)}

  /** 'P', 'S', 'PS' and 'BS'. */
  datatype Formation = Prefixal | Suffixal | PrefixSuffixal | Suffixless

  /** The classifier's answer. The formations and `DifferentRoot` carry both
      words' decompositions as they were looked up. `RootIndexError` stands for
      the `IndexError` that `Analyzer.analyze` raises when it takes the last
      letter of two empty first roots. */
  datatype Outcome =
    | UnknownParseError
    | Unknown
    | DifferentRoot(first: seq<Segment>, second: seq<Segment>)
    | Formed(formation: Formation, first: seq<Segment>, second: seq<Segment>)
    | RootIndexError

  /** The pair table of each formation. */
  function TableOf(f: Formation): set<PosPair> {
    match f
    case PrefixSuffixal => PrefixSuffixPairs
    case Prefixal => PrefixPairs
    case Suffixal => SuffixPairs
    case Suffixless => SuffixlessPairs
  }

  /** The place of each rule in the chain: prefixal-suffixal is tried first,
      suffixless last. */
  function Rank(f: Formation): nat {
    match f
    case PrefixSuffixal => 0
    case Prefixal => 1
    case Suffixal => 2
    case Suffixless => 3
  }

  /** The rule of formation `f` applies: the pair is in its table and its
      condition holds (a prefix for the prefixal rules, the suffix condition for
      all but the prefixal one). */
  predicate Applies(f: Formation, pair: PosPair, prefixAdded: bool, suffixCondition: bool) {
    pair in TableOf(f) &&
    match f
    case PrefixSuffixal => prefixAdded && suffixCondition
    case Prefixal => prefixAdded
    case Suffixal => suffixCondition
    case Suffixless => suffixCondition
  }

  /** The rule chain of `Analyzer.analyze`, first match wins: prefixal-suffixal,
      prefixal, suffixal, suffixless. `prefixAdded` and `suffixCondition` are
      the truth values of `p` and `s` at that point. */
  function ApplyRules(pair: PosPair, prefixAdded: bool, suffixCondition: bool,
                      first: seq<Segment>, second: seq<Segment>): (r: Outcome)
    ensures r.Unknown? || (r.Formed? && r.first == first && r.second == second)
    ensures r.Formed? ==> Applies(r.formation, pair, prefixAdded, suffixCondition)
    ensures r.Formed? ==> forall f :: Rank(f) < Rank(r.formation) ==> !Applies(f, pair, prefixAdded, suffixCondition)
    ensures r.Unknown? ==> forall f :: !Applies(f, pair, prefixAdded, suffixCondition)
  {
    if pair in PrefixSuffixPairs && prefixAdded && suffixCondition then Formed(PrefixSuffixal, first, second)
    else if pair in PrefixPairs && prefixAdded then Formed(Prefixal, first, second)
    else if pair in SuffixPairs && suffixCondition then Formed(Suffixal, first, second)
    else if pair in SuffixlessPairs && suffixCondition then Formed(Suffixless, first, second)
    else Unknown
  }

  /** The pairs for which the suffixless rule can ever fire: every other pair of
      its table is also a suffixal pair, and the suffixal rule, tested first on
      the same condition, takes it. */
  const ReachableSuffixlessPairs: set<PosPair> := {(ADJF, ADJS), (ADJS, ADJF), (ADVB, ADJF), (ADVB, ADJS), (NUMR, NUMR)}

  /** A suffixless answer only ever comes for the five pairs above, and for each
      of them it does come once the suffix condition holds without a prefix. */
  lemma SuffixlessReachable(pair: PosPair, p: bool, s: bool, first: seq<Segment>, second: seq<Segment>)
    ensures ApplyRules(pair, p, s, first, second) == Formed(Suffixless, first, second) ==> pair in ReachableSuffixlessPairs
    ensures pair in ReachableSuffixlessPairs && s && !p ==> ApplyRules(pair, p, s, first, second) == Formed(Suffixless, first, second)
  {
    if pair in SuffixlessPairs && pair !in SuffixPairs {
      assert pair in ReachableSuffixlessPairs;
    }
  }

  /** Priority: a case that meets both the prefixal-suffixal and the prefixal
      condition is prefixal-suffixal. */
  lemma PrefixSuffixalBeatsPrefixal(pair: PosPair, first: seq<Segment>, second: seq<Segment>)
    requires pair in PrefixSuffixPairs && pair in PrefixPairs
    ensures ApplyRules(pair, true, true, first, second) == Formed(PrefixSuffixal, first, second)
    ensures pair in {(NOUN, NOUN), (VERB, VERB), (INFN, INFN)}
  {
  }

  /** Prefixal beats suffixal: a pair of both tables and of no prefixal-suffixal
      one, here (ADJF,ADJF), with a prefix and the suffix condition, is prefixal. */
  lemma PrefixalBeatsSuffixal(first: seq<Segment>, second: seq<Segment>)
    ensures (ADJF, ADJF) in PrefixPairs * SuffixPairs - PrefixSuffixPairs
    ensures ApplyRules((ADJF, ADJF), true, true, first, second) == Formed(Prefixal, first, second)
  {
  }

  /** With neither a prefix nor the suffix condition no rule fires; and a pair in
      none of the four tables (any pair with a comparative, participle, gerund,
      pronoun-noun other than with itself, function word or no tag) is never classified. */
  lemma NothingToClassify(pair: PosPair, p: bool, s: bool, first: seq<Segment>, second: seq<Segment>)
    ensures !p && !s ==> ApplyRules(pair, p, s, first, second) == Unknown
    ensures pair !in PrefixPairs + SuffixPairs + PrefixSuffixPairs + SuffixlessPairs ==> ApplyRules(pair, p, s, first, second) == Unknown
  {
  }
}
