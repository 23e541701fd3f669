# Word-formation classifier (model)

This project models the classifier at the heart of `Analyzer.py`. Given two
Russian words, it decides how the second is formed from the first: prefixal
(`P`), suffixal (`S`), prefixal-suffixal (`PS`), suffixless (`BS`), "different
root", unknown, or unknown because a word could not be parsed. Its inputs are:

- each word's morpheme decomposition, a list of (text, type) pairs from an
  online morpheme dictionary, or that lookup's failure;
- each word's part-of-speech tag.

The steps it follows:

1. `_get_dd` groups a decomposition into an insertion-ordered map from
   morpheme type to the list of its texts.
2. The ending-like types are cleared to empty lists in both maps.
3. The maps are compared with a structural dictionary diff.
4. `_find` asks the diff four questions: prefix added, suffix added, root text
   changed, suffix removed.
5. A root gate runs. When a root changed and the first roots are equally long,
   their last letters must form an accepted alternation, or the answer is
   "different root".
6. A prioritised chain of rules is tried over four tables of part-of-speech
   pairs.

Files and modules:

- `morphemes.dfy` (`Morphemes`): the decomposition, the insertion-ordered map
  `OrderedMap`, grouping and ending stripping.
  - `Group` and `StripEndings` are the source's loops.
  - They are proved equal to the reference functions `Grouped` and `Stripped`.
  - Lemmas state what those functions keep.
- `structural_diff.dfy` (`StructuralDiff`): the diff entries and `_find`.
  - `Diff` is the entry sequence the diff library yields for two such maps, in
    the three node shapes `_find` inspects.
  - `Find` is the scan loop. It is proved to answer exactly when some entry
    matches, and to return what the first match carries.
  - `DiffReports` ties "reported by the diff" to the meaning of each query:
    `Added`, `Removed` and `Changed`.
- `formation_rules.dfy` (`FormationRules`): the part-of-speech tags, the four
  pair tables, copied verbatim, and the rule chain `ApplyRules`, with lemmas on
  priority and reachability.
- `analyzer.dfy` (`Analyzer`):
  - `Analyze` is the step-by-step method.
  - It is proved equal to `Analysis`, a definition stated on what the diff
    means rather than on the diff itself.
  - Lemmas show that endings never matter and describe the root gate.
- `scenarios.dfy` (`Scenarios`): worked examples on small decompositions with
  the morpheme texts left free. These include the direction of the comparison,
  the suffixless rule's reading of the suffix-added flag, root alternations,
  and a word compared with itself.

Two behaviours of the source are reproduced as written:

- **`s` is rebound.** After a root change between equally long first roots,
  `s` is rebound to the set of their last letters. That set is never empty, so
  the suffix condition then holds whether or not a suffix was added
  (`SuffixCondition`, `AlternationForcesSuffixCondition`, `AlternationIsSuffixal`).
- **The suffixless rule tests `s`.** It reads `s` (suffix added), not `bs`
  (suffix removed), so `bs` is computed and never consulted. Only the five pairs
  of `ReachableSuffixlessPairs` can ever yield `BS`.

The accepted-alternation set `{'a', 'a'}` is written with the Latin letter a.
It is modelled as written: a set holding the Latin a alone (`SameLastLetter`).

The diff runs from word 1 to word 2. So при+готов+ending compared with
готов+ending, (ADJF,ADJF), is unknown, not prefixal: the prefix is a *removal*.
The same pair in the reverse order is prefixal (`PrefixCountsOnlyWhenAdded`).

An empty first root is not refused. When a root text changed and both first
roots are empty, `m1['корень'][0][-1]` at line 169 raises `IndexError`; the
model returns the outcome `RootIndexError` there (`EmptyFirstRootsRaise`).

## Model

| member | source | states |
|---|---|---|
| Morphemes.OrderedMap.Put | Analyzer.py:55-58 | assigning a key keeps the map well formed, sets that key's list, keeps a present key in place and appends a new key last |
| Morphemes.TextsOfMembers | Analyzer.py:54-58 | a type's list holds only texts of segments of that type |
| Morphemes.KindsInOrderMembers | Analyzer.py:54-58 | the grouped map's keys are exactly the types that occur in the decomposition |
| Morphemes.Grouped | Analyzer.py:50-59 | the grouped map is well formed: distinct keys in first-seen order, one list per key |
| Morphemes.GroupedStep | Analyzer.py:55-58 | one more segment appends its text to its type's list, or adds its type last with a one-text list |
| Morphemes.Group | Analyzer.py:50-59 | the grouping loop yields exactly `Grouped` of its input |
| Morphemes.GroupedContents | Analyzer.py:54-58 | a type is a key iff some segment has it; its list is that type's texts in input order and is never empty |
| Morphemes.GroupedLosesNothing | Analyzer.py:54-58 | the lengths of all lists add up to the number of segments: no text lost or duplicated |
| Morphemes.Stripped | Analyzer.py:98-100 | after stripping, every ending-like type maps to the empty list; every other type keeps its presence and its list; the original keys keep their order and come first |
| Morphemes.StripEndings | Analyzer.py:98-100 | the stripping loop over both maps yields `Stripped` of each |
| StructuralDiff.Diff | Analyzer.py:106 | every entry describes the two maps: a change entry replaces the text at an index both lists have; a list entry is an add or a remove on a type both maps have; a top-level entry is a non-empty list of keys, all new for an add and all gone for a remove |
| StructuralDiff.Matches | Analyzer.py:64-75 | the entry test of the scan: same action, and the type is the node of a list entry, the head of an item entry's path, or (for a top-level entry, whose node is the empty string) the empty type or one of its keys |
| StructuralDiff.EmptyTypeReported | Analyzer.py:64-75 | queried for the empty type, which neither map has, the diff answers an add iff some key is new and a remove iff some key is gone, because a top-level entry's node is the empty string |
| StructuralDiff.DiffReports | Analyzer.py:106 | the diff has an add entry for a type iff the type is new or its list grew, a remove entry iff the type is gone or its list shrank, and a change entry iff one of its texts was replaced at an index both lists have |
| StructuralDiff.DiffOfEqualContents | Analyzer.py:106 | two maps with the same contents, in any key order, have an empty diff |
| StructuralDiff.Find | Analyzer.py:61-76 | the scan answers truthy iff some entry matches the action and the type (as node, as a list node's head, or among a top-level entry's keys); a truthy answer is what the first matching entry carries: the (old, new) pair of a list-node entry, otherwise `True` |
| FormationRules.ApplyRules | Analyzer.py:175-187 | the answer is unknown or a formation carrying both decompositions; a formation is the first rule, in the order PS, P, S, BS, whose table holds the pair and whose flags hold (prefix and suffix condition, prefix, suffix condition, suffix condition); unknown iff no rule applies |
| FormationRules.PrefixalBeatsSuffixal | Analyzer.py:178-183 | (ADJF,ADJF) is in the prefixal and the suffixal table and not in the prefixal-suffixal one; with prefix and suffix condition it is prefixal |
| FormationRules.SuffixlessReachable | Analyzer.py:181-186 | a suffixless answer only comes for (ADJF,ADJS), (ADJS,ADJF), (ADVB,ADJF), (ADVB,ADJS) or (NUMR,NUMR); for each of them it comes once the suffix condition holds without a prefix |
| FormationRules.PrefixSuffixalBeatsPrefixal | Analyzer.py:175-180 | a pair in both the prefixal-suffixal and the prefixal table, with prefix and suffix condition, is prefixal-suffixal; only (NOUN,NOUN), (VERB,VERB) and (INFN,INFN) are in both |
| FormationRules.NothingToClassify | Analyzer.py:175-187 | without a prefix and without the suffix condition, or for a pair in none of the four tables, the answer is unknown |
| Analyzer.Prepared | Analyzer.py:94-100 | a word's grouped and stripped map is well formed |
| Analyzer.PreparedRootTexts | Analyzer.py:168-169 | when root texts are non-empty, the prepared map's first root is non-empty, so taking its last letter is defined |
| Analyzer.PreparedValue | Analyzer.py:94-100 | a non-ending type is in the prepared map iff the word has texts of that type, and maps to exactly those texts |
| Analyzer.AcceptedAlternation | Analyzer.py:172 | the accepted letter sets as written: {г, ж}, and {a, a}, which is the one-letter set of the Latin a |
| Analyzer.AcceptedLastLetters | Analyzer.py:169-172 | two last letters pass the gate iff they are г and ж in either order or both the Latin a; the Cyrillic а twice does not |
| Analyzer.LastLetters | Analyzer.py:169 | the set of the two first roots' last letters is never empty, so the rebound `s` is truthy |
| Analyzer.SuffixCondition | Analyzer.py:169 | the `s` the rules read: true whenever a suffix was added; exactly "suffix added" when no root text changed; true after a root change between equally long non-empty first roots, where `s` is rebound to their last letters, a non-empty set |
| Analyzer.Classify | Analyzer.py:165-187 | the answer is never a parse error and carries both decompositions; it is the `IndexError` outcome iff a root text was replaced and both first roots are empty; it is "different root" iff a root text was replaced between equally long non-empty first roots whose last letters are not an accepted alternation |
| Analyzer.Analysis | Analyzer.py:85-91 | the answer is a parse error iff either lookup failed; a formation or "different root" carries both looked-up decompositions |
| Analyzer.Analyze | Analyzer.py:78-187 | the step-by-step classification, for every input, returns exactly `Analysis` of its inputs, the `IndexError` of line 169 included |
| Analyzer.NoIndexErrorWithRootTexts | Analyzer.py:168-169 | when no root text of either word is empty, the classification never raises `IndexError` |
| Analyzer.TextsOfWithout | Analyzer.py:98-100 | removing segments of other types leaves a type's texts unchanged |
| Analyzer.PreparedIgnoresEndings | Analyzer.py:98-100 | two decompositions equal up to ending-like segments give prepared maps with equal contents |
| Analyzer.EndingsIgnored | Analyzer.py:97-113 | decompositions equal up to ending-like segments give an empty diff, none of the four queries fires, and the answer is unknown |
| Analyzer.EqualContentsUnclassified | Analyzer.py:106-113 | maps with equal contents give an empty diff, no query fires, and the classification is unknown |
| Analyzer.UnequalRootsFallThrough | Analyzer.py:165-168 | a root change between first roots of different lengths skips the gate: the rules run on "prefix added" and "suffix added" |
| Analyzer.AlternationForcesSuffixCondition | Analyzer.py:168-172 | after an accepted same-length alternation the rules run with the suffix condition true, so a suffixal pair without a prefix is suffixal |
| Scenarios.PrefixOnlyInFirst | Analyzer.py:110 | a prefix only in the first map is not "added" and the classification is unknown; the other way round the rules run with a prefix and no suffix condition |
| Scenarios.PrefixCountsOnlyWhenAdded | Analyzer.py:110 | при+root+ending to root+ending, (ADJF,ADJF), is unknown; the reverse direction is prefixal |
| Scenarios.SuffixOnlyInFirst | Analyzer.py:111-113 | a suffix only in the first map is removed, not added, and the classification is unknown; the other way round the suffix condition holds |
| Scenarios.SuffixRemovalIsNotSuffixless | Analyzer.py:184 | root+suffix+verb ending to root+ending, (INFN,NOUN): the suffix is removed and the pair is in the suffixless table, yet the answer is unknown; the reverse, (NOUN,INFN), is suffixal |
| Scenarios.SameLengthRootsDiffer | Analyzer.py:168-173 | equally long different roots and nothing else: "different root" unless the last letters are an accepted alternation, otherwise the rules with the suffix condition true |
| Scenarios.UnequalRootsDiffer | Analyzer.py:165-168 | different-length roots and nothing else: unknown |
| Scenarios.SameLengthRootChange | Analyzer.py:168-173 | the same, end to end, for two root+ending words |
| Scenarios.AlternationIsSuffixal | Analyzer.py:169-183 | друг to друж, (NOUN,NOUN), is suffixal although no suffix was added |
| Scenarios.OtherAlternationIsDifferentRoot | Analyzer.py:172-173 | вод to вож, (NOUN,NOUN), is "different root" |
| Scenarios.SameLastLetter | Analyzer.py:172 | equally long different roots ending in the same letter stop the gate iff that letter is not the Latin a; the Cyrillic а stops it |
| Scenarios.UnequalRootChangeUnknown | Analyzer.py:165-168 | a root replaced by one of another length, nothing else changed, is unknown for any tags |
| Scenarios.SameWordUnknown | Analyzer.py:106-113 | a decomposition compared with itself is unknown for any tags |
| Scenarios.EmptyFirstRoots | Analyzer.py:165-169 | two maps with no prefix or suffix, whose root lists are ("", a) and ("", b) with a ≠ b, give the `IndexError` outcome: the second root changed and both first roots are empty |
| Scenarios.EmptyFirstRootsRaise | Analyzer.py:165-169 | the same, end to end, for two words of two roots each, the first one empty |
| Scenarios.EmptyRootAgainstRootUnknown | Analyzer.py:165-168 | an empty root replaced by вод has roots of different lengths, so the gate is skipped and the answer is unknown |

## Left out

- `get_morphems` fetches and scrapes the morpheme dictionary page over HTTP. It
  is an input here: `Lookup` is the decomposition, or a failure with its reason.
  The failure reason does not reach the answer, and neither does the source's
  error message.
- `get_POS` calls a part-of-speech tagger. The two tags are inputs; `Untagged`
  stands for a word the tagger gives no part of speech.
- The diff library's internals. `Diff` reproduces only the entries it yields for
  two maps from type to list of strings, as `_find` reads them. A top-level
  entry keeps the added or removed keys and drops their lists, which `_find`
  never reads.
- StructuralDiff.DiffReports: stated only for a non-empty type. A top-level
  entry's node is the empty string, which `_find` matches for an empty type
  name; `EmptyTypeReported` states that case separately. The classifier asks
  only about "приставка", "суффикс" and "корень".
- The `IndexError` of line 169 is an outcome, `RootIndexError`, not an
  exception: what a caller of `analyze` does with it is not modelled.
- Grouped maps are values. `_get_dd`'s final `copy()` and the in-place
  assignments of the stripping loop are modelled as new map values; no aliasing
  is observable in the source.
- Morphemes.Stripped: states where the original keys stay, but not the order in
  which the absent ending-like keys are appended. That order only affects the
  position of diff entries about ending types, which no query asks about.
- The `verbose` printing, the unused imports, and the web front end `app.py`
  are not part of this model.
