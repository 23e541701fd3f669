/** Morpheme decompositions and the insertion-ordered map that groups them by
    morpheme type: the grouping step (`Analyzer._get_dd`) and the ending-stripping
    step of `Analyzer.analyze`. */
module Morphemes {

  /** One unit of a word's decomposition: the morpheme's text and the name of
      its type, as the morpheme dictionary spells it. */
  datatype Segment = Segment(text: string, kind: string)

  const Root: string := "корень"
  const Prefix: string := "приставка"
  const Suffix: string := "суффикс"

  /** The ending-like types, in the order the stripping loop visits them:
      verbal ending, ending, postfix, zero ending. */
  const Endings: seq<string> := ["глагольноеокончание", "окончание", "постфикс", "нулевоеокончание"]

  const NoTexts: seq<string> := []

  predicate Distinct(s: seq<string>) {
    forall i, j :: 0 <= i < j < |s| ==> s[i] != s[j]
  }

  /** An insertion-ordered dictionary from morpheme type to a list of texts:
      `keys` is the iteration order, `values` the contents. */
  datatype OrderedMap = OrderedMap(keys: seq<string>, values: map<string, seq<string>>) {

    predicate Valid() {
      Distinct(keys) && (forall k :: k in values ==> k in keys) && forall i :: 0 <= i < |keys| ==> keys[i] in values
    }

    /** Assignment `d[k] = v`: a present key keeps its place, a new key goes last. */
    function Put(k: string, v: seq<string>): (r: OrderedMap)
      requires Valid()
      ensures r.Valid()
      ensures r.values == values[k := v]
      ensures k in values ==> r.keys == keys
      ensures k !in values ==> r.keys == keys + [k]
    {
      if k in values then OrderedMap(keys, values[k := v]) else OrderedMap(keys + [k], values[k := v])
    }
  }

  /** The texts of the segments of type `k`, in input order (the reference
      definition of "that type's list"). */
  function TextsOf(m: seq<Segment>, k: string): (r: seq<string>)
    ensures |r| <= |m|
    ensures r == [] <==> forall i :: 0 <= i < |m| ==> m[i].kind != k
  {
    if m == [] then []
    else
      var last := m[|m| - 1];
      TextsOf(m[..|m| - 1], k) + (if last.kind == k then [last.text] else [])
  }

  /** Appending a segment extends its own type's list by its text, and no other. */
  lemma TextsOfSnoc(m: seq<Segment>, s: Segment, k: string)
    ensures TextsOf(m + [s], k) == TextsOf(m, k) + (if s.kind == k then [s.text] else [])
  {
    assert (m + [s])[..|m|] == m;
  }

  /** A type's list holds only texts of segments of that type. */
  lemma {:induction false} TextsOfMembers(m: seq<Segment>, k: string)
    ensures forall x :: x in TextsOf(m, k) ==> exists i :: 0 <= i < |m| && m[i].kind == k && m[i].text == x
  {
    if m != [] {
      var init := m[..|m| - 1];
      TextsOfMembers(init, k);
      assert forall i :: 0 <= i < |init| ==> init[i] == m[i];
    }
  }

  /** The distinct types occurring in `m`, in the order of their first occurrence. */
  function KindsInOrder(m: seq<Segment>): (r: seq<string>)
    ensures Distinct(r)
  {
    if m == [] then []
    else
      var ks := KindsInOrder(m[..|m| - 1]);
      var last := m[|m| - 1];
      if last.kind in ks then ks else ks + [last.kind]
  }

  /** The types listed are exactly the types that occur. */
  lemma {:induction false} KindsInOrderMembers(m: seq<Segment>)
    ensures forall k :: k in KindsInOrder(m) <==> exists i :: 0 <= i < |m| && m[i].kind == k
  {
    if m != [] {
      var init := m[..|m| - 1];
      KindsInOrderMembers(init);
      assert forall i :: 0 <= i < |init| ==> init[i] == m[i];
    }
  }

  /** What grouping a decomposition yields: one key per type, first-seen order,
      each mapped to that type's texts. */
  function Grouped(m: seq<Segment>): (d: OrderedMap)
    ensures d.Valid()
  {
    var ks := KindsInOrder(m);
    OrderedMap(ks, map k | k in ks :: TextsOf(m, k))
  }

  /** Grouping one more segment either extends its type's list or adds the type last. */
  lemma GroupedStep(m: seq<Segment>, s: Segment)
    ensures var g := Grouped(m);
            Grouped(m + [s]) ==
              if s.kind in g.values then OrderedMap(g.keys, g.values[s.kind := g.values[s.kind] + [s.text]])
              else g.Put(s.kind, [s.text])
  {
    var g, g' := Grouped(m), Grouped(m + [s]);
    var extended := if s.kind in g.values then g.values[s.kind] + [s.text] else [s.text];
    GroupedStepKeys(m, s);
    GroupedStepValues(m, s, extended);
  }

  lemma GroupedStepKeys(m: seq<Segment>, s: Segment)
    ensures Grouped(m + [s]).keys == if s.kind in Grouped(m).keys then Grouped(m).keys else Grouped(m).keys + [s.kind]
  {
    var ms := m + [s];
    assert ms[..|ms| - 1] == m;
  }

  lemma GroupedStepValues(m: seq<Segment>, s: Segment, extended: seq<string>)
    requires extended == if s.kind in Grouped(m).values then Grouped(m).values[s.kind] + [s.text] else [s.text]
    ensures Grouped(m + [s]).values == Grouped(m).values[s.kind := extended]
  {
    var ms := m + [s];
    var g, g' := Grouped(m), Grouped(ms);
    var target := g.values[s.kind := extended];
    assert g'.values.Keys == target.Keys by {
      GroupedStepKeys(m, s);
    }
    assert forall k :: k in g'.values ==> g'.values[k] == target[k] by {
      forall k | k in g'.values
        ensures g'.values[k] == target[k]
      {
        TextsOfSnoc(m, s, k);
        if k != s.kind {
          assert g'.values[k] == TextsOf(m, k) == g.values[k];
        } else if k !in g.values {
          KindsInOrderMembers(m);
          assert TextsOf(m, k) == [];
        }
      }
    }
  }

  /** `_get_dd`: walk the segments once, appending each text to its type's list
      or starting a new list for a type not seen yet. */
  method Group(m: seq<Segment>) returns (d: OrderedMap)
    ensures d == Grouped(m)
  {
    d := OrderedMap([], map[]);
    var i := 0;
    while i < |m|
      invariant 0 <= i <= |m|
      invariant d == Grouped(m[..i])
    {
      var seg := m[i];
      GroupedStep(m[..i], seg);
      assert m[..i + 1] == m[..i] + [seg];
      if seg.kind in d.values {
        d := OrderedMap(d.keys, d.values[seg.kind := d.values[seg.kind] + [seg.text]]);
      } else {
        d := d.Put(seg.kind, [seg.text]);
      }
      i := i + 1;
    }
    assert m[..i] == m;
  }

  /** Grouping keeps exactly the types that occur, and each list holds exactly
      that type's texts, in input order, never empty. */
  lemma GroupedContents(m: seq<Segment>, k: string)
    ensures k in Grouped(m).values <==> exists i :: 0 <= i < |m| && m[i].kind == k
    ensures k in Grouped(m).values ==> Grouped(m).values[k] == TextsOf(m, k) != []
  {
    KindsInOrderMembers(m);
    TextsOfMembers(m, k);
  }

  /** Sum of the lengths of `TextsOf(m, k)` over the types `ks`. */
  function TotalTexts(m: seq<Segment>, ks: seq<string>): nat {
    if ks == [] then 0 else |TextsOf(m, ks[0])| + TotalTexts(m, ks[1..])
  }

  /** Sum of the lengths of the lists of `ks` in `values`. */
  function SumLengths(ks: seq<string>, values: map<string, seq<string>>): nat {
    if ks == [] then 0 else (if ks[0] in values then |values[ks[0]]| else 0) + SumLengths(ks[1..], values)
  }

  lemma {:induction false} TotalTextsAppend(m: seq<Segment>, ks: seq<string>, k: string)
    ensures TotalTexts(m, ks + [k]) == TotalTexts(m, ks) + |TextsOf(m, k)|
  {
    if ks != [] {
      assert (ks + [k])[1..] == ks[1..] + [k];
      TotalTextsAppend(m, ks[1..], k);
    }
  }

  lemma {:induction false} TotalTextsSnoc(m: seq<Segment>, s: Segment, ks: seq<string>)
    requires Distinct(ks)
    ensures TotalTexts(m + [s], ks) == TotalTexts(m, ks) + (if s.kind in ks then 1 else 0)
  {
    assert (m + [s])[..|m|] == m;
    if ks != [] {
      assert Distinct(ks[1..]);
      assert s.kind in ks <==> s.kind == ks[0] || s.kind in ks[1..];
      assert s.kind == ks[0] ==> s.kind !in ks[1..];
      TotalTextsSnoc(m, s, ks[1..]);
    }
  }

  lemma {:induction false} KindsCoverAll(m: seq<Segment>)
    ensures TotalTexts(m, KindsInOrder(m)) == |m|
  {
    if m != [] {
      var init, s := m[..|m| - 1], m[|m| - 1];
      assert m == init + [s];
      var ks := KindsInOrder(init);
      KindsCoverAll(init);
      TotalTextsSnoc(init, s, ks);
      if s.kind !in ks {
        TotalTextsAppend(m, ks, s.kind);
        TotalTextsSnoc(init, s, ks);
        KindsInOrderMembers(init);
        assert TextsOf(init, s.kind) == [];
      }
    }
  }

  lemma {:induction false} SumLengthsOfGrouped(m: seq<Segment>, ks: seq<string>)
    requires forall k :: k in ks ==> k in KindsInOrder(m)
    ensures SumLengths(ks, Grouped(m).values) == TotalTexts(m, ks)
  {
    if ks != [] {
      SumLengthsOfGrouped(m, ks[1..]);
    }
  }

  /** Grouping loses and duplicates nothing: the list lengths add up to the
      number of segments. */
  lemma GroupedLosesNothing(m: seq<Segment>)
    ensures SumLengths(Grouped(m).keys, Grouped(m).values) == |m|
  {
    SumLengthsOfGrouped(m, KindsInOrder(m));
    KindsCoverAll(m);
  }

  /** The entries of `xs` that are not among `keys`, in the order of `xs`. */
  function Missing(xs: seq<string>, keys: seq<string>): (r: seq<string>)
    ensures forall x :: x in r <==> x in xs && x !in keys
  {
    if xs == [] then []
    else Missing(xs[..|xs| - 1], keys) + (if xs[|xs| - 1] in keys then [] else [xs[|xs| - 1]])
  }

  lemma {:induction false} MissingDistinct(xs: seq<string>, keys: seq<string>)
    requires Distinct(xs)
    ensures Distinct(keys + Missing(xs, keys)) <== Distinct(keys)
  {
    if xs != [] {
      var init := xs[..|xs| - 1];
      MissingDistinct(init, keys);
      assert keys + Missing(xs, keys) == keys + Missing(init, keys) + (if xs[|xs| - 1] in keys then [] else [xs[|xs| - 1]]);
    }
  }

  /** The map after `d[x] = []` for each type `x` of `xs` in turn. */
  function ClearKinds(d: OrderedMap, xs: seq<string>): (r: OrderedMap)
    requires d.Valid() && Distinct(xs)
    ensures r.Valid()
  {
    MissingDistinct(xs, d.keys);
    OrderedMap(d.keys + Missing(xs, d.keys), Cleared(d.values, xs))
  }

  function Cleared(values: map<string, seq<string>>, xs: seq<string>): map<string, seq<string>> {
    values + map e | e in xs :: NoTexts
  }

  lemma ClearKindsStep(d: OrderedMap, xs: seq<string>, x: string)
    requires d.Valid() && Distinct(xs + [x])
    ensures Distinct(xs)
    ensures ClearKinds(d, xs + [x]) == ClearKinds(d, xs).Put(x, [])
  {
    DistinctSnoc(xs, x);
    ClearKindsStepKeys(d, xs, x);
    ClearKindsStepValues(d, xs, x);
  }

  lemma DistinctSnoc(xs: seq<string>, x: string)
    requires Distinct(xs + [x])
    ensures Distinct(xs) && x !in xs
  {
    var next := xs + [x];
    forall i, j | 0 <= i < j < |xs| ensures xs[i] != xs[j] { assert next[i] == xs[i] && next[j] == xs[j]; }
    forall i | 0 <= i < |xs| ensures xs[i] != x { assert next[i] == xs[i] && next[|xs|] == x; }
  }

  lemma ClearKindsStepKeys(d: OrderedMap, xs: seq<string>, x: string)
    requires d.Valid() && Distinct(xs + [x]) && Distinct(xs)
    ensures ClearKinds(d, xs + [x]).keys == ClearKinds(d, xs).keys + (if x in d.keys then [] else [x])
  {
    var next := xs + [x];
    assert next[..|next| - 1] == xs;
  }

  lemma ClearKindsStepValues(d: OrderedMap, xs: seq<string>, x: string)
    requires d.Valid() && Distinct(xs + [x]) && Distinct(xs)
    ensures ClearKinds(d, xs + [x]).values == ClearKinds(d, xs).values[x := []]
  {
    ClearedStep(d.values, xs, x);
  }

  lemma ClearedStep(values: map<string, seq<string>>, xs: seq<string>, x: string)
    ensures Cleared(values, xs + [x]) == Cleared(values, xs)[x := []]
  {
    var a, b := Cleared(values, xs), Cleared(values, xs + [x]);
    assert b.Keys == a.Keys + {x};
    forall k | k in b
      ensures b[k] == a[x := []][k]
    {
    }
  }

  lemma EndingsDistinct()
    ensures Distinct(Endings)
  {
  }

  /** The map after the ending-stripping step: every ending-like type is mapped
      to the empty list, appended in stripping order when it was absent; every
      other type keeps its list and its place. */
  function Stripped(d: OrderedMap): (r: OrderedMap)
    requires d.Valid()
    ensures r.Valid()
    ensures forall e :: e in Endings ==> e in r.values && r.values[e] == []
    ensures forall k :: k !in Endings ==> (k in r.values <==> k in d.values)
    ensures forall k :: k !in Endings && k in d.values ==> r.values[k] == d.values[k]
    ensures |d.keys| <= |r.keys| && r.keys[..|d.keys|] == d.keys
  {
    EndingsDistinct();
    var r := ClearKinds(d, Endings);
    assert r.keys[..|d.keys|] == d.keys;
    r
  }

  /** The stripping loop of `Analyzer.analyze`, run over both words' maps together. */
  method StripEndings(m1: OrderedMap, m2: OrderedMap) returns (r1: OrderedMap, r2: OrderedMap)
    requires m1.Valid() && m2.Valid()
    ensures r1 == Stripped(m1) && r2 == Stripped(m2)
  {
    EndingsDistinct();
    r1, r2 := m1, m2;
    var i := 0;
    assert Endings[..0] == [];
    while i < |Endings|
      invariant 0 <= i <= |Endings|
      invariant Distinct(Endings[..i])
      invariant r1 == ClearKinds(m1, Endings[..i]) && r2 == ClearKinds(m2, Endings[..i])
    {
      assert Endings[..i + 1] == Endings[..i] + [Endings[i]];
      ClearKindsStep(m1, Endings[..i], Endings[i]);
      ClearKindsStep(m2, Endings[..i], Endings[i]);
      r1 := r1.Put(Endings[i], []);
      r2 := r2.Put(Endings[i], []);
      i := i + 1;
    }
    assert Endings[..i] == Endings;
  }
}
