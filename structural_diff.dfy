/** The structural diff between the two grouped maps and the query `_find`
    that the classifier asks of it.

    The diff is the contract of the third-party dictionary-diff library as far
    as `Analyzer._find` observes it: comparing an insertion-ordered map of lists
    `a` with `b` yields, in this order,
      - for each type of `a` (in `a`'s order) that `b` also has: one `Change`
        entry per index where both lists have a text and the texts differ, then
        an `Add` entry if `b`'s list is longer, a `Remove` entry if it is shorter;
      - one top-level `Add` entry naming the types only `b` has (in `b`'s order);
      - one top-level `Remove` entry naming the types only `a` has (in `a`'s order). */
module StructuralDiff {
  import opened Morphemes

  datatype Action = Add | Remove | Change

  /** One diff entry, in the three shapes the library reports for a map of lists. */
  datatype DiffEntry =
      /** Node `''`: whole types added to or removed from the map. */
    | KeysEntry(action: Action, keys: seq<string>)
      /** Node `'type'`: the list of one type grew or shrank. */
    | ListEntry(action: Action, kind: string)
      /** Node `[type, index]`: one text replaced by another. */
    | ItemEntry(action: Action, kind: string, index: nat, before: string, after: string)

  /** `e` replaces, at an index both lists have, the first list's text by the
      second's, which differs from it. */
  predicate ReplacesItem(e: DiffEntry, xs: seq<string>, ys: seq<string>)
    requires e.ItemEntry?
  {
    e.action == Change && e.index < |xs| && e.index < |ys| &&
    e.before == xs[e.index] && e.after == ys[e.index] && e.before != e.after
  }

  /** What an entry of the diff from `a` to `b` says about the two maps: a
      replaced text, a list of a common type that grew or shrank, or a
      non-empty list of types that only `b` (for `Add`) or only `a` (for
      `Remove`) has. */
  predicate Describes(e: DiffEntry, a: OrderedMap, b: OrderedMap) {
    match e
    case ItemEntry(_, kind, _, _, _) =>
      kind in a.values && kind in b.values && ReplacesItem(e, a.values[kind], b.values[kind])
    case ListEntry(action, kind) =>
      kind in a.values && kind in b.values && action != Change
    case KeysEntry(action, keys) =>
      keys != [] && action != Change &&
      (action == Add ==> forall k :: k in keys ==> k in b.keys && k !in a.keys) &&
      (action == Remove ==> forall k :: k in keys ==> k in a.keys && k !in b.keys)
  }

  /** The `Change` entries for the indices `i..` both lists have. */
  function ItemChanges(kind: string, xs: seq<string>, ys: seq<string>, i: nat): (r: seq<DiffEntry>)
    ensures forall e :: e in r ==> e.ItemEntry? && e.kind == kind && ReplacesItem(e, xs, ys)
    decreases |xs| - i
  {
    if i >= |xs| || i >= |ys| then []
    else (if xs[i] != ys[i] then [ItemEntry(Change, kind, i, xs[i], ys[i])] else []) + ItemChanges(kind, xs, ys, i + 1)
  }

  /** The entries for one type present in both maps. */
  function ListDiff(kind: string, xs: seq<string>, ys: seq<string>): (r: seq<DiffEntry>)
    ensures forall e :: e in r ==> !e.KeysEntry? && e.kind == kind
    ensures forall e :: e in r ==> (e.ItemEntry? ==> ReplacesItem(e, xs, ys)) && (e.ListEntry? ==> e.action != Change)
  {
    ItemChanges(kind, xs, ys, 0)
    + (if |ys| > |xs| then [ListEntry(Add, kind)] else [])
    + (if |xs| > |ys| then [ListEntry(Remove, kind)] else [])
  }

  /** The entries for the types of `ks` present in both maps, in the order of `ks`. */
  function CommonDiff(ks: seq<string>, a: map<string, seq<string>>, b: map<string, seq<string>>): (r: seq<DiffEntry>)
    ensures forall e :: e in r ==> !e.KeysEntry? && e.kind in a && e.kind in b
    ensures forall e :: e in r ==> (e.ItemEntry? ==> ReplacesItem(e, a[e.kind], b[e.kind])) && (e.ListEntry? ==> e.action != Change)
  {
    if ks == [] then []
    else (if ks[0] in a && ks[0] in b then ListDiff(ks[0], a[ks[0]], b[ks[0]]) else []) + CommonDiff(ks[1..], a, b)
  }

  /** The diff that turns `a` (the first word's map) into `b` (the second's). */
  function Diff(a: OrderedMap, b: OrderedMap): (r: seq<DiffEntry>)
    ensures forall e :: e in r ==> Describes(e, a, b)
  {
    var added := Missing(b.keys, a.keys);
    var removed := Missing(a.keys, b.keys);
    var common := CommonDiff(a.keys, a.values, b.values);
    var grown: seq<DiffEntry> := if added == [] then [] else [KeysEntry(Add, added)];
    var shrunk: seq<DiffEntry> := if removed == [] then [] else [KeysEntry(Remove, removed)];
    assert forall e :: e in common ==> Describes(e, a, b);
    assert forall e :: e in grown + shrunk ==> Describes(e, a, b);
    common + grown + shrunk
  }

  /** Type `t` gained texts from `a` to `b`: it is new, or its list grew. */
  predicate Added(a: OrderedMap, b: OrderedMap, t: string) {
    t in b.values && (t !in a.values || |b.values[t]| > |a.values[t]|)
  }

  /** Type `t` lost texts from `a` to `b`: it is gone, or its list shrank. */
  predicate Removed(a: OrderedMap, b: OrderedMap, t: string) {
    t in a.values && (t !in b.values || |a.values[t]| > |b.values[t]|)
  }

  /** Both lists differ at some index both of them have. */
  predicate TextReplaced(xs: seq<string>, ys: seq<string>) {
    exists i :: 0 <= i < |xs| && i < |ys| && xs[i] != ys[i]
  }

  /** Type `t` is in both maps and one of its texts was replaced. */
  predicate Changed(a: OrderedMap, b: OrderedMap, t: string) {
    t in a.values && t in b.values && TextReplaced(a.values[t], b.values[t])
  }

  /** What an entry of `action` on `t` means for the lists of `t` in both maps. */
  predicate ListEffect(action: Action, xs: seq<string>, ys: seq<string>) {
    match action
    case Add => |ys| > |xs|
    case Remove => |xs| > |ys|
    case Change => TextReplaced(xs, ys)
  }

  /** What `_find(dif, action, t)` looks for in one entry: the action, and then
      the type as the entry's node, as the head of a list node, or among the
      keys of a top-level entry (whose node `''` itself matches an empty `t`). */
  predicate Matches(e: DiffEntry, action: Action, t: string) {
    e.action == action &&
    match e
    case ListEntry(_, kind) => kind == t
    case ItemEntry(_, kind, _, _, _) => kind == t
    case KeysEntry(_, keys) => t == "" || t in keys
  }

  ghost predicate Reported(dif: seq<DiffEntry>, action: Action, t: string) {
    exists j :: 0 <= j < |dif| && Matches(dif[j], action, t)
  }

  lemma ReportedConcat(d1: seq<DiffEntry>, d2: seq<DiffEntry>, action: Action, t: string)
    ensures Reported(d1 + d2, action, t) <==> Reported(d1, action, t) || Reported(d2, action, t)
  {
    var d := d1 + d2;
    if Reported(d, action, t) {
      var j :| 0 <= j < |d| && Matches(d[j], action, t);
      if j >= |d1| { assert d2[j - |d1|] == d[j]; }
    }
    if Reported(d1, action, t) {
      var j :| 0 <= j < |d1| && Matches(d1[j], action, t);
      assert d[j] == d1[j];
    }
    if Reported(d2, action, t) {
      var j :| 0 <= j < |d2| && Matches(d2[j], action, t);
      assert d[|d1| + j] == d2[j];
    }
  }

  lemma {:induction false} ItemChangesReported(kind: string, xs: seq<string>, ys: seq<string>, i: nat, action: Action, t: string)
    ensures Reported(ItemChanges(kind, xs, ys, i), action, t) <==>
            action == Change && kind == t && exists n :: i <= n < |xs| && n < |ys| && xs[n] != ys[n]
    decreases |xs| - i
  {
    if i < |xs| && i < |ys| {
      var here: seq<DiffEntry> := if xs[i] != ys[i] then [ItemEntry(Change, kind, i, xs[i], ys[i])] else [];
      ReportedConcat(here, ItemChanges(kind, xs, ys, i + 1), action, t);
      ItemChangesReported(kind, xs, ys, i + 1, action, t);
      assert Reported(here, action, t) <==> action == Change && kind == t && xs[i] != ys[i] by {
        if xs[i] != ys[i] { assert here[0] == ItemEntry(Change, kind, i, xs[i], ys[i]); }
      }
    }
  }

  lemma ListDiffReported(kind: string, xs: seq<string>, ys: seq<string>, action: Action, t: string)
    ensures Reported(ListDiff(kind, xs, ys), action, t) <==> kind == t && ListEffect(action, xs, ys)
  {
    var changes := ItemChanges(kind, xs, ys, 0);
    var grown: seq<DiffEntry> := if |ys| > |xs| then [ListEntry(Add, kind)] else [];
    var shrunk: seq<DiffEntry> := if |xs| > |ys| then [ListEntry(Remove, kind)] else [];
    ReportedConcat(changes, grown, action, t);
    ReportedConcat(changes + grown, shrunk, action, t);
    ItemChangesReported(kind, xs, ys, 0, action, t);
    assert Reported(grown, action, t) <==> action == Add && kind == t && |ys| > |xs| by {
      if |ys| > |xs| { assert grown[0] == ListEntry(Add, kind); }
    }
    assert Reported(shrunk, action, t) <==> action == Remove && kind == t && |xs| > |ys| by {
      if |xs| > |ys| { assert shrunk[0] == ListEntry(Remove, kind); }
    }
  }

  lemma {:induction false} CommonDiffReported(ks: seq<string>, a: map<string, seq<string>>, b: map<string, seq<string>>, action: Action, t: string)
    ensures Reported(CommonDiff(ks, a, b), action, t) <==> t in ks && t in a && t in b && ListEffect(action, a[t], b[t])
  {
    if ks != [] {
      var k := ks[0];
      var here := if k in a && k in b then ListDiff(k, a[k], b[k]) else [];
      ReportedConcat(here, CommonDiff(ks[1..], a, b), action, t);
      CommonDiffReported(ks[1..], a, b, action, t);
      if k in a && k in b {
        ListDiffReported(k, a[k], b[k], action, t);
      }
      assert t in ks <==> t == k || t in ks[1..];
    }
  }

  lemma TopLevelReported(keys: seq<string>, entryAction: Action, action: Action, t: string)
    requires t != ""
    ensures Reported(if keys == [] then [] else [KeysEntry(entryAction, keys)], action, t) <==> entryAction == action && t in keys
  {
    if keys != [] {
      var d := [KeysEntry(entryAction, keys)];
      assert Reported(d, action, t) <==> Matches(d[0], action, t);
    }
  }

  /** What the diff reports, type by type: an `Add` on `t` exactly when `t` was
      added, a `Remove` exactly when it was removed, a `Change` exactly when one
      of its texts was replaced. */
  lemma DiffReports(a: OrderedMap, b: OrderedMap, t: string)
    requires a.Valid() && b.Valid() && t != ""
    ensures Reported(Diff(a, b), Add, t) <==> Added(a, b, t)
    ensures Reported(Diff(a, b), Remove, t) <==> Removed(a, b, t)
    ensures Reported(Diff(a, b), Change, t) <==> Changed(a, b, t)
  {
    DiffReportsAction(a, b, Add, t);
    DiffReportsAction(a, b, Remove, t);
    DiffReportsAction(a, b, Change, t);
  }

  lemma DiffReportsAction(a: OrderedMap, b: OrderedMap, action: Action, t: string)
    requires a.Valid() && b.Valid() && t != ""
    ensures Reported(Diff(a, b), action, t) <==>
            match action
            case Add => Added(a, b, t)
            case Remove => Removed(a, b, t)
            case Change => Changed(a, b, t)
  {
    var common := CommonDiff(a.keys, a.values, b.values);
    var added := Missing(b.keys, a.keys);
    var removed := Missing(a.keys, b.keys);
    var top1: seq<DiffEntry> := if added == [] then [] else [KeysEntry(Add, added)];
    var top2: seq<DiffEntry> := if removed == [] then [] else [KeysEntry(Remove, removed)];
    ReportedConcat(common, top1, action, t);
    ReportedConcat(common + top1, top2, action, t);
    CommonDiffReported(a.keys, a.values, b.values, action, t);
    TopLevelReported(added, Add, action, t);
    TopLevelReported(removed, Remove, action, t);
  }

  lemma TopLevelReportsEmptyType(keys: seq<string>, entryAction: Action, action: Action)
    ensures Reported(if keys == [] then [] else [KeysEntry(entryAction, keys)], action, "") <==> entryAction == action && keys != []
  {
    if keys != [] {
      var d := [KeysEntry(entryAction, keys)];
      assert Reported(d, action, "") <==> Matches(d[0], action, "");
    }
  }

  lemma CommonDiffIgnoresEmptyType(a: OrderedMap, b: OrderedMap, action: Action)
    requires "" !in a.values
    ensures !Reported(CommonDiff(a.keys, a.values, b.values), action, "")
  {
    var common := CommonDiff(a.keys, a.values, b.values);
    forall j | 0 <= j < |common| ensures !Matches(common[j], action, "") {
      assert common[j] in common;
    }
  }

  /** `_find` on the empty type, when neither map has it as a key: a
      top-level entry's node is the empty string, so the query answers
      exactly when some key was added (or removed) as a whole. */
  lemma EmptyTypeReported(a: OrderedMap, b: OrderedMap, action: Action)
    requires a.Valid() && b.Valid() && "" !in a.values && "" !in b.values
    ensures Reported(Diff(a, b), action, "") <==>
            || (action == Add && exists k :: k in b.values && k !in a.values)
            || (action == Remove && exists k :: k in a.values && k !in b.values)
  {
    var common := CommonDiff(a.keys, a.values, b.values);
    var added := Missing(b.keys, a.keys);
    var removed := Missing(a.keys, b.keys);
    var top1: seq<DiffEntry> := if added == [] then [] else [KeysEntry(Add, added)];
    var top2: seq<DiffEntry> := if removed == [] then [] else [KeysEntry(Remove, removed)];
    ReportedConcat(common, top1, action, "");
    ReportedConcat(common + top1, top2, action, "");
    CommonDiffIgnoresEmptyType(a, b, action);
    TopLevelReportsEmptyType(added, Add, action);
    TopLevelReportsEmptyType(removed, Remove, action);
    assert added != [] <==> exists k :: k in b.values && k !in a.values by {
      if added != [] { assert added[0] in added; }
    }
    assert removed != [] <==> exists k :: k in a.values && k !in b.values by {
      if removed != [] { assert removed[0] in removed; }
    }
  }

  /** Two maps with the same contents, in whatever key order, differ in nothing. */
  lemma DiffOfEqualContents(a: OrderedMap, b: OrderedMap)
    requires a.Valid() && b.Valid() && a.values == b.values
    ensures Diff(a, b) == []
  {
    CommonDiffOfEqual(a.keys, a.values);
    NoneMissing(b.keys, a.keys);
    NoneMissing(a.keys, b.keys);
  }

  lemma {:induction false} CommonDiffOfEqual(ks: seq<string>, a: map<string, seq<string>>)
    ensures CommonDiff(ks, a, a) == []
  {
    if ks != [] {
      CommonDiffOfEqual(ks[1..], a);
      if ks[0] in a {
        ItemChangesOfEqual(ks[0], a[ks[0]], 0);
      }
    }
  }

  lemma {:induction false} ItemChangesOfEqual(kind: string, xs: seq<string>, i: nat)
    ensures ItemChanges(kind, xs, xs, i) == []
    decreases |xs| - i
  {
    if i < |xs| {
      ItemChangesOfEqual(kind, xs, i + 1);
    }
  }

  lemma NoneMissing(xs: seq<string>, keys: seq<string>)
    requires forall x :: x in xs ==> x in keys
    ensures Missing(xs, keys) == []
  {
  }

  /** What `_find` returns: `False`, `True`, or the (old, new) pair of a
      list-node entry. The last two are truthy. */
  datatype Hit = Miss | Present | Replaced(before: string, after: string) {
    predicate Truthy() { !Miss? }
  }

  /** The value `_find` returns for a matching entry. */
  function HitOf(e: DiffEntry): Hit {
    if e.ItemEntry? then Replaced(e.before, e.after) else Present
  }

  /** Entry `j` is the first entry that matches. */
  ghost predicate FirstMatchAt(dif: seq<DiffEntry>, action: Action, t: string, j: int) {
    0 <= j < |dif| && Matches(dif[j], action, t) && forall i :: 0 <= i < j ==> !Matches(dif[i], action, t)
  }

  /** `_find`: scan the diff and answer for the first entry that matches. */
  method Find(dif: seq<DiffEntry>, action: Action, morpheme: string) returns (r: Hit)
    ensures r.Truthy() <==> Reported(dif, action, morpheme)
    ensures r.Truthy() ==> exists j :: FirstMatchAt(dif, action, morpheme, j) && r == HitOf(dif[j])
  {
    var j := 0;
    while j < |dif|
      invariant 0 <= j <= |dif|
      invariant forall i :: 0 <= i < j ==> !Matches(dif[i], action, morpheme)
    {
      var v := dif[j];
      if v.action == action {
        match v
        case ListEntry(_, kind) =>
          if kind == morpheme {
            assert Matches(v, action, morpheme);
            return Present;
          }
        case ItemEntry(_, kind, _, before, after) =>
          if kind == morpheme {
            assert Matches(v, action, morpheme);
            return Replaced(before, after);
          }
        case KeysEntry(_, keys) =>
          if morpheme == "" {
            return Present;
          }
          var k := 0;
          while k < |keys|
            invariant 0 <= k <= |keys|
            invariant forall i :: 0 <= i < k ==> keys[i] != morpheme
          {
            if keys[k] == morpheme {
              assert Matches(v, action, morpheme);
              return Present;
            }
            k := k + 1;
          }
      }
      j := j + 1;
    }
    return Miss;
  }
}
