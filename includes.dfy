/**
 * labgrid's `resolve_includes(data)`: folds the documents listed under the
 * reserved top-level key `includes` into the document.
 *
 * A list is returned as it is; anything but a list or a mapping raises
 * TypeError. In a mapping, the `includes` entry is removed and each listed
 * document, resolved the same way first, becomes the BASE of a `data_merge`
 * whose override is the running result: the document beats every include,
 * and an earlier include beats a later one. Only the top-level `includes`
 * key is looked at; nested mappings are not visited.
 *
 * The includes value is iterated as Python iterates it: a list or a tuple
 * gives its items, an empty mapping or string gives nothing, a non-empty
 * mapping or string gives strings (each of which then raises TypeError), and
 * any other value is not iterable (TypeError).
 */
module Includes {
  import opened YamlTree
  import opened Merging

  /** The reserved key. */
  const IncludesKey: string := "includes"

  /** What iterating an includes value yields, or None when that raises TypeError. */
  function IncludeItems(val: Node): (r: Option<seq<Node>>)
    ensures r.Some? && val.List? ==> r.value == val.items
    ensures r.Some? && val.Tuple? ==> r.value == val.elems
    ensures r.Some? && !val.List? && !val.Tuple? ==> r.value == []
    ensures r.Some? <==> val.List? || val.Tuple? || val == Dict([]) || val == Str([]) || val == BlockStr([])
  {
    match val
    case List(items) => Some(items)
    case Tuple(elems) => Some(elems)
    case Dict(es) => if es == [] then Some([]) else None
    case Str(s) => if s == [] then Some([]) else None
    case BlockStr(s) => if s == [] then Some([]) else None
    case _ => None
  }

  /** The result of `resolve_includes(data)`, or the error it raises. */
  function Resolved(data: Node): (r: Result<Node, Error>)
    ensures r.Ok? ==> r.value.List? || r.value.Dict?
    ensures data.List? ==> r == Ok(data)
    ensures !data.List? && !data.Dict? ==> r == Err(TypeError)
    decreases data, 1
  {
    if data.List? then Ok(data)
    else if !data.Dict? then Err(TypeError)
    else match Find(data.entries, IncludesKey)
      case None => Ok(data)
      case Some(j) =>
        var val := data.entries[j].value;
        assert val < data.entries[j] < data;
        var rest := Dict(RemoveAt(data.entries, j));
        match IncludeItems(val)
        case None => Err(TypeError)
        case Some(items) => if items == [] then Ok(rest) else Fold(rest, val, 0)
  }

  /** The fold over the listed documents from the `i`-th on, with `acc` the result so far. */
  function Fold(acc: Node, val: Node, i: nat): (r: Result<Node, Error>)
    requires val.List? || val.Tuple?
    requires acc.List? || acc.Dict?
    requires i <= |IncludeItems(val).value|
    ensures r.Ok? ==> r.value.List? || r.value.Dict?
    decreases val, 0, |IncludeItems(val).value| - i
  {
    var items := IncludeItems(val).value;
    if i == |items| then Ok(acc)
    else
      assert items[i] < val;
      match Resolved(items[i])
      case Err(e) => Err(e)
      case Ok(l) =>
        match Merge(l, acc)
        case Err(e) => Err(e)
        case Ok(m) => Fold(m, val, i + 1)
  }

  /** `resolve_includes` as the source runs it: pop the key, then merge in each listed
      document with a loop. */
  method ResolveIncludes(data: Node) returns (r: Result<Node, Error>)
    ensures r == Resolved(data)
    decreases data
  {
    if data.List? {
      return Ok(data);
    } else if !data.Dict? {
      return Err(TypeError);
    }
    var found := Find(data.entries, IncludesKey);
    if found.None? {
      return Ok(data);
    }
    var j := found.value;
    var val := data.entries[j].value;
    assert val < data.entries[j] < data;
    var acc := Dict(RemoveAt(data.entries, j));
    var items := IncludeItems(val);
    if items.None? {
      return Err(TypeError);
    } else if items.value == [] {
      return Ok(acc);
    }
    ghost var start := acc;
    var i := 0;
    while i < |items.value|
      invariant i <= |items.value|
      invariant acc.List? || acc.Dict?
      invariant Fold(acc, val, i) == Fold(start, val, 0)
    {
      assert items.value[i] < val;
      var l := ResolveIncludes(items.value[i]);
      if l.Err? {
        return Err(l.error);
      }
      var m := DataMerge(l.value, acc);
      if m.Err? {
        return Err(m.error);
      }
      acc := m.value;
      i := i + 1;
    }
    r := Ok(acc);
  }

  // ---------------------------------------------------------------------------
  // What resolution leaves behind.

  /** A resolved mapping no longer holds the reserved key. */
  predicate NoIncludes(n: Node)
  {
    n.Dict? ==> !HasKey(n.entries, IncludesKey)
  }

  /** Resolution keeps every mapping's keys distinct, and a mapping it returns has no
      `includes` key, even when the included documents had their own. */
  lemma {:induction false} ResolvedFacts(data: Node)
    requires WellFormed(data) && Resolved(data).Ok?
    ensures WellFormed(Resolved(data).value) && NoIncludes(Resolved(data).value)
    decreases data, 1
  {
    if data.Dict? {
      match Find(data.entries, IncludesKey)
      case None =>
      case Some(j) =>
        var val := data.entries[j].value;
        assert val < data.entries[j] < data;
        var rest := Dict(RemoveAt(data.entries, j));
        RemoveAtLookup(data.entries, j);
        assert WellFormed(rest) by {
          forall x | 0 <= x < |rest.entries| ensures WellFormed(rest.entries[x].value) {
            assert rest.entries[x] == data.entries[if x < j then x else x + 1];
          }
        }
        if IncludeItems(val).value != [] {
          FoldFacts(rest, val, 0);
        }
    }
  }

  lemma {:induction false} FoldFacts(acc: Node, val: Node, i: nat)
    requires val.List? || val.Tuple?
    requires acc.List? || acc.Dict?
    requires i <= |IncludeItems(val).value|
    requires WellFormed(val) && WellFormed(acc) && NoIncludes(acc)
    requires Fold(acc, val, i).Ok?
    ensures WellFormed(Fold(acc, val, i).value) && NoIncludes(Fold(acc, val, i).value)
    decreases val, 0, |IncludeItems(val).value| - i
  {
    var items := IncludeItems(val).value;
    if i < |items| {
      assert items[i] < val;
      var l := Resolved(items[i]).value;
      ResolvedFacts(items[i]);
      var m := Merge(l, acc).value;
      MergeWellFormed(l, acc);
      if m.Dict? {
        MergeDictKeys(l, acc);
      }
      FoldFacts(m, val, i + 1);
    }
  }

  // ---------------------------------------------------------------------------
  // Precedence.

  /** The value of `k` in the first of the mappings that has it. */
  function Earliest(k: string, docs: seq<seq<Entry>>): (r: Option<Node>)
    ensures r.None? <==> forall x :: 0 <= x < |docs| ==> !HasKey(docs[x], k)
  {
    if docs == [] then None
    else if HasKey(docs[0], k) then Lookup(docs[0], k)
    else
      var r := Earliest(k, docs[1..]);
      assert forall x :: 1 <= x < |docs| ==> docs[x] == docs[1..][x - 1];
      r
  }

  /** Every listed document from the `i`-th on resolves to a mapping with distinct keys. */
  ghost predicate ResolveToDicts(val: Node, i: nat)
    requires val.List? || val.Tuple?
  {
    forall x :: i <= x < |IncludeItems(val).value| ==>
      var r := Resolved(IncludeItems(val).value[x]);
      r.Ok? && r.value.Dict? && DistinctKeys(r.value.entries)
  }

  /** The resolved listed documents, from the `i`-th on. */
  ghost function ResolvedDocs(val: Node, i: nat): (docs: seq<seq<Entry>>)
    requires val.List? || val.Tuple?
    requires i <= |IncludeItems(val).value| && ResolveToDicts(val, i)
    ensures |docs| == |IncludeItems(val).value| - i
    decreases |IncludeItems(val).value| - i
  {
    var items := IncludeItems(val).value;
    if i == |items| then [] else [Resolved(items[i]).value.entries] + ResolvedDocs(val, i + 1)
  }

  /** Each listed document from the `i`-th on that has `k` holds a scalar there. */
  ghost predicate ScalarAt(val: Node, i: nat, k: string)
    requires val.List? || val.Tuple?
    requires ResolveToDicts(val, i)
  {
    forall x :: i <= x < |IncludeItems(val).value| ==>
      var d := Resolved(IncludeItems(val).value[x]).value.entries;
      HasKey(d, k) ==> Replaceable(Lookup(d, k).value)
  }

  /** Merging a mapping `l` under `acc` keeps `acc`'s value under `k` and otherwise
      takes `l`'s, when `l`'s value there is a scalar. */
  lemma PrecedenceStep(acc: Node, l: Node, k: string, rest: seq<seq<Entry>>)
    requires acc.Dict? && DistinctKeys(acc.entries)
    requires l.Dict? && DistinctKeys(l.entries)
    requires HasKey(l.entries, k) ==> Replaceable(Lookup(l.entries, k).value)
    requires Merge(l, acc).Ok?
    ensures Merge(l, acc).value.Dict? && DistinctKeys(Merge(l, acc).value.entries)
    ensures Earliest(k, [Merge(l, acc).value.entries] + rest)
      == Earliest(k, [acc.entries] + ([l.entries] + rest))
  {
    var m := Merge(l, acc).value;
    MergeDictKeys(l, acc);
    MergeDictValues(l, acc);
    assert ([m.entries] + rest)[1..] == rest;
    assert ([acc.entries] + ([l.entries] + rest))[1..] == [l.entries] + rest;
    assert ([l.entries] + rest)[1..] == rest;
  }

  /** Folding the `i`-th document under the result so far keeps every scalar key the
      result has, and adds the document's scalar keys the result lacks. */
  lemma {:induction false} FoldPrecedence(acc: Node, val: Node, i: nat, k: string)
    requires val.List? || val.Tuple?
    requires acc.Dict? && DistinctKeys(acc.entries)
    requires i <= |IncludeItems(val).value| && ResolveToDicts(val, i) && ScalarAt(val, i, k)
    requires Fold(acc, val, i).Ok?
    ensures Fold(acc, val, i).value.Dict?
    ensures Lookup(Fold(acc, val, i).value.entries, k) == Earliest(k, [acc.entries] + ResolvedDocs(val, i))
    decreases |IncludeItems(val).value| - i
  {
    var items := IncludeItems(val).value;
    if i < |items| {
      var l := Resolved(items[i]).value;
      PrecedenceStep(acc, l, k, ResolvedDocs(val, i + 1));
      FoldPrecedence(Merge(l, acc).value, val, i + 1, k);
    } else {
      assert ([acc.entries] + ResolvedDocs(val, i))[1..] == [];
    }
  }

  /** The document beats every include, and an earlier include beats a later one: when
      every listed document resolves to a mapping holding a scalar under `k` (if it has
      `k` at all), the result's value under `k` is the one from the first of the
      document and the listed documents, in that order, that has `k`. */
  lemma IncludePrecedence(data: Node, k: string)
    requires data.Dict? && DistinctKeys(data.entries) && HasKey(data.entries, IncludesKey)
    requires var val := Lookup(data.entries, IncludesKey).value;
      && (val.List? || val.Tuple?) && ResolveToDicts(val, 0) && ScalarAt(val, 0, k)
    requires Resolved(data).Ok?
    ensures Resolved(data).value.Dict?
    ensures var j := Find(data.entries, IncludesKey).value;
      Lookup(Resolved(data).value.entries, k)
        == Earliest(k, [RemoveAt(data.entries, j)] + ResolvedDocs(data.entries[j].value, 0))
  {
    var j := Find(data.entries, IncludesKey).value;
    var val := data.entries[j].value;
    RemoveAtLookup(data.entries, j);
    if IncludeItems(val).value == [] {
      assert ResolvedDocs(val, 0) == [];
    } else {
      FoldPrecedence(Dict(RemoveAt(data.entries, j)), val, 0, k);
    }
  }

  /** With `includes: [A, B]` on a document D, the result is
      `data_merge(B', data_merge(A', D'))`, where D' is D without the key and X' is X
      resolved. */
  lemma ResolvedTwoIncludes(data: Node, a: Node, b: Node)
    requires data.Dict? && HasKey(data.entries, IncludesKey)
    requires Lookup(data.entries, IncludesKey).value == List([a, b])
    ensures var rest := Dict(RemoveAt(data.entries, Find(data.entries, IncludesKey).value));
      Resolved(data) ==
        match Resolved(a)
        case Err(e) => Err(e)
        case Ok(a') =>
          match Merge(a', rest)
          case Err(e) => Err(e)
          case Ok(m) =>
            match Resolved(b)
            case Err(e) => Err(e)
            case Ok(b') => Merge(b', m)
  {
    var val := List([a, b]);
    var rest := Dict(RemoveAt(data.entries, Find(data.entries, IncludesKey).value));
    assert Resolved(data) == Fold(rest, val, 0);
    if Resolved(a).Ok? && Merge(Resolved(a).value, rest).Ok? {
      var m := Merge(Resolved(a).value, rest).value;
      assert Fold(rest, val, 0) == Fold(m, val, 1);
      if Resolved(b).Ok? && Merge(Resolved(b).value, m).Ok? {
        assert Fold(m, val, 1) == Fold(Merge(Resolved(b).value, m).value, val, 2);
      }
    }
  }

  // ---------------------------------------------------------------------------
  // Lists.

  /** Every listed document from the `i`-th on resolves to a list. */
  ghost predicate ResolveToLists(val: Node, i: nat)
    requires val.List? || val.Tuple?
  {
    forall x :: i <= x < |IncludeItems(val).value| ==>
      Resolved(IncludeItems(val).value[x]).Ok? && Resolved(IncludeItems(val).value[x]).value.List?
  }

  /** The items of the resolved lists from the `i`-th on, the last one first. */
  ghost function Stacked(val: Node, i: nat): seq<Node>
    requires val.List? || val.Tuple?
    requires i <= |IncludeItems(val).value| && ResolveToLists(val, i)
    decreases |IncludeItems(val).value| - i
  {
    var items := IncludeItems(val).value;
    if i == |items| then [] else Stacked(val, i + 1) + Resolved(items[i]).value.items
  }

  /** When every listed document is a list, each one is merged as the base: the result
      is a list holding the last include's items first and the document itself, as a
      single item, last. */
  lemma {:induction false} FoldLists(acc: Node, val: Node, i: nat)
    requires val.List? || val.Tuple?
    requires acc.List? || acc.Dict?
    requires i < |IncludeItems(val).value| && ResolveToLists(val, i)
    ensures Fold(acc, val, i) == Ok(List(Stacked(val, i) + if acc.List? then acc.items else [acc]))
    decreases |IncludeItems(val).value| - i
  {
    var items := IncludeItems(val).value;
    var l := Resolved(items[i]).value;
    var m := Merge(l, acc).value;
    assert Fold(acc, val, i) == Fold(m, val, i + 1);
    assert m == List(l.items + if acc.List? then acc.items else [acc]);
    assert Stacked(val, i) == Stacked(val, i + 1) + l.items;
    if i + 1 < |items| {
      FoldLists(m, val, i + 1);
      var tail := if acc.List? then acc.items else [acc];
      assert Stacked(val, i + 1) + (l.items + tail) == (Stacked(val, i + 1) + l.items) + tail;
    } else {
      assert Fold(m, val, i + 1) == Ok(m);
      assert Stacked(val, i + 1) == [];
      assert Stacked(val, i) == l.items;
    }
  }

  /** With `includes: [A1, ..., An]` on a document D where every Ai resolves to a list,
      the result is the list An' ++ ... ++ A1' ++ [D'], D' being D without the key. */
  lemma IncludeLists(data: Node)
    requires data.Dict? && HasKey(data.entries, IncludesKey)
    requires var val := Lookup(data.entries, IncludesKey).value;
      (val.List? || val.Tuple?) && |IncludeItems(val).value| > 0 && ResolveToLists(val, 0)
    ensures var j := Find(data.entries, IncludesKey).value;
      Resolved(data) == Ok(List(Stacked(data.entries[j].value, 0) + [Dict(RemoveAt(data.entries, j))]))
  {
    var j := Find(data.entries, IncludesKey).value;
    FoldLists(Dict(RemoveAt(data.entries, j)), data.entries[j].value, 0);
  }
}
