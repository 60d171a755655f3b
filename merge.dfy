/**
 * labgrid's `data_merge(a, b)`: merges the override `b` into the base `a`,
 * directed by the type of the base.
 *
 *  - two mappings merge key by key, walking the override's keys in order:
 *    a key the base has is merged recursively and keeps its place, a new key
 *    is appended;
 *  - a list base is extended by a list override, or gets a non-list override
 *    appended as one item;
 *  - a base that is `None`, a `str`, a `float` or an `int` (a `bool` is an
 *    `int` in Python) is replaced by the override;
 *  - any other base (a mapping with a non-mapping override, a tuple, a block
 *    string, which is a `UserString` and not a `str`, or a template object)
 *    raises "Datatype not supported".
 */
module Merging {
  import opened YamlTree

  /** The bases `data_merge` simply replaces: `None`, `str`, `float` and `int`/`bool`. */
  function Replaceable(n: Node): (r: bool)
    ensures r ==> !n.Dict? && !n.List? && !n.Tuple? && !n.BlockStr?
  {
    n.Null? || n.Bool? || n.Int? || n.Float? || n.Str?
  }

  /** The result of `data_merge(a, b)`, or the error it raises. */
  function Merge(a: Node, b: Node): (r: Result<Node, Error>)
    ensures r.Ok? && a.Dict? ==> r.value.Dict?
    ensures r.Ok? && a.List? ==> r.value.List?
    ensures r.Err? ==> r.error.DatatypeNotSupported?
    decreases b, 1
  {
    if a.Dict? && b.Dict? then
      match MergeEntries(a.entries, b, 0)
      case Ok(es) => Ok(Dict(es))
      case Err(e) => Err(e)
    else if a.List? then
      if b.List? then Ok(List(a.items + b.items)) else Ok(List(a.items + [b]))
    else if Replaceable(a) then Ok(b)
    else Err(DatatypeNotSupported(KindOf(b), KindOf(a)))
  }

  /** The key loop of the mapping case, from the override's `i`-th key on, with the
      base's entries as they are by then. */
  function MergeEntries(acc: seq<Entry>, b: Node, i: nat): (r: Result<seq<Entry>, Error>)
    requires b.Dict? && i <= |b.entries|
    ensures r.Err? ==> r.error.DatatypeNotSupported?
    ensures r.Ok? ==> KeysOf(acc) <= KeysOf(r.value)
    decreases b, 0, |b.entries| - i
  {
    if i == |b.entries| then Ok(acc)
    else
      var e := b.entries[i];
      assert e.value < e < b;
      match Find(acc, e.key)
      case None => MergeEntries(Put(acc, e.key, e.value), b, i + 1)
      case Some(j) =>
        match Merge(acc[j].value, e.value)
        case Err(x) => Err(x)
        case Ok(v) => MergeEntries(Put(acc, e.key, v), b, i + 1)
  }

  /** `data_merge`, with the mapping case done by the key loop of `MergeDicts`. */
  method DataMerge(a: Node, b: Node) returns (r: Result<Node, Error>)
    ensures r == Merge(a, b)
    decreases b, 1
  {
    if a.Dict? && b.Dict? {
      var es := MergeDicts(a.entries, b);
      r := match es case Ok(es) => Ok(Dict(es)) case Err(e) => Err(e);
    } else if a.List? {
      if b.List? {
        r := Ok(List(a.items + b.items));
      } else {
        r := Ok(List(a.items + [b]));
      }
    } else if Replaceable(a) {
      r := Ok(b);
    } else {
      r := Err(DatatypeNotSupported(KindOf(b), KindOf(a)));
    }
  }

  /** The loop over the override's keys: a key the base has is merged in place, a new
      key is appended. */
  method MergeDicts(base: seq<Entry>, b: Node) returns (r: Result<seq<Entry>, Error>)
    requires b.Dict?
    ensures r == MergeEntries(base, b, 0)
    decreases b, 0
  {
    var acc := base;
    var i := 0;
    while i < |b.entries|
      invariant i <= |b.entries|
      invariant MergeEntries(acc, b, i) == MergeEntries(base, b, 0)
    {
      var e := b.entries[i];
      assert e.value < e < b;
      EntriesStep(acc, b, i);
      var found := Find(acc, e.key);
      if found.None? {
        acc := Put(acc, e.key, e.value);
      } else {
        var v := DataMerge(acc[found.value].value, e.value);
        if v.Err? {
          return Err(v.error);
        }
        acc := Put(acc, e.key, v.value);
      }
      i := i + 1;
    }
    r := Ok(acc);
  }

  /** One turn of the key loop. */
  lemma EntriesStep(acc: seq<Entry>, b: Node, i: nat)
    requires b.Dict? && i < |b.entries|
    ensures var e := b.entries[i];
      Find(acc, e.key).None? ==> MergeEntries(acc, b, i) == MergeEntries(Put(acc, e.key, e.value), b, i + 1)
    ensures var e := b.entries[i];
      Find(acc, e.key).Some? ==>
        var m := Merge(acc[Find(acc, e.key).value].value, e.value);
        && (m.Err? ==> MergeEntries(acc, b, i) == Err(m.error))
        && (m.Ok? ==> MergeEntries(acc, b, i) == MergeEntries(Put(acc, e.key, m.value), b, i + 1))
  {
  }

  // ---------------------------------------------------------------------------
  // The list and scalar cases.

  /** A list base is extended by a list override, in order and keeping duplicates,
      and gets any other override appended as a single item. */
  lemma MergeIntoList(a: Node, b: Node)
    requires a.List?
    ensures Merge(a, b).Ok? && Merge(a, b).value.List?
    ensures var items := Merge(a, b).value.items;
      && items[..|a.items|] == a.items
      && (b.List? ==> |items| == |a.items| + |b.items| && items[|a.items|..] == b.items)
      && (!b.List? ==> |items| == |a.items| + 1 && items[|a.items|] == b)
  {
  }

  /** A `None`, string or number base gives exactly the override. */
  lemma MergeReplaces(a: Node, b: Node)
    requires Replaceable(a)
    ensures Merge(a, b) == Ok(b)
  {
  }

  /** Every other pair is rejected, naming the override's type and the base's. */
  lemma MergeRejects(a: Node, b: Node)
    ensures Merge(a, b).Err? && !(a.Dict? && b.Dict?) <==> !a.List? && !Replaceable(a) && !(a.Dict? && b.Dict?)
    ensures !a.List? && !Replaceable(a) && !(a.Dict? && b.Dict?) ==>
      Merge(a, b) == Err(DatatypeNotSupported(KindOf(b), KindOf(a)))
  {
  }

  /** The rejections the loader makes possible: a tuple base, a block-string base and a
      mapping base with a scalar override. */
  lemma MergeRejectsExamples(b: Node, s: string)
    ensures Merge(Tuple([]), b) == Err(DatatypeNotSupported(KindOf(b), TupleType))
    ensures Merge(BlockStr(s), b) == Err(DatatypeNotSupported(KindOf(b), UserStringType))
    ensures Merge(Dict([]), Str(s)) == Err(DatatypeNotSupported(StrType, DictType))
    ensures Merge(Str(s), BlockStr(s)) == Ok(BlockStr(s))
  {
  }

  // ---------------------------------------------------------------------------
  // The mapping case.

  /** Some entry from the `i`-th on has key `k`. */
  predicate KeyFrom(es: seq<Entry>, i: nat, k: string)
  {
    exists j :: i <= j < |es| && es[j].key == k
  }

  /** The override's keys from the `i`-th on that the base lacks, in the override's
      order: the keys the loop appends. */
  function NewKeys(base: seq<Entry>, over: seq<Entry>, i: nat): seq<string>
    requires i <= |over|
    decreases |over| - i
  {
    if i == |over| then []
    else (if HasKey(base, over[i].key) then [] else [over[i].key]) + NewKeys(base, over, i + 1)
  }

  /** The appended keys are exactly the override's keys the base lacks. */
  lemma {:induction false} NewKeysMembers(base: seq<Entry>, over: seq<Entry>, i: nat)
    requires i <= |over|
    ensures forall k :: k in NewKeys(base, over, i) <==> KeyFrom(over, i, k) && !HasKey(base, k)
    decreases |over| - i
  {
    if i < |over| {
      NewKeysMembers(base, over, i + 1);
      forall k | KeyFrom(over, i, k) ensures k == over[i].key || KeyFrom(over, i + 1, k) {
        var j :| i <= j < |over| && over[j].key == k;
      }
    }
  }

  /** What the loop leaves under the `j`-th key of the override, given the entries `acc`
      it started from: the override's value for a new key, the merged value otherwise. */
  predicate MergedAt(acc: seq<Entry>, re: seq<Entry>, b: Node, j: nat)
    requires b.Dict? && j < |b.entries|
  {
    var k := b.entries[j].key;
    && HasKey(re, k)
    && (!HasKey(acc, k) ==> Lookup(re, k) == Some(b.entries[j].value))
    && (HasKey(acc, k) ==> Merge(Lookup(acc, k).value, b.entries[j].value) == Ok(Lookup(re, k).value))
  }

  /** Some key of the override from the `i`-th on is in `acc`, and merging its two values fails. */
  predicate FailsFrom(acc: seq<Entry>, b: Node, i: nat)
    requires b.Dict? && i <= |b.entries|
  {
    exists j :: i <= j < |b.entries| && HasKey(acc, b.entries[j].key)
      && Merge(Lookup(acc, b.entries[j].key).value, b.entries[j].value).Err?
  }

  /** The outcome of the key loop from the `i`-th key on, as the source promises it. */
  ghost predicate LoopOutcome(acc: seq<Entry>, b: Node, i: nat, r: Result<seq<Entry>, Error>)
    requires b.Dict? && i <= |b.entries|
  {
    && (r.Err? <==> FailsFrom(acc, b, i))
    && (r.Ok? ==>
      && (DistinctKeys(acc) ==> DistinctKeys(r.value))
      && KeysOf(r.value) == KeysOf(acc) + NewKeys(acc, b.entries, i)
      && (forall k :: !KeyFrom(b.entries, i, k) ==> Lookup(r.value, k) == Lookup(acc, k))
      && (forall j :: i <= j < |b.entries| ==> MergedAt(acc, r.value, b, j)))
  }

  /** The key loop keeps keys distinct, leaves keys the override lacks alone, appends new
      keys in the override's order, gives new keys the override's value, merges common
      keys recursively, and fails exactly when some common key fails to merge. */
  lemma {:induction false} MergeEntriesFacts(acc: seq<Entry>, b: Node, i: nat)
    requires b.Dict? && i <= |b.entries| && DistinctKeys(acc) && DistinctKeys(b.entries)
    ensures LoopOutcome(acc, b, i, MergeEntries(acc, b, i))
    decreases |b.entries| - i
  {
    if i < |b.entries| {
      var e := b.entries[i];
      EntriesStep(acc, b, i);
      match Find(acc, e.key)
      case None =>
        StepFacts(acc, b, i, e.value);
      case Some(j) =>
        var m := Merge(acc[j].value, e.value);
        LookupAt(acc, j);
        if m.Ok? {
          StepFacts(acc, b, i, m.value);
        } else {
          assert FailsFrom(acc, b, i);
        }
    }
  }

  /** One turn of the key loop, given the value `v` it puts under the `i`-th key. */
  lemma {:induction false} StepFacts(acc: seq<Entry>, b: Node, i: nat, v: Node)
    requires b.Dict? && i < |b.entries| && DistinctKeys(acc) && DistinctKeys(b.entries)
    requires var e := b.entries[i];
      if HasKey(acc, e.key) then Merge(Lookup(acc, e.key).value, e.value) == Ok(v) else v == e.value
    ensures LoopOutcome(acc, b, i, MergeEntries(Put(acc, b.entries[i].key, v), b, i + 1))
    decreases |b.entries| - i, 0
  {
    var e := b.entries[i];
    var acc' := Put(acc, e.key, v);
    MergeEntriesFacts(acc', b, i + 1);
    var r := MergeEntries(acc', b, i + 1);
    FailsStep(acc, b, i, v);
    if r.Ok? {
      OkStep(acc, b, i, v, r.value);
    }
  }

  lemma FailsStep(acc: seq<Entry>, b: Node, i: nat, v: Node)
    requires b.Dict? && i < |b.entries| && DistinctKeys(b.entries)
    requires var e := b.entries[i];
      if HasKey(acc, e.key) then Merge(Lookup(acc, e.key).value, e.value) == Ok(v) else v == e.value
    ensures FailsFrom(acc, b, i) <==> FailsFrom(Put(acc, b.entries[i].key, v), b, i + 1)
  {
    var e := b.entries[i];
    var acc' := Put(acc, e.key, v);
    if FailsFrom(acc', b, i + 1) {
      var j :| i + 1 <= j < |b.entries| && HasKey(acc', b.entries[j].key)
        && Merge(Lookup(acc', b.entries[j].key).value, b.entries[j].value).Err?;
      assert b.entries[j].key != e.key;
    }
    if FailsFrom(acc, b, i) {
      var j :| i <= j < |b.entries| && HasKey(acc, b.entries[j].key)
        && Merge(Lookup(acc, b.entries[j].key).value, b.entries[j].value).Err?;
      assert j != i;
      assert b.entries[j].key != e.key;
    }
  }

  lemma OkStep(acc: seq<Entry>, b: Node, i: nat, v: Node, re: seq<Entry>)
    requires b.Dict? && i < |b.entries| && DistinctKeys(acc) && DistinctKeys(b.entries)
    requires var e := b.entries[i];
      if HasKey(acc, e.key) then Merge(Lookup(acc, e.key).value, e.value) == Ok(v) else v == e.value
    requires LoopOutcome(Put(acc, b.entries[i].key, v), b, i + 1, Ok(re))
    ensures DistinctKeys(re)
    ensures KeysOf(re) == KeysOf(acc) + NewKeys(acc, b.entries, i)
    ensures forall k :: !KeyFrom(b.entries, i, k) ==> Lookup(re, k) == Lookup(acc, k)
    ensures forall j :: i <= j < |b.entries| ==> MergedAt(acc, re, b, j)
  {
    var e := b.entries[i];
    KeysStep(acc, b, i, v, re);
    forall k | !KeyFrom(b.entries, i, k) ensures Lookup(re, k) == Lookup(acc, k) {
      assert !KeyFrom(b.entries, i + 1, k);
    }
    assert !KeyFrom(b.entries, i + 1, e.key);
    assert Lookup(re, e.key) == Some(v);
    forall j | i <= j < |b.entries| ensures MergedAt(acc, re, b, j) {
      if j == i {
        MergedHere(acc, b, i, v, re);
      } else {
        MergedLater(acc, b, i, v, re, j);
      }
    }
  }

  lemma KeysStep(acc: seq<Entry>, b: Node, i: nat, v: Node, re: seq<Entry>)
    requires b.Dict? && i < |b.entries| && DistinctKeys(b.entries)
    requires KeysOf(re) == KeysOf(Put(acc, b.entries[i].key, v)) + NewKeys(Put(acc, b.entries[i].key, v), b.entries, i + 1)
    ensures KeysOf(re) == KeysOf(acc) + NewKeys(acc, b.entries, i)
  {
    var k := b.entries[i].key;
    var head: seq<string> := if HasKey(acc, k) then [] else [k];
    KeysStepParts(acc, b, i, v);
    Regroup(KeysOf(re), KeysOf(Put(acc, k, v)), KeysOf(acc), head, NewKeys(acc, b.entries, i + 1));
  }

  lemma Regroup<T>(whole: seq<T>, front: seq<T>, base: seq<T>, head: seq<T>, rest: seq<T>)
    requires whole == front + rest && front == base + head
    ensures whole == base + (head + rest)
  {
  }

  lemma KeysStepParts(acc: seq<Entry>, b: Node, i: nat, v: Node)
    requires b.Dict? && i < |b.entries| && DistinctKeys(b.entries)
    ensures var k := b.entries[i].key;
      var head: seq<string> := if HasKey(acc, k) then [] else [k];
      && NewKeys(Put(acc, k, v), b.entries, i + 1) == NewKeys(acc, b.entries, i + 1)
      && NewKeys(acc, b.entries, i) == head + NewKeys(acc, b.entries, i + 1)
      && KeysOf(Put(acc, k, v)) == KeysOf(acc) + head
  {
    var k := b.entries[i].key;
    assert !KeyFrom(b.entries, i + 1, k);
    NewKeysGrow(acc, k, v, b.entries, i + 1);
  }

  /** The `i`-th key holds the value the turn put there. */
  lemma MergedHere(acc: seq<Entry>, b: Node, i: nat, v: Node, re: seq<Entry>)
    requires b.Dict? && i < |b.entries|
    requires var e := b.entries[i];
      if HasKey(acc, e.key) then Merge(Lookup(acc, e.key).value, e.value) == Ok(v) else v == e.value
    requires Lookup(re, b.entries[i].key) == Some(v)
    ensures MergedAt(acc, re, b, i)
  {
  }

  /** A later key is untouched by this turn, so what the rest of the loop promises for it
      holds from `acc` as well. */
  lemma MergedLater(acc: seq<Entry>, b: Node, i: nat, v: Node, re: seq<Entry>, j: nat)
    requires b.Dict? && i < j < |b.entries| && DistinctKeys(b.entries)
    requires MergedAt(Put(acc, b.entries[i].key, v), re, b, j)
    ensures MergedAt(acc, re, b, j)
  {
    var k := b.entries[j].key;
    assert k != b.entries[i].key;
    assert Lookup(Put(acc, b.entries[i].key, v), k) == Lookup(acc, k);
  }

  /** Adding a key the rest of the override lacks leaves the rest's new keys alone. */
  lemma {:induction false} NewKeysGrow(acc: seq<Entry>, k: string, v: Node, over: seq<Entry>, i: nat)
    requires i <= |over| && !KeyFrom(over, i, k)
    ensures NewKeys(Put(acc, k, v), over, i) == NewKeys(acc, over, i)
    decreases |over| - i
  {
    if i < |over| {
      assert over[i].key != k && !KeyFrom(over, i + 1, k);
      NewKeysGrow(acc, k, v, over, i + 1);
      assert HasKey(Put(acc, k, v), over[i].key) == HasKey(acc, over[i].key) by {
        assert Lookup(Put(acc, k, v), over[i].key) == Lookup(acc, over[i].key);
      }
    }
  }

  // ---------------------------------------------------------------------------
  // The mapping case, stated on `data_merge` itself.

  /** Merging mapping `b` into mapping `a` fails exactly when some key of both fails
      to merge. */
  lemma MergeDictFails(a: Node, b: Node)
    requires a.Dict? && b.Dict? && DistinctKeys(a.entries) && DistinctKeys(b.entries)
    ensures Merge(a, b).Err? <==>
      exists k :: HasKey(a.entries, k) && HasKey(b.entries, k)
        && Merge(Lookup(a.entries, k).value, Lookup(b.entries, k).value).Err?
  {
    var ae, be := a.entries, b.entries;
    MergeEntriesFacts(ae, b, 0);
    if Merge(a, b).Err? {
      var j :| 0 <= j < |be| && HasKey(ae, be[j].key) && Merge(Lookup(ae, be[j].key).value, be[j].value).Err?;
      LookupAt(be, j);
    }
    if exists k :: HasKey(ae, k) && HasKey(be, k) && Merge(Lookup(ae, k).value, Lookup(be, k).value).Err? {
      var k :| HasKey(ae, k) && HasKey(be, k) && Merge(Lookup(ae, k).value, Lookup(be, k).value).Err?;
      var j := Find(be, k).value;
      assert FailsFrom(ae, b, 0);
    }
  }

  /** When merging mapping `b` into mapping `a` succeeds, the result is a mapping with
      distinct keys: those of `a` in their places, then the new keys of `b` in `b`'s
      order, and no others. */
  lemma MergeDictKeys(a: Node, b: Node)
    requires a.Dict? && b.Dict? && DistinctKeys(a.entries) && DistinctKeys(b.entries)
    requires Merge(a, b).Ok?
    ensures Merge(a, b).value.Dict?
    ensures var re := Merge(a, b).value.entries;
      && DistinctKeys(re)
      && KeysOf(re) == KeysOf(a.entries) + NewKeys(a.entries, b.entries, 0)
      && (forall k :: HasKey(re, k) <==> HasKey(a.entries, k) || HasKey(b.entries, k))
  {
    var ae, be := a.entries, b.entries;
    MergeEntriesFacts(ae, b, 0);
    var re := Merge(a, b).value.entries;
    NewKeysMembers(ae, be, 0);
    forall k ensures HasKey(re, k) <==> HasKey(ae, k) || HasKey(be, k) {
      KeysOfHasKey(re, k);
      KeysOfHasKey(ae, k);
      assert KeyFrom(be, 0, k) <==> HasKey(be, k);
    }
  }

  /** When merging mapping `b` into mapping `a` succeeds, a key only in `a` keeps its
      value, a key only in `b` takes `b`'s value, and a key in both holds the merge of
      the two values. */
  lemma MergeDictValues(a: Node, b: Node)
    requires a.Dict? && b.Dict? && DistinctKeys(a.entries) && DistinctKeys(b.entries)
    requires Merge(a, b).Ok?
    ensures Merge(a, b).value.Dict?
    ensures var re := Merge(a, b).value.entries;
      && (forall k :: !HasKey(b.entries, k) ==> Lookup(re, k) == Lookup(a.entries, k))
      && (forall k :: HasKey(b.entries, k) && !HasKey(a.entries, k) ==> Lookup(re, k) == Lookup(b.entries, k))
      && (forall k :: HasKey(a.entries, k) && HasKey(b.entries, k) ==>
            HasKey(re, k) && Merge(Lookup(a.entries, k).value, Lookup(b.entries, k).value) == Ok(Lookup(re, k).value))
  {
    var ae, be := a.entries, b.entries;
    MergeEntriesFacts(ae, b, 0);
    var re := Merge(a, b).value.entries;
    forall k | !HasKey(be, k) ensures Lookup(re, k) == Lookup(ae, k) {
      assert !KeyFrom(be, 0, k);
    }
    forall k | HasKey(be, k)
      ensures Lookup(be, k) == Some(be[Find(be, k).value].value)
      ensures MergedAt(ae, re, b, Find(be, k).value)
    {
    }
  }

  /** Merging keeps every mapping's keys distinct, at every depth. */
  lemma {:induction false} MergeWellFormed(a: Node, b: Node)
    requires WellFormed(a) && WellFormed(b) && Merge(a, b).Ok?
    ensures WellFormed(Merge(a, b).value)
    decreases b, 1
  {
    if a.Dict? && b.Dict? {
      EntriesWellFormed(a.entries, b);
    } else if a.List? {
      var items := Merge(a, b).value.items;
      forall i | 0 <= i < |items| ensures WellFormed(items[i]) {
        if i >= |a.items| && b.List? {
          assert items[i] == b.items[i - |a.items|];
        }
      }
    }
  }

  lemma EntriesWellFormed(acc: seq<Entry>, b: Node)
    requires b.Dict? && WellFormed(b) && WellFormed(Dict(acc)) && MergeEntries(acc, b, 0).Ok?
    ensures WellFormed(Dict(MergeEntries(acc, b, 0).value))
    decreases b, 0
  {
    var be := b.entries;
    var re := MergeEntries(acc, b, 0).value;
    MergeEntriesFacts(acc, b, 0);
    forall x | 0 <= x < |re| ensures WellFormed(re[x].value) {
      var k := re[x].key;
      LookupAt(re, x);
      if KeyFrom(be, 0, k) {
        var j :| 0 <= j < |be| && be[j].key == k;
        assert MergedAt(acc, re, b, j);
        if HasKey(acc, k) {
          var y := Find(acc, k).value;
          LookupAt(acc, y);
          assert be[j].value < be[j] < b;
          MergeWellFormed(acc[y].value, be[j].value);
        }
      } else {
        var y := Find(acc, k).value;
        LookupAt(acc, y);
      }
    }
  }
}
