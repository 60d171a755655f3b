/**
 * labgrid's `resolve_templates(data, mapping)`: the second pass over a loaded
 * document. It walks lists and mappings (never tuples, never keys) and
 * replaces every `!template` value by `Template(t).substitute(mapping)` and
 * every `!optional_template` value by `OptionalTemplate(t).substitute(mapping)`.
 *
 * A strict template whose placeholder syntax is bad raises "Invalid template
 * string '<t>'", and one that names a variable the mapping lacks lets the
 * KeyError through. An optional template binds missing variables to '' and
 * lets a bad placeholder's ValueError through unchanged. The top-level value
 * must be a list or a mapping (TypeError otherwise). The first failing
 * template, in document order, decides the error.
 */
module TemplatePass {
  import opened YamlTree
  import opened StringTemplate

  /** The value a strict template is replaced by, or the error its substitution raises. */
  function StrictValue(t: string, m: map<string, string>): (r: Result<Node, Error>)
    ensures r.Ok? <==> Substitute(t, m).Ok?
    ensures r.Ok? ==> r.value == Str(Substitute(t, m).value)
    ensures Substitute(t, m).Err? && Substitute(t, m).error.Invalid? ==>
      r == Err(InvalidTemplateString(t))
    ensures Substitute(t, m).Err? && Substitute(t, m).error.Missing? ==>
      r == Err(UnknownVariable(Substitute(t, m).error.name))
    ensures r.Err? && r.error.UnknownVariable? ==> r.error.name !in m && r.error.name in Idents(t)
  {
    match Substitute(t, m)
    case Ok(s) => Ok(Str(s))
    case Err(Invalid(_)) => Err(InvalidTemplateString(t))
    case Err(Missing(name, _)) =>
      MissingIsIdent(t, m);
      Err(UnknownVariable(name))
  }

  /** How the outcome of `OptionalTemplate.substitute` surfaces: a string, or the bad
      placeholder's ValueError as it is. */
  function FromOptional(res: Result<string, TemplateError>): Result<Node, Error>
  {
    match res
    case Ok(s) => Ok(Str(s))
    case Err(e) => Err(InvalidPlaceholder(e.at))
  }

  /** The value an optional template is replaced by. It agrees with the strict template
      wherever that one does not hit a missing variable. */
  function OptionalValue(t: string, m: map<string, string>): (r: Result<Node, Error>)
    ensures r.Ok? ==> r.value.Str?
    ensures r.Err? ==> r.error.InvalidPlaceholder? && r.error.at < |t| && t[r.error.at] == '$'
    ensures Substitute(t, m).Ok? ==> r == Ok(Str(Substitute(t, m).value))
    ensures Substitute(t, m).Err? && Substitute(t, m).error.Invalid? ==>
      r == Err(InvalidPlaceholder(Substitute(t, m).error.at))
  {
    NeverMissingWithBlanks(t, m);
    var r := FromOptional(Substitute(t, WithBlanks(t, m)));
    if Substitute(t, m).Err? && Substitute(t, m).error.Missing? then r
    else
      OptionalAgreesWithStrict(t, m);
      r
  }

  /** Prefix the resolved items before `i` to the outcome for the rest. */
  function Glue<T>(done: seq<T>, rest: Result<seq<T>, Error>): Result<seq<T>, Error>
  {
    match rest
    case Ok(xs) => Ok(done + xs)
    case Err(e) => Err(e)
  }

  lemma GlueNil<T>(rest: Result<seq<T>, Error>)
    ensures Glue([], rest) == rest
  {
    if rest.Ok? {
      assert [] + rest.value == rest.value;
    }
  }

  lemma GlueGlue<T>(p: seq<T>, q: seq<T>, rest: Result<seq<T>, Error>)
    ensures Glue(p, Glue(q, rest)) == Glue(p + q, rest)
  {
    if rest.Ok? {
      assert p + (q + rest.value) == (p + q) + rest.value;
    }
  }

  /** The value `resolve_templates` leaves in place of `val`. */
  function ResolveNode(val: Node, m: map<string, string>): (r: Result<Node, Error>)
    ensures r.Ok? && val.List? ==> r.value.List?
    ensures r.Ok? && val.Dict? ==> r.value.Dict?
    decreases val, 1
  {
    match val
    case Template(t) => StrictValue(t, m)
    case OptionalTemplate(t) => OptionalValue(t, m)
    case List(_) =>
      (match ResolveItems(val, m, 0)
       case Err(e) => Err(e)
       case Ok(xs) => Ok(List(xs)))
    case Dict(_) =>
      (match ResolveEntries(val, m, 0)
       case Err(e) => Err(e)
       case Ok(es) => Ok(Dict(es)))
    case _ => Ok(val)
  }

  /** The resolved items of a list from the `i`-th on. */
  function ResolveItems(val: Node, m: map<string, string>, i: nat): Result<seq<Node>, Error>
    requires val.List? && i <= |val.items|
    decreases val, 0, |val.items| - i
  {
    if i == |val.items| then Ok([])
    else
      assert val.items[i] < val;
      match ResolveNode(val.items[i], m)
      case Err(e) => Err(e)
      case Ok(x) => Glue([x], ResolveItems(val, m, i + 1))
  }

  /** The resolved entries of a mapping from the `i`-th on; keys are never touched. */
  function ResolveEntries(val: Node, m: map<string, string>, i: nat): Result<seq<Entry>, Error>
    requires val.Dict? && i <= |val.entries|
    decreases val, 0, |val.entries| - i
  {
    if i == |val.entries| then Ok([])
    else
      assert val.entries[i].value < val.entries[i] < val;
      match ResolveNode(val.entries[i].value, m)
      case Err(e) => Err(e)
      case Ok(x) => Glue([Entry(val.entries[i].key, x)], ResolveEntries(val, m, i + 1))
  }

  /** `resolve_templates(data, mapping)`: its result, or the error it raises. */
  function TemplatesResolved(data: Node, m: map<string, string>): (r: Result<Node, Error>)
    ensures !data.List? && !data.Dict? ==> r == Err(TypeError)
    ensures r.Ok? ==> (data.List? && r.value.List?) || (data.Dict? && r.value.Dict?)
  {
    if !data.List? && !data.Dict? then Err(TypeError) else ResolveNode(data, m)
  }

  // ---------------------------------------------------------------------------
  // The walk as the source performs it.

  method ResolveTemplates(data: Node, m: map<string, string>) returns (r: Result<Node, Error>)
    ensures r == TemplatesResolved(data, m)
  {
    if !data.List? && !data.Dict? {
      return Err(TypeError);
    }
    r := ResolveValue(data, m);
  }

  /** What the walk does with one value: substitute a template, descend into a list or
      mapping, leave anything else alone. */
  method ResolveValue(val: Node, m: map<string, string>) returns (r: Result<Node, Error>)
    ensures r == ResolveNode(val, m)
    decreases val, 1
  {
    match val
    case Template(t) =>
      r := StrictValue(t, m);
    case OptionalTemplate(t) =>
      var s := OptionalSubstitute(t, m);
      r := FromOptional(s);
    case List(_) =>
      r := ResolveList(val, m);
    case Dict(_) =>
      r := ResolveDict(val, m);
    case _ =>
      r := Ok(val);
  }

  /** The loop over a list, assigning each resolved item back in place. */
  method ResolveList(val: Node, m: map<string, string>) returns (r: Result<Node, Error>)
    requires val.List?
    ensures r == ResolveNode(val, m)
    decreases val, 0
  {
    var items := val.items;
    var i := 0;
    GlueNil(ResolveItems(val, m, 0));
    while i < |items|
      invariant i <= |items| == |val.items|
      invariant items[i..] == val.items[i..]
      invariant ResolveItems(val, m, 0) == Glue(items[..i], ResolveItems(val, m, i))
    {
      assert items[i] == val.items[i] < val;
      var x := ResolveValue(items[i], m);
      if x.Err? {
        assert ResolveItems(val, m, i) == Err(x.error);
        return Err(x.error);
      }
      GlueGlue(items[..i], [x.value], ResolveItems(val, m, i + 1));
      items := items[i := x.value];
      assert items[..i + 1] == items[..i] + [x.value];
      i := i + 1;
    }
    assert items[..i] == items && items + [] == items;
    assert ResolveItems(val, m, i) == Ok([]);
    r := Ok(List(items));
  }

  /** The loop over a mapping, assigning each resolved value back under its key. */
  method ResolveDict(val: Node, m: map<string, string>) returns (r: Result<Node, Error>)
    requires val.Dict?
    ensures r == ResolveNode(val, m)
    decreases val, 0
  {
    var es := val.entries;
    var i := 0;
    GlueNil(ResolveEntries(val, m, 0));
    while i < |es|
      invariant i <= |es| == |val.entries|
      invariant es[i..] == val.entries[i..]
      invariant ResolveEntries(val, m, 0) == Glue(es[..i], ResolveEntries(val, m, i))
    {
      assert es[i] == val.entries[i];
      assert es[i].value < es[i] < val;
      var x := ResolveValue(es[i].value, m);
      if x.Err? {
        assert ResolveEntries(val, m, i) == Err(x.error);
        return Err(x.error);
      }
      var e := Entry(es[i].key, x.value);
      GlueGlue(es[..i], [e], ResolveEntries(val, m, i + 1));
      es := es[i := e];
      assert es[..i + 1] == es[..i] + [e];
      i := i + 1;
    }
    assert es[..i] == es && es + [] == es;
    assert ResolveEntries(val, m, i) == Ok([]);
    r := Ok(Dict(es));
  }

  // ---------------------------------------------------------------------------
  // What the pass does, stated independently of the walk.

  /** `b` is `a` with every template reachable through lists and mappings replaced by
      its substituted string, and nothing else changed: same list lengths, same keys
      in the same order, the same scalars and tuples. */
  predicate Replaces(a: Node, b: Node, m: map<string, string>)
  {
    match a
    case Template(t) => b.Str? && Substitute(t, m) == Ok(b.s)
    case OptionalTemplate(t) => b.Str? && Substitute(t, WithBlanks(t, m)) == Ok(b.s)
    case List(xs) =>
      && b.List? && |b.items| == |xs|
      && forall j :: 0 <= j < |xs| ==> Replaces(xs[j], b.items[j], m)
    case Dict(es) =>
      && b.Dict? && |b.entries| == |es|
      && forall j :: 0 <= j < |es| ==>
           b.entries[j].key == es[j].key && Replaces(es[j].value, b.entries[j].value, m)
    case _ => b == a
  }

  lemma {:induction false} ResolvedReplaces(a: Node, m: map<string, string>)
    requires ResolveNode(a, m).Ok?
    ensures Replaces(a, ResolveNode(a, m).value, m)
    decreases a, 1
  {
    match a
    case List(xs) => ItemsReplace(a, m, 0);
    case Dict(es) => EntriesReplace(a, m, 0);
    case _ =>
  }

  lemma {:induction false} ItemsReplace(val: Node, m: map<string, string>, i: nat)
    requires val.List? && i <= |val.items| && ResolveItems(val, m, i).Ok?
    ensures |ResolveItems(val, m, i).value| == |val.items| - i
    ensures forall j :: i <= j < |val.items| ==>
      Replaces(val.items[j], ResolveItems(val, m, i).value[j - i], m)
    decreases val, 0, |val.items| - i
  {
    if i < |val.items| {
      assert val.items[i] < val;
      ResolvedReplaces(val.items[i], m);
      ItemsReplace(val, m, i + 1);
    }
  }

  lemma {:induction false} EntriesReplace(val: Node, m: map<string, string>, i: nat)
    requires val.Dict? && i <= |val.entries| && ResolveEntries(val, m, i).Ok?
    ensures |ResolveEntries(val, m, i).value| == |val.entries| - i
    ensures forall j :: i <= j < |val.entries| ==>
      && ResolveEntries(val, m, i).value[j - i].key == val.entries[j].key
      && Replaces(val.entries[j].value, ResolveEntries(val, m, i).value[j - i].value, m)
    decreases val, 0, |val.entries| - i
  {
    if i < |val.entries| {
      assert val.entries[i].value < val.entries[i] < val;
      ResolvedReplaces(val.entries[i].value, m);
      EntriesReplace(val, m, i + 1);
    }
  }

  lemma {:induction false} ReplacesResolved(a: Node, b: Node, m: map<string, string>)
    requires Replaces(a, b, m)
    ensures ResolveNode(a, m) == Ok(b)
    decreases a, 1
  {
    match a
    case Template(t) =>
    case OptionalTemplate(t) =>
    case List(xs) =>
      ReplacedItems(a, b.items, m, 0);
      assert b.items[0..] == b.items;
    case Dict(es) =>
      ReplacedEntries(a, b.entries, m, 0);
      assert b.entries[0..] == b.entries;
    case _ =>
  }

  lemma {:induction false} ReplacedItems(val: Node, bs: seq<Node>, m: map<string, string>, i: nat)
    requires val.List? && i <= |val.items| && |bs| == |val.items|
    requires forall j :: i <= j < |bs| ==> Replaces(val.items[j], bs[j], m)
    ensures ResolveItems(val, m, i) == Ok(bs[i..])
    decreases val, 0, |val.items| - i
  {
    if i < |bs| {
      assert val.items[i] < val;
      ReplacesResolved(val.items[i], bs[i], m);
      ReplacedItems(val, bs, m, i + 1);
      assert bs[i..] == [bs[i]] + bs[i + 1..];
    }
  }

  lemma {:induction false} ReplacedEntries(val: Node, bs: seq<Entry>, m: map<string, string>, i: nat)
    requires val.Dict? && i <= |val.entries| && |bs| == |val.entries|
    requires forall j :: i <= j < |bs| ==>
      bs[j].key == val.entries[j].key && Replaces(val.entries[j].value, bs[j].value, m)
    ensures ResolveEntries(val, m, i) == Ok(bs[i..])
    decreases val, 0, |val.entries| - i
  {
    if i < |bs| {
      assert val.entries[i].value < val.entries[i] < val;
      ReplacesResolved(val.entries[i].value, bs[i].value, m);
      ReplacedEntries(val, bs, m, i + 1);
      assert bs[i..] == [Entry(val.entries[i].key, bs[i].value)] + bs[i + 1..];
    }
  }

  /** The pass succeeds with `b` exactly when `b` replaces every template of `a` by its
      substitution and changes nothing else. */
  lemma ResolveMeansReplace(a: Node, b: Node, m: map<string, string>)
    ensures ResolveNode(a, m) == Ok(b) <==> Replaces(a, b, m)
  {
    if ResolveNode(a, m) == Ok(b) {
      ResolvedReplaces(a, m);
    }
    if Replaces(a, b, m) {
      ReplacesResolved(a, b, m);
    }
  }

  // ---------------------------------------------------------------------------
  // No template survives, and a second pass changes nothing.

  /** No template is reachable through lists and mappings (a tuple is not looked into). */
  predicate Settled(n: Node)
  {
    match n
    case Template(_) => false
    case OptionalTemplate(_) => false
    case List(xs) => forall j :: 0 <= j < |xs| ==> Settled(xs[j])
    case Dict(es) => forall j :: 0 <= j < |es| ==> Settled(es[j].value)
    case _ => true
  }

  lemma {:induction false} ReplacesSettles(a: Node, b: Node, m: map<string, string>)
    requires Replaces(a, b, m)
    ensures Settled(b)
  {
    match a
    case List(xs) =>
      forall j | 0 <= j < |xs| ensures Settled(b.items[j]) {
        ReplacesSettles(xs[j], b.items[j], m);
      }
    case Dict(es) =>
      forall j | 0 <= j < |es| ensures Settled(b.entries[j].value) {
        ReplacesSettles(es[j].value, b.entries[j].value, m);
      }
    case _ =>
  }

  lemma {:induction false} SettledReplacesItself(a: Node, m: map<string, string>)
    requires Settled(a)
    ensures Replaces(a, a, m)
  {
    match a
    case List(xs) =>
      forall j | 0 <= j < |xs| ensures Replaces(xs[j], xs[j], m) {
        SettledReplacesItself(xs[j], m);
      }
    case Dict(es) =>
      forall j | 0 <= j < |es| ensures Replaces(es[j].value, es[j].value, m) {
        SettledReplacesItself(es[j].value, m);
      }
    case _ =>
  }

  /** After a successful pass no template is left in any list or mapping. */
  lemma NoTemplateSurvives(a: Node, m: map<string, string>)
    requires ResolveNode(a, m).Ok?
    ensures Settled(ResolveNode(a, m).value)
  {
    ResolvedReplaces(a, m);
    ReplacesSettles(a, ResolveNode(a, m).value, m);
  }

  /** A tree without templates comes back unchanged, whatever the mapping. */
  lemma SettledUnchanged(a: Node, m: map<string, string>)
    requires Settled(a)
    ensures ResolveNode(a, m) == Ok(a)
  {
    SettledReplacesItself(a, m);
    ReplacesResolved(a, a, m);
  }

  /** Resolving twice is resolving once, even against another mapping. */
  lemma ResolveIdempotent(a: Node, m: map<string, string>, m': map<string, string>)
    requires ResolveNode(a, m).Ok?
    ensures ResolveNode(ResolveNode(a, m).value, m') == ResolveNode(a, m)
  {
    NoTemplateSurvives(a, m);
    SettledUnchanged(ResolveNode(a, m).value, m');
  }

  // ---------------------------------------------------------------------------
  // When it fails.

  /** Some template reachable through lists and mappings fails to substitute. */
  predicate SomeTemplateFails(a: Node, m: map<string, string>)
  {
    match a
    case Template(t) => Substitute(t, m).Err?
    case OptionalTemplate(t) => Substitute(t, WithBlanks(t, m)).Err?
    case List(xs) => exists j :: 0 <= j < |xs| && SomeTemplateFails(xs[j], m)
    case Dict(es) => exists j :: 0 <= j < |es| && SomeTemplateFails(es[j].value, m)
    case _ => false
  }

  lemma {:induction false} ReplacesNoFailure(a: Node, b: Node, m: map<string, string>)
    requires Replaces(a, b, m)
    ensures !SomeTemplateFails(a, m)
  {
    match a
    case List(xs) =>
      forall j | 0 <= j < |xs| ensures !SomeTemplateFails(xs[j], m) {
        ReplacesNoFailure(xs[j], b.items[j], m);
      }
    case Dict(es) =>
      forall j | 0 <= j < |es| ensures !SomeTemplateFails(es[j].value, m) {
        ReplacesNoFailure(es[j].value, b.entries[j].value, m);
      }
    case _ =>
  }

  lemma {:induction false} NoFailureResolves(a: Node, m: map<string, string>)
    requires !SomeTemplateFails(a, m)
    ensures ResolveNode(a, m).Ok?
    decreases a, 1
  {
    match a
    case List(xs) => NoFailureItems(a, m, 0);
    case Dict(es) => NoFailureEntries(a, m, 0);
    case _ =>
  }

  lemma {:induction false} NoFailureItems(val: Node, m: map<string, string>, i: nat)
    requires val.List? && i <= |val.items|
    requires forall j :: i <= j < |val.items| ==> !SomeTemplateFails(val.items[j], m)
    ensures ResolveItems(val, m, i).Ok?
    decreases val, 0, |val.items| - i
  {
    if i < |val.items| {
      assert val.items[i] < val;
      NoFailureResolves(val.items[i], m);
      NoFailureItems(val, m, i + 1);
    }
  }

  lemma {:induction false} NoFailureEntries(val: Node, m: map<string, string>, i: nat)
    requires val.Dict? && i <= |val.entries|
    requires forall j :: i <= j < |val.entries| ==> !SomeTemplateFails(val.entries[j].value, m)
    ensures ResolveEntries(val, m, i).Ok?
    decreases val, 0, |val.entries| - i
  {
    if i < |val.entries| {
      assert val.entries[i].value < val.entries[i] < val;
      NoFailureResolves(val.entries[i].value, m);
      NoFailureEntries(val, m, i + 1);
    }
  }

  /** The pass fails exactly when some template in a list or mapping fails. */
  lemma FailsIffSomeTemplateFails(a: Node, m: map<string, string>)
    ensures ResolveNode(a, m).Err? <==> SomeTemplateFails(a, m)
  {
    if ResolveNode(a, m).Ok? {
      ResolvedReplaces(a, m);
      ReplacesNoFailure(a, ResolveNode(a, m).value, m);
    } else if !SomeTemplateFails(a, m) {
      NoFailureResolves(a, m);
    }
  }

  /** An optional template never reports a missing variable. */
  lemma OptionalNeverUnknown(a: Node, m: map<string, string>)
    requires a.OptionalTemplate?
    ensures !(ResolveNode(a, m).Err? && ResolveNode(a, m).error.UnknownVariable?)
  {
  }

  // ---------------------------------------------------------------------------
  // The documented cases.

  /** `string: !template $` fails as an invalid template string. */
  lemma BarePlaceholderExample(m: map<string, string>)
    ensures TemplatesResolved(Dict([Entry("string", Template("$"))]), m)
      == Err(InvalidTemplateString("$"))
  {
  }

  /** `string: !template ${INVALID}` names an unknown variable. */
  lemma UnknownKeyExample(m: map<string, string>)
    requires "INVALID" !in m
    ensures TemplatesResolved(Dict([Entry("string", Template("${INVALID}"))]), m)
      == Err(UnknownVariable("INVALID"))
  {
    var ps := [Braced("INVALID")];
    assert Render(ps) == "${INVALID}";
    SubstituteRender(ps, m);
    assert Expand(ps, m, 0) == Err(Missing("INVALID", 2));
    SingleMissing("string", "${INVALID}", m);
  }

  /** A one-entry mapping whose template misses a variable fails naming that variable. */
  lemma SingleMissing(key: string, t: string, m: map<string, string>)
    requires Substitute(t, m).Err? && Substitute(t, m).error.Missing?
    ensures TemplatesResolved(Dict([Entry(key, Template(t))]), m)
      == Err(UnknownVariable(Substitute(t, m).error.name))
  {
    var d := Dict([Entry(key, Template(t))]);
    var e := UnknownVariable(Substitute(t, m).error.name);
    assert ResolveNode(d.entries[0].value, m) == Err(e);
    assert ResolveEntries(d, m, 0) == Err(e);
  }

  /** `string: !template ${BASE}/suffix` becomes the value of BASE followed by `/suffix`. */
  lemma BracedExample(base: string)
    ensures TemplatesResolved(Dict([Entry("string", Template("${BASE}/suffix"))]), map["BASE" := base])
      == Ok(Dict([Entry("string", Str(base + "/suffix"))]))
  {
    var m := map["BASE" := base];
    assert IsIdent("BASE");
    assert "${BASE}/suffix" == "${" + "BASE" + "}" + "/suffix";
    BracedThenText("BASE", "/suffix", m);
    var d := Dict([Entry("string", Template("${BASE}/suffix"))]);
    var v := Str(base + "/suffix");
    assert ResolveNode(d.entries[0].value, m) == Ok(v);
    var e := Entry(d.entries[0].key, v);
    assert ResolveEntries(d, m, 1) == Ok([]);
    assert [e] + [] == [e];
    assert ResolveEntries(d, m, 0) == Ok([e]);
  }

}
