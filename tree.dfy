/**
 * The document tree produced by labgrid's YAML loader, as a value.
 *
 * A mapping is an ordered sequence of entries (Python dicts keep insertion
 * order); a loaded mapping never repeats a key, which `DistinctKeys` states.
 * The loader's special objects each get their own variant: a block-style
 * (`|`) string is a `UserString` rather than a `str`, `!!python/tuple`
 * builds a tuple, and `!template` / `!optional_template` leave a template
 * object in the tree until the template pass replaces it.
 */
module YamlTree {

  datatype Option<+T> = None | Some(value: T)

  datatype Result<+T, +E> = Ok(value: T) | Err(error: E)

  datatype Node =
    | Null
    | Bool(b: bool)
    | Int(i: int)
    | Float(f: real)
    | Str(s: string)
    | BlockStr(s: string)               // UserString built for a `|` scalar
    | List(items: seq<Node>)
    | Dict(entries: seq<Entry>)
    | Tuple(elems: seq<Node>)           // built by the python/tuple constructor
    | Template(tmpl: string)            // `!template`
    | OptionalTemplate(tmpl: string)    // `!optional_template`

  datatype Entry = Entry(key: string, value: Node)

  /** The Python type of a node, as named in error messages. */
  datatype Kind =
    | NoneType | BoolType | IntType | FloatType | StrType | UserStringType
    | ListType | DictType | TupleType | TemplateType | OptionalTemplateType

  function KindOf(n: Node): Kind
  {
    match n
    case Null => NoneType
    case Bool(_) => BoolType
    case Int(_) => IntType
    case Float(_) => FloatType
    case Str(_) => StrType
    case BlockStr(_) => UserStringType
    case List(_) => ListType
    case Dict(_) => DictType
    case Tuple(_) => TupleType
    case Template(_) => TemplateType
    case OptionalTemplate(_) => OptionalTemplateType
  }

  /** The exceptions the resolution pipeline can raise. */
  datatype Error =
    | TypeError                                    // "Expected list or dict", or a value that is not iterable
    | DatatypeNotSupported(from: Kind, into: Kind) // InvalidConfigError raised by data_merge
    | InvalidTemplateString(tmpl: string)          // ValueError re-raised for a strict template
    | InvalidPlaceholder(at: nat)                  // ValueError straight from Template.substitute
    | UnknownVariable(name: string)                // KeyError from Template.substitute
    | CouldNotResolveKey(name: string)             // InvalidConfigError from an include path

  function KeysOf(es: seq<Entry>): (ks: seq<string>)
    ensures |ks| == |es|
    ensures forall i :: 0 <= i < |es| ==> ks[i] == es[i].key
  {
    if es == [] then [] else [es[0].key] + KeysOf(es[1..])
  }

  lemma KeysOfHasKey(es: seq<Entry>, k: string)
    ensures k in KeysOf(es) <==> HasKey(es, k)
  {
    if k in KeysOf(es) {
      var i :| 0 <= i < |KeysOf(es)| && KeysOf(es)[i] == k;
      assert es[i].key == k;
    }
  }

  predicate HasKey(es: seq<Entry>, k: string)
  {
    exists i :: 0 <= i < |es| && es[i].key == k
  }

  predicate DistinctKeys(es: seq<Entry>)
  {
    forall i, j :: 0 <= i < j < |es| ==> es[i].key != es[j].key
  }

  /** Index of the first entry with key `k` (Python's `k in d` / `d[k]`). */
  function Find(es: seq<Entry>, k: string): (r: Option<nat>)
    ensures r.Some? ==> r.value < |es| && es[r.value].key == k
    ensures r.Some? ==> forall i :: 0 <= i < r.value ==> es[i].key != k
    ensures r.None? <==> !HasKey(es, k)
  {
    if es == [] then None
    else if es[0].key == k then Some(0)
    else match Find(es[1..], k)
      case None => None
      case Some(j) => Some(j + 1)
  }

  function Lookup(es: seq<Entry>, k: string): (r: Option<Node>)
    ensures r.Some? <==> HasKey(es, k)
  {
    match Find(es, k)
    case None => None
    case Some(j) => Some(es[j].value)
  }

  lemma LookupAt(es: seq<Entry>, i: nat)
    requires DistinctKeys(es) && i < |es|
    ensures Lookup(es, es[i].key) == Some(es[i].value)
  {
    var r := Find(es, es[i].key);
    assert r.Some?;
  }

  /** `d[k] = v`: overwrite in place when `k` is present, otherwise append. */
  function Put(es: seq<Entry>, k: string, v: Node): (r: seq<Entry>)
    ensures DistinctKeys(es) ==> DistinctKeys(r)
    ensures Lookup(r, k) == Some(v)
    ensures forall k' :: k' != k ==> Lookup(r, k') == Lookup(es, k')
    ensures KeysOf(r) == if HasKey(es, k) then KeysOf(es) else KeysOf(es) + [k]
  {
    match Find(es, k)
    case Some(j) =>
      var r := es[j := Entry(k, v)];
      forall k' ensures Find(r, k') == Find(es, k') {
        FindSameKeys(es, r, k');
      }
      assert KeysOf(r) == KeysOf(es);
      r
    case None =>
      var r := es + [Entry(k, v)];
      assert forall k' :: k' != k ==> Find(r, k') == Find(es, k') by {
        forall k' | k' != k ensures Find(r, k') == Find(es, k') {
          FindAppend(es, Entry(k, v), k');
        }
      }
      FindAppend(es, Entry(k, v), k);
      assert KeysOf(r) == KeysOf(es) + [k];
      r
  }

  lemma FindAppend(es: seq<Entry>, e: Entry, k: string)
    ensures Find(es + [e], k) ==
      if HasKey(es, k) then Find(es, k) else if e.key == k then Some(|es|) else None
  {
    if es != [] {
      assert (es + [e])[1..] == es[1..] + [e];
      FindAppend(es[1..], e, k);
    }
  }

  lemma FindSameKeys(es: seq<Entry>, r: seq<Entry>, k: string)
    requires |r| == |es| && forall i :: 0 <= i < |es| ==> r[i].key == es[i].key
    ensures Find(r, k) == Find(es, k)
  {
    if es != [] {
      FindSameKeys(es[1..], r[1..], k);
    }
  }

  /** `d.pop(k)` for a present key: the entry goes, the others keep their order. */
  function RemoveAt(es: seq<Entry>, j: nat): (r: seq<Entry>)
    requires j < |es|
    ensures |r| == |es| - 1
    ensures forall i :: 0 <= i < j ==> r[i] == es[i]
    ensures forall i :: j <= i < |r| ==> r[i] == es[i + 1]
  {
    es[..j] + es[j + 1..]
  }

  lemma RemoveAtLookup(es: seq<Entry>, j: nat)
    requires DistinctKeys(es) && j < |es|
    ensures DistinctKeys(RemoveAt(es, j))
    ensures !HasKey(RemoveAt(es, j), es[j].key)
    ensures forall k :: k != es[j].key ==> Lookup(RemoveAt(es, j), k) == Lookup(es, k)
  {
    var r := RemoveAt(es, j);
    forall k | k != es[j].key ensures Lookup(r, k) == Lookup(es, k) {
      if HasKey(es, k) {
        var i :| 0 <= i < |es| && es[i].key == k;
        LookupAt(es, i);
        var i' := if i < j then i else i - 1;
        LookupAt(r, i');
      }
    }
  }

  /** Every mapping at every depth has distinct keys, as a loaded document does. */
  predicate WellFormed(n: Node)
  {
    match n
    case List(items) => forall i :: 0 <= i < |items| ==> WellFormed(items[i])
    case Tuple(elems) => forall i :: 0 <= i < |elems| ==> WellFormed(elems[i])
    case Dict(es) => DistinctKeys(es) && forall i :: 0 <= i < |es| ==> WellFormed(es[i].value)
    case _ => true
  }
}
