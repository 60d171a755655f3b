/**
 * The parts of labgrid's YAML loader that decide what a node becomes:
 * the string constructor's style rule, the OrderedDict built for a mapping
 * together with the duplicate-key scan that warns about it, and the
 * `!include` constructor's path substitution and choice of reader.
 *
 * Reading and parsing the included file are I/O; the included file's text and
 * the parsers are parameters here.
 */
module Loading {
  import opened YamlTree
  import opened StringTemplate
  import Merging

  // ---------------------------------------------------------------------------
  // Scalars.

  /** PyYAML's scalar styles: plain, quoted, literal block (`|`) and folded block (`>`). */
  datatype ScalarStyle = Plain | SingleQuoted | DoubleQuoted | LiteralBlock | FoldedBlock

  /** A `str` scalar becomes a plain string, unless it is written in literal block style,
      in which case it becomes a UserString (which carries its position). */
  function StrConstructor(style: ScalarStyle, value: string): (n: Node)
    ensures n.Str? || n.BlockStr?
    ensures n.s == value
    ensures n.BlockStr? <==> style == LiteralBlock
  {
    if style != LiteralBlock then Str(value) else BlockStr(value)
  }

  /** The style rule is visible to `data_merge`: a literal-block string used as a base is
      rejected, while the same text in any other style is replaced by the override. */
  lemma LiteralBlockNotReplaceable(style: ScalarStyle, value: string, over: Node)
    ensures style == LiteralBlock ==>
      Merging.Merge(StrConstructor(style, value), over)
        == Err(DatatypeNotSupported(KindOf(over), UserStringType))
    ensures style != LiteralBlock ==> Merging.Merge(StrConstructor(style, value), over) == Ok(over)
  {
  }

  // ---------------------------------------------------------------------------
  // Mappings.

  /** The keys `_check_duplicate_dict_keys` warns about, one per occurrence of a key that
      appeared earlier in the same mapping, in order. */
  function Warned(keys: seq<string>): (r: seq<string>)
    ensures |r| <= |keys|
    ensures forall k :: k in r ==> k in keys
  {
    if keys == [] then []
    else
      var prefix := keys[..|keys| - 1];
      Warned(prefix) + if keys[|keys| - 1] in prefix then [keys[|keys| - 1]] else []
  }

  /** The scan as written: a list of seen keys, a warning for each key already in it. */
  method CheckDuplicateDictKeys(keys: seq<string>) returns (warnings: seq<string>)
    ensures warnings == Warned(keys)
  {
    var seen: seq<string> := [];
    warnings := [];
    var i := 0;
    while i < |keys|
      invariant i <= |keys|
      invariant seen == keys[..i]
      invariant warnings == Warned(keys[..i])
    {
      var key := keys[i];
      assert keys[..i + 1][..i] == keys[..i];
      if key in seen {
        warnings := warnings + [key];
      }
      seen := seen + [key];
      i := i + 1;
    }
    assert keys[..i] == keys;
  }

  /** The distinct keys of a sequence. */
  function KeySet(keys: seq<string>): set<string>
  {
    set k | k in keys
  }

  /** Every warning is for a key of the mapping, and there are exactly as many warnings
      as occurrences beyond each key's first. */
  lemma {:induction false} WarnedCount(keys: seq<string>)
    ensures |Warned(keys)| == |keys| - |KeySet(keys)|
    ensures forall k :: k in Warned(keys) ==> k in keys
  {
    if keys != [] {
      var prefix := keys[..|keys| - 1];
      var last := keys[|keys| - 1];
      WarnedCount(prefix);
      assert keys == prefix + [last];
      assert KeySet(keys) == KeySet(prefix) + {last};
      if last in prefix {
        assert Warned(keys) == Warned(prefix) + [last];
        assert KeySet(keys) == KeySet(prefix);
      } else {
        assert Warned(keys) == Warned(prefix);
        assert last !in KeySet(prefix);
        assert |KeySet(keys)| == |KeySet(prefix)| + 1;
      }
    }
  }

  /** No warning at all exactly when the keys are distinct. */
  lemma {:induction false} WarnedNoneIffDistinct(keys: seq<string>)
    ensures Warned(keys) == [] <==> forall i, j :: 0 <= i < j < |keys| ==> keys[i] != keys[j]
  {
    if keys != [] {
      var prefix := keys[..|keys| - 1];
      var last := keys[|keys| - 1];
      WarnedNoneIffDistinct(prefix);
      if Warned(keys) == [] {
        assert Warned(prefix) == [] && last !in prefix;
        forall i, j | 0 <= i < j < |keys| ensures keys[i] != keys[j] {
          if j == |keys| - 1 {
            assert keys[i] == prefix[i];
          } else {
            assert keys[i] == prefix[i] && keys[j] == prefix[j];
          }
        }
      } else if last in prefix {
        var i :| 0 <= i < |prefix| && prefix[i] == last;
        assert keys[i] == keys[|keys| - 1];
      } else {
        var i, j :| 0 <= i < j < |prefix| && prefix[i] == prefix[j];
        assert keys[i] == keys[j];
      }
    }
  }

  /** `OrderedDict(pairs)`: a repeated key keeps its first position and takes its last value. */
  function FromPairs(pairs: seq<Entry>): (es: seq<Entry>)
    ensures DistinctKeys(es)
  {
    if pairs == [] then []
    else
      var last := pairs[|pairs| - 1];
      Put(FromPairs(pairs[..|pairs| - 1]), last.key, last.value)
  }

  /** The value of the last pair with key `k`. */
  function LastValue(pairs: seq<Entry>, k: string): (r: Option<Node>)
    ensures r.Some? <==> HasKey(pairs, k)
  {
    if pairs == [] then None
    else if pairs[|pairs| - 1].key == k then Some(pairs[|pairs| - 1].value)
    else
      var prefix := pairs[..|pairs| - 1];
      assert HasKey(pairs, k) ==> HasKey(prefix, k) by {
        if HasKey(pairs, k) {
          var j :| 0 <= j < |pairs| && pairs[j].key == k;
          assert prefix[j] == pairs[j];
        }
      }
      assert HasKey(prefix, k) ==> HasKey(pairs, k) by {
        if HasKey(prefix, k) {
          var j :| 0 <= j < |prefix| && prefix[j].key == k;
          assert prefix[j] == pairs[j];
        }
      }
      LastValue(prefix, k)
  }

  /** The keys in order of first appearance. */
  function FirstAppearance(keys: seq<string>): (r: seq<string>)
    ensures forall k :: k in r <==> k in keys
  {
    if keys == [] then []
    else
      var prefix := keys[..|keys| - 1];
      var last := keys[|keys| - 1];
      assert keys == prefix + [last];
      FirstAppearance(prefix) + if last in prefix then [] else [last]
  }

  /** A repeated key takes the value of its last pair. */
  lemma {:induction false} FromPairsLookup(pairs: seq<Entry>, k: string)
    ensures Lookup(FromPairs(pairs), k) == LastValue(pairs, k)
  {
    if pairs != [] {
      FromPairsLookup(pairs[..|pairs| - 1], k);
    }
  }

  /** A repeated key keeps the position of its first pair. */
  lemma {:induction false} FromPairsKeys(pairs: seq<Entry>)
    ensures KeysOf(FromPairs(pairs)) == FirstAppearance(KeysOf(pairs))
  {
    if pairs != [] {
      var prefix := pairs[..|pairs| - 1];
      var last := pairs[|pairs| - 1];
      FromPairsKeys(prefix);
      FromPairsLookup(prefix, last.key);
      KeysOfHasKey(prefix, last.key);
      assert KeysOf(pairs)[..|pairs| - 1] == KeysOf(prefix);
    }
  }

  /** Every warning stands for a pair whose entry was overwritten: warnings plus entries
      account for every pair. */
  lemma {:induction false} WarningsCountOverwrites(pairs: seq<Entry>)
    ensures |FromPairs(pairs)| + |Warned(KeysOf(pairs))| == |pairs|
  {
    FromPairsKeys(pairs);
    FirstAppearanceCount(KeysOf(pairs));
  }

  lemma {:induction false} FirstAppearanceCount(keys: seq<string>)
    ensures |FirstAppearance(keys)| + |Warned(keys)| == |keys|
  {
    if keys != [] {
      FirstAppearanceCount(keys[..|keys| - 1]);
    }
  }

  // ---------------------------------------------------------------------------
  // `!include`.

  /** `os.path.join(root, path)` for two components. */
  function Join(root: string, path: string): (r: string)
    ensures |path| > 0 && path[0] == '/' ==> r == path
    ensures |path| <= |r| && r[|r| - |path|..] == path
  {
    if |path| > 0 && path[0] == '/' then path
    else if root == "" || root[|root| - 1] == '/' then root + path
    else root + "/" + path
  }

  /** Index of the last `c` in `p`, or -1. */
  function RFind(p: string, c: char): (r: int)
    ensures -1 <= r < |p|
    ensures r >= 0 ==> p[r] == c
    ensures forall k :: r < k < |p| ==> p[k] != c
  {
    if p == [] then -1
    else if p[|p| - 1] == c then |p| - 1
    else RFind(p[..|p| - 1], c)
  }

  /** Some character of `p[from..to]` is not a dot. */
  predicate NotAllDots(p: string, from: int, to: int)
    requires 0 <= from && to <= |p|
  {
    exists k :: from <= k < to && p[k] != '.'
  }

  /** `os.path.splitext(p)`: the extension starts at the last dot when that dot lies in
      the last path component and is not part of the component's leading dots. */
  function SplitExt(p: string): (r: (string, string))
    ensures r.0 + r.1 == p
  {
    var sep := RFind(p, '/');
    var dot := RFind(p, '.');
    if dot > sep && NotAllDots(p, sep + 1, dot) then (p[..dot], p[dot..]) else (p, "")
  }

  /** `s.lstrip(c)`. */
  function LStrip(s: string, c: char): (r: string)
    ensures |r| <= |s| && s[|s| - |r|..] == r
    ensures r == [] || r[0] != c
  {
    if s != [] && s[0] == c then LStrip(s[1..], c) else s
  }

  /** `os.path.splitext(filename)[1].lstrip('.')`. */
  function Extension(p: string): (r: string)
    ensures |r| <= |p| && p[|p| - |r|..] == r
    ensures r == [] || r[0] != '.'
  {
    LStrip(SplitExt(p).1, '.')
  }

  /** An extension holds no dot and no slash, and is what follows the split-off stem and
      its dot. */
  lemma ExtensionShape(p: string)
    ensures '.' !in Extension(p) && '/' !in Extension(p)
    ensures Extension(p) != "" ==> p == SplitExt(p).0 + "." + Extension(p)
  {
    var sep := RFind(p, '/');
    var dot := RFind(p, '.');
    if dot > sep && NotAllDots(p, sep + 1, dot) {
      assert SplitExt(p) == (p[..dot], p[dot..]);
      DotTail(p, dot);
    } else {
      assert SplitExt(p).1 == "";
    }
  }

  /** What follows the last dot, when no separator comes after it. */
  lemma DotTail(p: string, dot: nat)
    requires dot < |p| && p[dot] == '.'
    requires forall k :: dot < k < |p| ==> p[k] != '.' && p[k] != '/'
    ensures var tail := p[dot + 1..];
      && LStrip(p[dot..], '.') == tail
      && '.' !in tail && '/' !in tail
      && p == p[..dot] + "." + tail
  {
    var tail := p[dot + 1..];
    assert p[dot..] == "." + tail;
    assert forall k :: 0 <= k < |tail| ==> tail[k] == p[dot + 1 + k];
    assert LStrip(tail, '.') == tail;
    assert ("." + tail)[1..] == tail;
    assert p == p[..dot] + ("." + tail);
  }

  /** `stem.ext` has extension `ext` when `stem` ends in a character that is neither a
      slash nor a dot. */
  lemma ExtensionAppend(stem: string, ext: string)
    requires |stem| > 0 && stem[|stem| - 1] != '/' && stem[|stem| - 1] != '.'
    requires '.' !in ext && '/' !in ext
    ensures Extension(stem + "." + ext) == ext
  {
    var p := stem + "." + ext;
    SplitAtStem(stem, ext);
    AppendTail(stem, ext);
    DotTail(p, |stem|);
    assert p[|stem| + 1..] == ext;
  }

  /** Where the stem ends, `splitext` splits `stem + "." + ext`. */
  lemma SplitAtStem(stem: string, ext: string)
    requires |stem| > 0 && stem[|stem| - 1] != '/' && stem[|stem| - 1] != '.'
    requires '.' !in ext && '/' !in ext
    ensures var p := stem + "." + ext; SplitExt(p) == (p[..|stem|], p[|stem|..])
  {
    var p := stem + "." + ext;
    var dot := |stem|;
    AppendTail(stem, ext);
    RFindIs(p, '.', dot);
    RFindBelow(p, '/', dot);
    var sep := RFind(p, '/');
    assert p[dot - 1] == stem[dot - 1];
    assert sep != dot - 1;
    assert NotAllDots(p, sep + 1, dot);
  }

  lemma AppendTail(stem: string, ext: string)
    requires '.' !in ext && '/' !in ext
    ensures var p := stem + "." + ext;
      && p[|stem|] == '.'
      && forall k :: |stem| < k < |p| ==> p[k] != '.' && p[k] != '/'
  {
    var p := stem + "." + ext;
    forall k | |stem| < k < |p| ensures p[k] != '.' && p[k] != '/' {
      assert p[k] == ext[k - |stem| - 1];
    }
  }

  lemma RFindBelow(p: string, c: char, i: nat)
    requires i <= |p|
    requires forall k :: i <= k < |p| ==> p[k] != c
    ensures RFind(p, c) < i
    decreases |p|
  {
    if |p| > i {
      RFindBelow(p[..|p| - 1], c, i);
    }
  }

  /** A name made only of a leading dot and a suffix, such as `.yaml`, has no extension. */
  lemma DotfileHasNoExtension(dir: string, name: string)
    requires '.' !in name && '/' !in name
    ensures Extension(dir + "/." + name) == ""
  {
    var p := dir + "/." + name;
    var sep := |dir|;
    assert p[sep] == '/' && p[sep + 1] == '.';
    forall k | sep + 1 < k < |p| ensures p[k] != '.' && p[k] != '/' {
      assert p[k] == name[k - sep - 2];
    }
    RFindIs(p, '.', sep + 1);
    RFindIs(p, '/', sep);
  }

  lemma RFindIs(p: string, c: char, i: nat)
    requires i < |p| && p[i] == c
    requires forall k :: i < k < |p| ==> p[k] != c
    ensures RFind(p, c) == i
    decreases |p|
  {
    if i < |p| - 1 {
      RFindIs(p[..|p| - 1], c, i);
    }
  }

  /** How an included file is read. */
  datatype Reader = YamlReader | JsonReader | TextReader

  /** `yaml` and `yml` are parsed as YAML, `json` as JSON, anything else read as text. */
  function ReaderFor(ext: string): (k: Reader)
    ensures k == YamlReader <==> ext == "yaml" || ext == "yml"
    ensures k == JsonReader <==> ext == "json"
  {
    if ext == "yaml" || ext == "yml" then YamlReader
    else if ext == "json" then JsonReader
    else TextReader
  }

  /** The file an `!include` names, and how it will be read. */
  datatype IncludeTarget = IncludeTarget(path: string, reader: Reader)

  /** The path template is substituted against the loader's substitutions and joined to
      the including file's directory. A missing variable is reported as "Could not
      resolve key"; a bad placeholder's ValueError goes through unchanged. */
  function ConstructInclude(root: string, tmpl: string, subs: map<string, string>)
    : (r: Result<IncludeTarget, Error>)
    ensures r.Err? && r.error.CouldNotResolveKey? ==> r.error.name !in subs && r.error.name in Idents(tmpl)
    ensures r.Err? ==> r.error.CouldNotResolveKey? || r.error.InvalidPlaceholder?
    ensures r.Ok? <==> Substitute(tmpl, subs).Ok?
    ensures Substitute(tmpl, subs).Err? && Substitute(tmpl, subs).error.Missing? ==>
      r == Err(CouldNotResolveKey(Substitute(tmpl, subs).error.name))
    ensures Substitute(tmpl, subs).Err? && Substitute(tmpl, subs).error.Invalid? ==>
      r == Err(InvalidPlaceholder(Substitute(tmpl, subs).error.at))
    ensures r.Ok? ==>
      && Substitute(tmpl, subs).Ok?
      && r.value.path == Join(root, Substitute(tmpl, subs).value)
      && r.value.reader == ReaderFor(Extension(r.value.path))
  {
    match Substitute(tmpl, subs)
    case Ok(s) =>
      var path := Join(root, s);
      Ok(IncludeTarget(path, ReaderFor(Extension(path))))
    case Err(Missing(name, _)) =>
      MissingIsIdent(tmpl, subs);
      Err(CouldNotResolveKey(name))
    case Err(Invalid(at)) => Err(InvalidPlaceholder(at))
  }

  /** The value the include node becomes, given the file's text and the two parsers. */
  function IncludedValue(target: IncludeTarget, text: string,
                         parseYaml: string -> Node, parseJson: string -> Node): (n: Node)
    ensures target.reader == TextReader ==> n == Str(text)
  {
    match target.reader
    case YamlReader => parseYaml(text)
    case JsonReader => parseJson(text)
    case TextReader => Str(text)
  }

  /** A path without `$` is used as written, whatever the substitutions. */
  lemma LiteralIncludePath(root: string, path: string, subs: map<string, string>)
    requires '$' !in path
    ensures ConstructInclude(root, path, subs)
      == Ok(IncludeTarget(Join(root, path), ReaderFor(Extension(Join(root, path)))))
  {
    EscapeNoDollar(path);
    EscapeRoundTrip(path, subs);
  }

  /** `!include ${LG_THIRD}.yaml` with LG_THIRD set to `third` reads `<root>/third.yaml`
      as YAML. */
  lemma IncludeVarExample(root: string, subs: map<string, string>)
    requires root != "" && root[|root| - 1] != '/'
    requires "LG_THIRD" in subs && subs["LG_THIRD"] == "third"
    ensures ConstructInclude(root, "${LG_THIRD}.yaml", subs)
      == Ok(IncludeTarget(root + "/" + "third.yaml", YamlReader))
  {
    ThirdSubstitute(subs);
    ThirdExtension(root);
    var path := root + "/" + "third.yaml";
    assert Join(root, "third.yaml") == path;
    assert ReaderFor(Extension(path)) == YamlReader;
  }

  lemma ThirdSubstitute(subs: map<string, string>)
    requires "LG_THIRD" in subs && subs["LG_THIRD"] == "third"
    ensures Substitute("${LG_THIRD}.yaml", subs) == Ok("third.yaml")
  {
    assert IsIdent("LG_THIRD");
    assert "${LG_THIRD}.yaml" == "${" + "LG_THIRD" + "}" + ".yaml";
    BracedThenText("LG_THIRD", ".yaml", subs);
    assert "third" + ".yaml" == "third.yaml";
  }

  lemma ThirdExtension(root: string)
    ensures Extension(root + "/" + "third.yaml") == "yaml"
  {
    assert root + "/" + "third.yaml" == (root + "/third") + "." + "yaml";
    ExtensionAppend(root + "/third", "yaml");
  }


  /** `!include ${LG_DOESNOTEXIST}second.yaml` fails with "Could not resolve key" when the
      variable is not set. */
  lemma IncludeUnsetExample(root: string, subs: map<string, string>)
    requires "LG_DOESNOTEXIST" !in subs
    ensures ConstructInclude(root, "${LG_DOESNOTEXIST}second.yaml", subs)
      == Err(CouldNotResolveKey("LG_DOESNOTEXIST"))
  {
    assert IsIdent("LG_DOESNOTEXIST");
    assert "${LG_DOESNOTEXIST}second.yaml" == "${" + "LG_DOESNOTEXIST" + "}" + "second.yaml";
    BracedThenText("LG_DOESNOTEXIST", "second.yaml", subs);
  }
}
