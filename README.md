# labgrid configuration loading and pytest plugin decisions, in Dafny

This project models two parts of labgrid.

The first is the YAML layer that turns an environment configuration file into a tree. It covers:

- the string constructor's style rule;
- the ordered mapping built for every YAML mapping, and the duplicate-key scan that warns about it;
- the `!include` constructor's path substitution and choice of reader;
- `string.Template` substitution, both strict (`!template`) and optional (`!optional_template`, where a missing variable becomes `''`);
- `data_merge`, which merges one document into another;
- `resolve_includes`, which folds the documents listed under a top-level `includes` key into the document;
- `resolve_templates`, which replaces every template in lists and mappings by its substitution.

The second is the pytest plugin's own decisions:

- how the `-v` count raises the live log level, without ever making it less verbose;
- which environment configuration file a session uses;
- which collected items are skipped because the environment lacks a feature they are marked with.

A loaded document is a value (`YamlTree.Node`). A mapping is an ordered sequence of entries with distinct keys, as Python's insertion-ordered dicts are. Every operation that can raise returns a `Result`, with the exception as its error.

The loops of the source are methods with loop invariants, each proved equal to a specification function:

- `data_merge`'s key loop;
- `resolve_includes`' fold;
- `resolve_templates`' walk;
- the retry loop of `OptionalTemplate.substitute`;
- the duplicate-key scan;
- the plugin's marker and item loops.

The properties the source promises are lemmas about those functions. pytest's configuration and the collected test items are objects whose fields the plugin updates (`Hooks.PytestConfig`, `Hooks.Item`).

Files:

- `tree.dfy`: the document tree, the error kinds, and ordered mappings.
- `template.dfy`: `string.Template` substitution, and a reference meaning for it given by pieces of text, `$$`, `$id` and `${id}`. Also `OptionalTemplate.substitute`.
- `merge.dfy`: `data_merge`.
- `includes.dfy`: `resolve_includes`.
- `resolve.dfy`: `resolve_templates`.
- `loader.dfy`: the string, mapping and `!include` constructors.
- `hooks.dfy`: the pytest hooks.

## Model

| member | source | states |
|---|---|---|
| YamlTree.Find | labgrid/util/yaml.py:157 | `k in d` and `d[k]`: the index found holds `k`, no earlier entry does, and None exactly when no entry has `k` |
| YamlTree.Lookup | labgrid/util/yaml.py:157-158 | a value is found exactly when some entry has the key |
| YamlTree.LookupAt | labgrid/util/yaml.py:157-158 | in a mapping with distinct keys, looking up an entry's key gives that entry's value |
| YamlTree.KeysOfHasKey | labgrid/util/yaml.py:156 | a key is among the mapping's keys exactly when some entry has it |
| YamlTree.Put | labgrid/util/yaml.py:158-160 | `d[k] = v`: afterwards `k` maps to `v`, every other key keeps its value, keys stay distinct, and a new key is appended at the end while an old one keeps its place |
| YamlTree.RemoveAt | labgrid/util/yaml.py:187 | `d.pop(k)`: the entry goes and the others keep their order |
| YamlTree.RemoveAtLookup | labgrid/util/yaml.py:187 | after the pop the key is gone, keys stay distinct and every other key keeps its value |
| StringTemplate.TokenAt | labgrid/util/yaml.py:35-38 | what `string.Template` recognises at a position: text (exactly where there is no `$`), `$$`, a named or braced placeholder inside the text, or an invalid placeholder |
| StringTemplate.IdentEnd | labgrid/util/yaml.py:35-38 | the placeholder name is the longest run of identifier characters, so the character after it is not one |
| StringTemplate.TokenIdent | labgrid/util/yaml.py:35-38 | the name a placeholder token carries is an identifier |
| StringTemplate.Scan | labgrid/util/yaml.py:115 | `Template.substitute`: a KeyError names a variable missing from the mapping, and a ValueError points at a `$` of the template |
| StringTemplate.Substitute | labgrid/util/yaml.py:115 | `Template(t).substitute(m)`: a KeyError names a variable the mapping lacks, and a ValueError points at a `$` of the template |
| StringTemplate.ScanMissing | labgrid/util/yaml.py:115-117 | the KeyError's name is an identifier written in the template at the position reported |
| StringTemplate.MissingIsIdent | labgrid/util/yaml.py:115-117 | the variable a KeyError reports occurs in the template and is missing from the mapping |
| StringTemplate.ScanMonotone | labgrid/util/yaml.py:112-119 | binding more variables changes nothing unless a variable was missing before |
| StringTemplate.WithBlanks | labgrid/util/yaml.py:112-119 | the mapping the retries end with, at most: the caller's bindings kept, plus every identifier of the template bound |
| StringTemplate.OptionalSubstitute | labgrid/util/yaml.py:111-119 | `OptionalTemplate.substitute`: the retry loop terminates, never reports a missing variable, and gives the substitution under the caller's mapping with every missing identifier bound to `''`; the caller's mapping is a value and is left unchanged |
| StringTemplate.BlanksSettle | labgrid/util/yaml.py:113-119 | when the retries stop, the outcome is the one the full blank mapping gives |
| StringTemplate.AddBlank | labgrid/util/yaml.py:116-119 | one retry binds a missing identifier to `''`, keeping the caller's bindings, and the identifiers still unbound shrink, which is why the loop terminates |
| StringTemplate.NeverMissingWithBlanks | labgrid/util/yaml.py:111-119 | with every identifier bound, substitution never raises KeyError |
| StringTemplate.OptionalAgreesWithStrict | labgrid/util/yaml.py:111-119 | where strict substitution succeeds or reports a bad placeholder, the optional one gives the same outcome |
| StringTemplate.RenderPiece | labgrid/util/yaml.py:35 | every piece of a template is written as at least one character |
| StringTemplate.Expand | labgrid/util/yaml.py:115 | the reference meaning of a template written as pieces: it fails only with a variable missing from the mapping |
| StringTemplate.ExpandNamesPiece | labgrid/util/yaml.py:115 | the variable a failed expansion reports is one the pieces name |
| StringTemplate.TokenOfPiece | labgrid/util/yaml.py:35-38 | where a valid piece is written, the scanner finds exactly that piece's token and name |
| StringTemplate.ScanPiece | labgrid/util/yaml.py:115 | scanning a piece does what the reference meaning does with it |
| StringTemplate.ScanLexed | labgrid/util/yaml.py:115 | on text that reads as pieces, substitution equals the reference expansion |
| StringTemplate.RenderLexes | labgrid/util/yaml.py:35 | valid pieces, wherever they are written, read back as themselves |
| StringTemplate.FirstPiece | labgrid/util/yaml.py:35 | the first piece of a rendering is found where it is written |
| StringTemplate.NoRunOn | labgrid/util/yaml.py:35 | after `$id` the text does not continue with an identifier character |
| StringTemplate.SubstituteRender | labgrid/util/yaml.py:35-38 | substituting a template written from valid pieces gives the reference expansion: each variable's value, or a KeyError for the first variable missing, at the place it is written |
| StringTemplate.PieceAt | labgrid/util/yaml.py:35-38 | a `$$`, `$id`, `${id}` or other character the scanner accepts is a well-formed piece, written where it was found, and scanning resumes right after it |
| StringTemplate.PiecesLex | labgrid/util/yaml.py:35-38 | a template the scanner reads without meeting an invalid placeholder is found piece by piece up to its end |
| StringTemplate.LexesRender | labgrid/util/yaml.py:35 | pieces found one after another render exactly the text they cover |
| StringTemplate.LexesValid | labgrid/util/yaml.py:35 | pieces found one after another are well formed: no identifier character follows a `$id` |
| StringTemplate.NoPiecesFails | labgrid/util/yaml.py:115 | a template that cannot be read as pieces fails to substitute under every mapping |
| StringTemplate.ExpandOk | labgrid/util/yaml.py:115 | expanding pieces succeeds exactly when the mapping binds every variable they name |
| StringTemplate.SubstituteOkIff | labgrid/util/yaml.py:115 | substitution succeeds exactly when the template can be written as well-formed pieces whose variables the mapping binds. So any `$` that starts no `$$`, `$id` or `${id}` makes it fail |
| StringTemplate.InvalidMeansNoPieces | labgrid/util/yaml.py:115 | a ValueError is raised only for a template that cannot be written as well-formed pieces |
| StringTemplate.EscapePieces | labgrid/util/yaml.py:115 | doubling every `$` gives valid pieces that expand to the original text under any mapping |
| StringTemplate.EscapeRoundTrip | labgrid/util/yaml.py:115 | substituting an escaped text gives the text back, whatever the mapping |
| StringTemplate.EscapeNoDollar | labgrid/util/yaml.py:115 | text without `$` is a template that stands for itself |
| StringTemplate.BracedThenText | labgrid/util/yaml.py:35-40 | `${id}` followed by text without `$` gives the variable's value followed by the text, or a KeyError for `id` |
| StringTemplate.IdentsOfSuffix | labgrid/util/yaml.py:115 | the identifiers of a text include those of its prefix and of its suffix |
| StringTemplate.PieceIdsInIdents | labgrid/util/yaml.py:115-119 | the variables the pieces name are identifiers of the written template |
| StringTemplate.ExpandWithBlanks | labgrid/util/yaml.py:112-119 | with the missing variables bound to `''`, expansion never fails and gives the blank-filled text |
| StringTemplate.OptionalFillsBlanks | labgrid/util/yaml.py:111-119 | an optional template expands every variable the caller lacks to `''` and never fails |
| Merging.Merge | labgrid/util/yaml.py:149-172 | `data_merge(a, b)`: a mapping base stays a mapping and a list base stays a list. The only error is "Datatype not supported" |
| Merging.DataMerge | labgrid/util/yaml.py:149-172 | the recursive merge as written, with the mapping case done by the key loop, equals `Merge` |
| Merging.Replaceable | labgrid/util/yaml.py:166 | a base that is simply replaced is never a mapping, a list, a tuple or a literal-block string |
| Merging.MergeEntries | labgrid/util/yaml.py:155-160 | the key loop fails only with "Datatype not supported", and keeps the keys it started with, in order, at the front |
| Merging.MergeDicts | labgrid/util/yaml.py:155-160 | the loop over the override's keys equals the specification of the key loop |
| Merging.EntriesStep | labgrid/util/yaml.py:156-160 | one turn of the key loop: a new key is appended, a shared key is merged in place, and a failed merge stops the loop with its error |
| Merging.MergeIntoList | labgrid/util/yaml.py:161-165 | a list base is extended by a list override, in order and keeping duplicates; any other override is appended as a single item |
| Merging.MergeReplaces | labgrid/util/yaml.py:166-167 | a `None`, string, float, int or bool base gives exactly the override |
| Merging.MergeRejects | labgrid/util/yaml.py:168-169 | every other pair fails, and only those fail without a mapping on both sides; the error names the override's type and then the base's |
| Merging.MergeRejectsExamples | labgrid/util/yaml.py:166-169 | a tuple base, a literal-block string base and a mapping base with a scalar override are rejected; a plain string base is replaced |
| Merging.NewKeysMembers | labgrid/util/yaml.py:156-160 | the keys the loop appends are exactly the override's keys the base lacks |
| Merging.MergeEntriesFacts | labgrid/util/yaml.py:155-160 | the key loop keeps keys distinct, appends the new keys in the override's order, merges the shared keys recursively, and fails exactly when some shared key fails to merge |
| Merging.MergeDictFails | labgrid/util/yaml.py:155-160 | merging two mappings fails exactly when some key of both fails to merge |
| Merging.MergeDictKeys | labgrid/util/yaml.py:155-160 | the merged mapping has distinct keys: the base's keys in order, then the new keys in the override's order, and no others |
| Merging.MergeDictValues | labgrid/util/yaml.py:155-160 | a key only the base has keeps its value, a key only the override has takes the override's value, and a shared key holds the merge of the two values |
| Merging.MergeWellFormed | labgrid/util/yaml.py:149-172 | merging keeps every mapping's keys distinct, at every depth |
| Includes.IncludeItems | labgrid/util/yaml.py:188-189 | iterating the `includes` value yields a list's or tuple's items, and an empty mapping or string yields nothing. Anything else raises TypeError: it is not iterable, or its first key or character is neither a list nor a mapping |
| Includes.Resolved | labgrid/util/yaml.py:174-191 | `resolve_includes`: a list comes back unchanged, anything but a list or mapping raises TypeError, and a success is a list or a mapping |
| Includes.Fold | labgrid/util/yaml.py:188-190 | folding the listed documents gives a list or a mapping |
| Includes.ResolveIncludes | labgrid/util/yaml.py:174-191 | the source's pop-then-loop equals `Resolved` |
| Includes.ResolvedFacts | labgrid/util/yaml.py:185-191 | resolution keeps keys distinct at every depth, and a mapping it returns has no `includes` key, even when the included documents had one |
| Includes.Earliest | labgrid/util/yaml.py:188-190 | the value of a key in the first mapping that has it, and None exactly when none does |
| Includes.PrecedenceStep | labgrid/util/yaml.py:190 | merging the result so far into a listed mapping keeps the result's scalar value and otherwise takes the listed one |
| Includes.FoldPrecedence | labgrid/util/yaml.py:188-190 | after the fold a scalar key holds its value from the first of the result so far and the later documents that has it |
| Includes.IncludePrecedence | labgrid/util/yaml.py:185-191 | a scalar key of the resolved mapping comes from the including document if it has the key, else from the first listed document that does |
| Includes.ResolvedTwoIncludes | labgrid/util/yaml.py:185-191 | `includes: [A, B]` resolves A, merges the rest of the document into it, then merges that into the resolved B, stopping at the first error |
| Includes.FoldLists | labgrid/util/yaml.py:188-190 | when every listed document resolves to a list, the fold stacks them last one first and appends the result so far as an item |
| Includes.IncludeLists | labgrid/util/yaml.py:185-191 | when every listed document resolves to a list, the result is the last list's items, and so on back to the first's, then the including document without the key |
| TemplatePass.StrictValue | labgrid/util/yaml.py:209-215 | a `!template` becomes the string its substitution gives. It fails exactly when the substitution fails: a bad placeholder's ValueError is re-raised as "Invalid template string" for that template, and a missing variable becomes a KeyError naming exactly the variable the substitution missed, a variable of the template that the mapping lacks |
| TemplatePass.OptionalValue | labgrid/util/yaml.py:206-207 | an `!optional_template` becomes a string, agrees with strict substitution wherever that succeeds, and its only error is an invalid placeholder at a `$` |
| TemplatePass.ResolveNode | labgrid/util/yaml.py:205-218 | the value the walk leaves in place of a node: a list stays a list, a mapping stays a mapping |
| TemplatePass.TemplatesResolved | labgrid/util/yaml.py:193-218 | `resolve_templates`: anything but a list or mapping raises TypeError, and a success keeps the container's kind |
| TemplatePass.ResolveTemplates | labgrid/util/yaml.py:193-218 | the method equals `TemplatesResolved` |
| TemplatePass.ResolveValue | labgrid/util/yaml.py:205-218 | what the walk does with one value equals `ResolveNode` |
| TemplatePass.ResolveList | labgrid/util/yaml.py:198-218 | the loop that assigns each resolved item back in place equals `ResolveNode` |
| TemplatePass.ResolveDict | labgrid/util/yaml.py:200-218 | the loop that assigns each resolved value back under its key equals `ResolveNode` |
| TemplatePass.ResolvedReplaces | labgrid/util/yaml.py:205-218 | a successful pass replaces each template by its substitution and keeps everything else: shape, keys, order, scalars and tuples |
| TemplatePass.ReplacesResolved | labgrid/util/yaml.py:205-218 | conversely, a tree that replaces the templates that way is what the pass returns |
| TemplatePass.ResolveMeansReplace | labgrid/util/yaml.py:193-218 | the pass succeeds with `b` exactly when `b` replaces every template by its substitution and changes nothing else |
| TemplatePass.ReplacesSettles | labgrid/util/yaml.py:205-218 | a replacement holds no template in any list or mapping |
| TemplatePass.NoTemplateSurvives | labgrid/util/yaml.py:205-218 | after a successful pass no template is left in any list or mapping |
| TemplatePass.SettledUnchanged | labgrid/util/yaml.py:205-218 | a tree without templates comes back unchanged, whatever the mapping |
| TemplatePass.ResolveIdempotent | labgrid/util/yaml.py:193-218 | resolving a resolved tree, even against another mapping, changes nothing |
| TemplatePass.FailsIffSomeTemplateFails | labgrid/util/yaml.py:205-218 | the pass fails exactly when some template in a list or mapping fails to substitute |
| TemplatePass.OptionalNeverUnknown | labgrid/util/yaml.py:206-207 | an optional template never reports a missing variable |
| TemplatePass.BarePlaceholderExample | tests/test_config.py:84-94 | `string: !template $` fails as an invalid template string |
| TemplatePass.UnknownKeyExample | tests/test_config.py:96-105 | `string: !template ${INVALID}` fails naming the unknown variable |
| TemplatePass.SingleMissing | labgrid/util/yaml.py:209-215 | a mapping whose one template misses a variable fails with the KeyError naming the variable the substitution missed |
| TemplatePass.BracedExample | tests/test_config.py:67-82 | `string: !template ${BASE}/suffix` becomes BASE's value followed by `/suffix` |
| Loading.StrConstructor | labgrid/util/yaml.py:83-90 | a string scalar keeps its text, and becomes a UserString exactly when written in literal block style |
| Loading.LiteralBlockNotReplaceable | labgrid/util/yaml.py:83-90 | a literal-block string used as a merge base is rejected, while the same text in any other style is replaced by the override |
| Loading.Warned | labgrid/util/yaml.py:51-59 | the keys warned about are keys of the mapping, at most one warning per key occurrence |
| Loading.CheckDuplicateDictKeys | labgrid/util/yaml.py:51-59 | the scan warns once for each occurrence of a key that appeared earlier, in order |
| Loading.WarnedCount | labgrid/util/yaml.py:51-59 | every warning is for a key of the mapping, and the number of warnings is the number of keys minus the number of distinct keys |
| Loading.WarnedNoneIffDistinct | labgrid/util/yaml.py:51-59 | no warning at all exactly when the keys are distinct |
| Loading.FromPairs | labgrid/util/yaml.py:62-64 | the OrderedDict built from the pairs has distinct keys |
| Loading.FromPairsLookup | labgrid/util/yaml.py:62-64 | a repeated key takes the value of its last pair |
| Loading.FromPairsKeys | labgrid/util/yaml.py:62-64 | the keys stay in order of first appearance |
| Loading.WarningsCountOverwrites | labgrid/util/yaml.py:51-64 | each warning stands for an overwritten pair: entries plus warnings count every pair |
| Loading.Join | labgrid/util/yaml.py:38 | `os.path.join(root, path)`: an absolute path replaces the root, and the result ends with the path |
| Loading.RFind | labgrid/util/yaml.py:41 | the last occurrence of a character: it holds the character and none comes after it |
| Loading.SplitExt | labgrid/util/yaml.py:41 | `os.path.splitext` splits the path into two parts that concatenate back to it |
| Loading.LStrip | labgrid/util/yaml.py:41 | `lstrip('.')` leaves a suffix of the text that does not start with a dot |
| Loading.Extension | labgrid/util/yaml.py:41 | the extension is a suffix of the path and does not start with a dot |
| Loading.ExtensionShape | labgrid/util/yaml.py:41 | an extension holds no dot and no slash, and is what follows the stem and its dot |
| Loading.ExtensionAppend | labgrid/util/yaml.py:41 | `stem.ext` has extension `ext` when the stem ends in neither a slash nor a dot |
| Loading.DotfileHasNoExtension | labgrid/util/yaml.py:41 | a name that is only a leading dot and a suffix, such as `.yaml`, has no extension |
| Loading.ReaderFor | labgrid/util/yaml.py:44-49 | `yaml` and `yml` are parsed as YAML, `json` as JSON, and anything else is read as text |
| Loading.ConstructInclude | labgrid/util/yaml.py:32-49 | the include path is the template substituted with the loader's substitutions and joined to the file's directory, and the reader follows its extension. It fails exactly when the substitution fails: a missing variable fails as "Could not resolve key" naming exactly the variable the substitution missed, an identifier of the path; a bad placeholder's ValueError is not caught and keeps its position |
| Loading.IncludedValue | labgrid/util/yaml.py:43-49 | a file that is neither YAML nor JSON becomes its text |
| Loading.LiteralIncludePath | labgrid/util/yaml.py:35-41 | a path without `$` is used as written, whatever the substitutions |
| Loading.IncludeVarExample | tests/test_config.py:204-238 | `!include ${LG_THIRD}.yaml` with LG_THIRD set to `third` reads `<dir>/third.yaml` as YAML |
| Loading.IncludeUnsetExample | tests/test_config.py:431-460 | `!include ${LG_DOESNOTEXIST}second.yaml` fails with "Could not resolve key" when the variable is unset |
| Hooks.RequestedLevel | labgrid/pytestplugin/hooks.py:40-47 | a level is asked for exactly with two or more `-v` flags, and it lies between DEBUG and INFO |
| Hooks.RequestedLevelLadder | labgrid/pytestplugin/hooks.py:40-47 | two `-v` flags ask for INFO, three for CONSOLE, four or more for DEBUG. More flags never ask for a less verbose level |
| Hooks.LevelOfName | labgrid/pytestplugin/hooks.py:30 | only a registered level name, which starts with a capital letter, has a level |
| Hooks.ParseLevelAsWritten | labgrid/pytestplugin/hooks.py:28-32 | `int(logging.getLevelName(s))` as the plugin reads it: a level exactly for a registered name, otherwise unset |
| Hooks.Decimal | labgrid/pytestplugin/hooks.py:38 | `str(level)` is a non-empty string of digits |
| Hooks.ParseDecimal | labgrid/pytestplugin/hooks.py:38 | reading back the numeral that `str(level)` writes gives the level |
| Hooks.DecimalIsNoName | labgrid/pytestplugin/hooks.py:30 | a numeral is no registered level name |
| Hooks.ParseLevel | labgrid/pytestplugin/hooks.py:28-32 | the corrected reading: a registered name gives its level, and otherwise a numeral gives its value |
| Hooks.ParseLevelReadsNumerals | labgrid/pytestplugin/hooks.py:28-38 | the corrected reading reads back what the plugin writes; the reading as written takes any numeral as unset |
| Hooks.EffectiveSetting | labgrid/pytestplugin/hooks.py:23 | `getoption(...) or getini(...)`: a non-empty option wins, otherwise the ini value |
| Hooks.AfterOffer | labgrid/pytestplugin/hooks.py:35-38 | the level in effect after an offer is the offered one or the current one, and is no less verbose than either |
| Hooks.NeverLessVerbose | labgrid/pytestplugin/hooks.py:35-38 | offering a level never makes the live log less verbose: the result is the more verbose of the two |
| Hooks.OptionAfterAsWritten | labgrid/pytestplugin/hooks.py:22-38 | the option `set_cli_log_level` leaves, as written: unchanged, or the numeral of the offered level |
| Hooks.NumericLevelOverridden | labgrid/pytestplugin/hooks.py:28-38 | with `--log-cli-level=10 -vv` the plugin, as written, replaces "10" by "20", although 10 is the more verbose level |
| Hooks.PytestConfig.SetCliLogLevel | labgrid/pytestplugin/hooks.py:19-38 | corrected reading (see ## Findings): a ValueError on reading changes nothing. Otherwise the option is set to the offered level exactly when no level is in effect or the offered one is more verbose, and the level in effect becomes the more verbose of the two |
| Hooks.PytestConfig.CmdlineMain | labgrid/pytestplugin/hooks.py:40-47 | corrected reading (see ## Findings): with fewer than two `-v` flags, or without the logging plugin, nothing changes. Otherwise the option becomes the numeral of the level the flags ask for exactly when no level is in effect or the asked-for one is more verbose, and is left alone otherwise; the level in effect becomes the more verbose of the two |
| Hooks.SelectEnvConfig | labgrid/pytestplugin/hooks.py:84-101 | `--lg-env`, else `--env-config`, else `LG_ENV`, else none. The deprecation warning is given exactly when `--env-config` is given and `--lg-env` is not, and the coordinator is passed only when there is a file |
| Hooks.SelectEnvConfigPrecedence | labgrid/pytestplugin/hooks.py:88-98 | the chosen file is the first of `--lg-env`, `--env-config` and `LG_ENV` that is set |
| Hooks.Wanted | labgrid/pytestplugin/hooks.py:120-129 | every feature a marker names is wanted, and the error is raised only when some marker argument is neither a string nor a list |
| Hooks.WantedUnion | labgrid/pytestplugin/hooks.py:120-129 | the wanted features are exactly those some marker names, as a string or in a list, and can be computed exactly when every marker argument is a string or a list |
| Hooks.WantedFeatures | labgrid/pytestplugin/hooks.py:120-129 | the loop over an item's markers equals `Wanted`, and raises at the first unsupported argument |
| Hooks.SkipFor | labgrid/pytestplugin/hooks.py:130-140 | at most one skip marker is added, and none exactly when every wanted feature is present |
| Hooks.SkipForMissing | labgrid/pytestplugin/hooks.py:130-140 | an item gets a skip marker exactly when it wants a feature the environment lacks. The marker lists exactly the missing features and is phrased in the plural exactly when two or more are missing |
| Hooks.FirstFailing | labgrid/pytestplugin/hooks.py:119-129 | the position of the first item whose markers raise: every item before it has readable markers |
| Hooks.Item.MatchFeatures | labgrid/pytestplugin/hooks.py:120-140 | one item: an unsupported marker argument changes nothing and is the error; otherwise the item gains the skip markers `SkipFor` gives |
| Hooks.CollectionModifyItems | labgrid/pytestplugin/hooks.py:112-140 | without an environment no item changes. Otherwise each item before the first unsupported marker argument gains a skip exactly when it wants a feature the environment (its own and its target's) lacks. The error is reported exactly when such an argument exists, and later items are untouched |

## Left out

- In-place update and aliasing of the loaded tree. `data_merge`, `resolve_includes` and `resolve_templates` are modelled on values. Updates through YAML anchors shared between two places in a document are therefore not modelled.
- Iteration over a mapping that is changed while it is iterated. `resolve_includes` pops `includes` inside its loop over `data.items()` (labgrid/util/yaml.py:185-187); this is modelled as removing the key and then folding the listed documents. In CPython the next step of that loop raises RuntimeError whenever `includes` is not the mapping's last key, since an `OrderedDict` iterator stops without complaint only after its last key. For a plain dict, such as a document `json.load` returns, it raises even when `includes` is last, since the dict iterator checks the size on every step. That RuntimeError is not modelled: every document with `includes` resolves as if the key were last in an `OrderedDict`.
- The TypeError branch of `data_merge` (labgrid/util/yaml.py:170-171). Its message formats three values into two placeholders, so it could only raise TypeError again. No modelled input reaches it.
- YAML and JSON parsing and the Dumper. These are PyYAML and `json` internals; the included file's text and both parsers are parameters of `Loading.IncludedValue`.
- File I/O and the newline handling of reading a text file.
- `Loading.ConstructInclude`: `os.path.abspath` normalisation (labgrid/util/yaml.py:38) is not modelled. It can change the reader chosen: for the path `x.yaml/.` the source normalises to `x.yaml` and parses YAML, while the model takes the extension of the path as joined, finds none and reads text.
- `warnings.warn` and `logging.info` diagnostics, and the `print` of the current level at labgrid/pytestplugin/hooks.py:26. The duplicate-key scan returns the keys it would warn about.
- The start and end marks of a UserString.
- `includes` is only looked for at the top level of a document. The loop in labgrid/util/yaml.py:185-191 does not descend, and the model follows that code.
- `resolve_templates` does not look into tuples, as in the source.
- Non-string mapping keys and floating-point NaN; keys are strings and floats are reals.
- `string.Template` case folding: identifiers are ASCII letters, digits and `_`, as its pattern allows.
- The `Config` facade and labgrid/config.py are not part of this model.
- labgrid/logging.py is not part of this model. CONSOLE is taken as 15. The proofs use only that DEBUG < CONSOLE < INFO.
- `Hooks.ParseLevel`: lower-case level names, signs, spaces and `_` in numerals are not read, although pytest accepts some of them.
- pytest plumbing: the logging plugin's formatters, StepLogger, ConsoleLoggingReporter, building the `Environment`, `processwrapper` and the config stash. Of these, only the coordinator address passed to the environment is kept.
- `Hooks.CollectionModifyItems` requires the collected items to be distinct objects, as pytest's collection list is.
- `Hooks.FeatureArg`: the elements of a list argument are strings. An `lg_feature` marker without arguments, which raises IndexError, is not modelled.
- The skip reason's text. It prints a Python set, whose order is not defined, so a skip marker is modelled by the set of missing features and whether the reason is plural.

## Findings

| source | as written | input that shows it | evidently intended | confidence | as-written member | corrected member |
|---|---|---|---|---|---|---|
| labgrid/pytestplugin/hooks.py:28-32 | `int(logging.getLevelName(current_level))` is used to read the current level; a numeral such as "10" is not a level name, so `getLevelName` returns "Level 10", `int` raises ValueError and the level is taken as unset | `--log-cli-level=10 -vv`: the option "10" (DEBUG) is replaced by "20" (INFO), making the live log less verbose, against the comment at lines 35-36 | read a numeral as the level it names, as pytest itself does, so an explicit `--log-cli-level=10` is kept | medium, not executed | Hooks.NumericLevelOverridden | Hooks.PytestConfig.SetCliLogLevel |
