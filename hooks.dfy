/**
 * The decisions labgrid's pytest plugin makes: how `-v` flags raise the live
 * log level without ever lowering it, which environment configuration file a
 * session uses, and which collected test items are skipped because the
 * environment lacks a feature they are marked with.
 *
 * pytest itself, the logging handlers and formatters, and building an
 * `Environment` from its file are not modelled: the values the plugin reads
 * from them are fields or parameters here.
 */
module Hooks {
  import opened YamlTree

  // ---------------------------------------------------------------------------
  // Log levels.

  /** `logging.DEBUG` and `logging.INFO`. */
  const DEBUG: nat := 10
  const INFO: nat := 20
  /** labgrid's own CONSOLE level, between DEBUG and INFO. */
  const CONSOLE: nat := 15

  /** The level `logging.getLevelName` gives for a registered level name. */
  function LevelOfName(s: string): (r: Option<int>)
    ensures r.Some? ==> s != [] && 'A' <= s[0] <= 'Z'
  {
    if s == "CRITICAL" || s == "FATAL" then Some(50)
    else if s == "ERROR" then Some(40)
    else if s == "WARNING" || s == "WARN" then Some(30)
    else if s == "INFO" then Some(INFO)
    else if s == "CONSOLE" then Some(CONSOLE)
    else if s == "DEBUG" then Some(DEBUG)
    else if s == "NOTSET" then Some(0)
    else None
  }

  /** The level the `-v` count asks for: `-vvvv` and more DEBUG, `-vvv` CONSOLE, `-vv`
      INFO, fewer flags nothing. */
  function RequestedLevel(verbosity: int): (r: Option<nat>)
    ensures r.Some? <==> verbosity >= 2
    ensures r.Some? ==> DEBUG <= r.value <= INFO
  {
    if verbosity > 3 then Some(DEBUG)
    else if verbosity > 2 then Some(CONSOLE)
    else if verbosity > 1 then Some(INFO)
    else None
  }

  /** Two or more `-v` flags ask for a level, and more flags never ask for a less verbose
      one. */
  lemma RequestedLevelLadder(v: int, w: int)
    ensures 2 <= v <= w ==> RequestedLevel(w).value <= RequestedLevel(v).value
    ensures v == 2 ==> RequestedLevel(v) == Some(INFO)
    ensures v == 3 ==> RequestedLevel(v) == Some(CONSOLE)
    ensures v >= 4 ==> RequestedLevel(v) == Some(DEBUG)
  {
  }

  // ---------------------------------------------------------------------------
  // Decimal numerals: `str(level)` and reading it back.

  function DigitChar(d: nat): (c: char)
    requires d < 10
    ensures '0' <= c <= '9'
  {
    "0123456789"[d]
  }

  /** `str(n)` for a non-negative `n`. */
  function Decimal(n: nat): (s: string)
    ensures s != []
    ensures forall k :: 0 <= k < |s| ==> '0' <= s[k] <= '9'
  {
    if n < 10 then [DigitChar(n)] else Decimal(n / 10) + [DigitChar(n % 10)]
  }

  /** The value of a non-empty string of decimal digits, or None. */
  function ParseDigits(s: string): (r: Option<nat>)
    ensures r.Some? ==> s != []
  {
    if s == [] || !('0' <= s[|s| - 1] <= '9') then None
    else
      var d := (s[|s| - 1] - '0') as nat;
      if |s| == 1 then Some(d)
      else match ParseDigits(s[..|s| - 1])
        case None => None
        case Some(v) => Some(10 * v + d)
  }

  lemma DigitValue(d: nat)
    requires d < 10
    ensures (DigitChar(d) - '0') as nat == d
  {
  }

  /** Reading back what `str` wrote gives the number. */
  lemma {:induction false} ParseDecimal(n: nat)
    ensures ParseDigits(Decimal(n)) == Some(n)
  {
    DigitValue(n % 10);
    if n >= 10 {
      ParseDecimal(n / 10);
      var s := Decimal(n);
      assert s[..|s| - 1] == Decimal(n / 10);
      assert s[|s| - 1] == DigitChar(n % 10);
    }
  }

  /** A numeral is no level name. */
  lemma DecimalIsNoName(n: nat)
    ensures LevelOfName(Decimal(n)) == None
  {
    var s := Decimal(n);
    assert '0' <= s[0] <= '9';
  }

  // ---------------------------------------------------------------------------
  // Reading the current level.

  /** `int(logging.getLevelName(s))` as the plugin evaluates it: a registered name gives
      its level; for anything else `getLevelName` answers "Level <s>", `int` raises
      ValueError and the plugin takes the level as unset, numerals included. */
  function ParseLevelAsWritten(s: string): (r: Option<int>)
    ensures r.Some? <==> LevelOfName(s).Some?
  {
    LevelOfName(s)
  }

  /** The level a setting stands for: a registered name, or a numeral, which is how pytest
      itself reads `log_cli_level` and how the plugin writes it back. */
  function ParseLevel(s: string): (r: Option<int>)
    ensures LevelOfName(s).Some? ==> r == LevelOfName(s)
    ensures r.None? ==> LevelOfName(s).None? && ParseDigits(s).None?
  {
    if LevelOfName(s).Some? then LevelOfName(s)
    else match ParseDigits(s)
      case None => None
      case Some(v) => Some(v)
  }

  /** Both readings agree on names; only the corrected one reads numerals. */
  lemma ParseLevelReadsNumerals(n: nat)
    ensures ParseLevel(Decimal(n)) == Some(n)
    ensures ParseLevelAsWritten(Decimal(n)).None?
  {
    DecimalIsNoName(n);
    ParseDecimal(n);
  }

  /** Whether the plugin writes `level`: when no level is set, or the set one is less
      verbose (numerically higher). */
  predicate Overrides(current: Option<int>, level: int)
  {
    current.None? || level < current.value
  }

  /** The level in effect after the plugin has offered `level`. */
  function AfterOffer(current: Option<int>, level: int): (r: int)
    ensures r <= level
    ensures current.Some? ==> r <= current.value
    ensures r == level || (current.Some? && r == current.value)
  {
    if Overrides(current, level) then level else current.value
  }

  /** The option value `set_cli_log_level` leaves, with its own reading of the setting. */
  function OptionAfterAsWritten(option: Option<string>, ini: Option<string>, level: nat): (r: Option<string>)
    ensures r == option || r == Some(Decimal(level))
  {
    var setting := EffectiveSetting(option, ini);
    var current := if setting.None? then None else ParseLevelAsWritten(setting.value);
    if Overrides(current, level) then Some(Decimal(level)) else option
  }

  /** `getoption(...) or getini(...)`: an empty option string counts as unset. */
  function EffectiveSetting(option: Option<string>, ini: Option<string>): (r: Option<string>)
    ensures option.Some? && option.value != "" ==> r == option
    ensures (option.None? || option.value == "") ==> r == ini
  {
    if option.Some? && option.value != "" then option else ini
  }

  /** `--log-cli-level=10 -vv`: the plugin reads the numeral "10" as unset and replaces it
      with "20", making the live log less verbose than asked for. */
  lemma NumericLevelOverridden(ini: Option<string>)
    ensures Decimal(10) == "10" && Decimal(INFO) == "20"
    ensures OptionAfterAsWritten(Some("10"), ini, INFO) == Some("20")
    ensures ParseLevel("10") == Some(10) && ParseLevel("20") == Some(20)
  {
    ParseLevelReadsNumerals(10);
    ParseLevelReadsNumerals(20);
  }

  /** pytest's configuration as far as the log level is concerned. */
  class PytestConfig {
    /** The `-v` count. */
    const verbose: int
    /** Whether pytest's logging plugin registered `log_cli_level`; when it did not,
        reading the option raises ValueError. */
    const loggingRegistered: bool
    /** The `log_cli_level` ini setting. */
    const logCliIni: Option<string>
    /** `config.option.log_cli_level`, from `--log-cli-level` or written by the plugin. */
    var logCliOption: Option<string>

    constructor (verbose: int, loggingRegistered: bool, logCliIni: Option<string>, logCliOption: Option<string>)
      ensures this.verbose == verbose && this.loggingRegistered == loggingRegistered
      ensures this.logCliIni == logCliIni && this.logCliOption == logCliOption
    {
      this.verbose := verbose;
      this.loggingRegistered := loggingRegistered;
      this.logCliIni := logCliIni;
      this.logCliOption := logCliOption;
    }

    /** The level in effect, None when none is set or the setting is not a level. */
    function CurrentLevel(): Option<int>
      reads this
    {
      var setting := EffectiveSetting(logCliOption, logCliIni);
      if setting.None? then None else ParseLevel(setting.value)
    }

    /** `set_cli_log_level(level)`: lower the live log level to `level` unless a more
        verbose one is in effect; change nothing when the option cannot be read. */
    method SetCliLogLevel(level: nat)
      modifies this
      ensures !loggingRegistered ==> logCliOption == old(logCliOption)
      ensures loggingRegistered && Overrides(old(CurrentLevel()), level) ==> logCliOption == Some(Decimal(level))
      ensures loggingRegistered && !Overrides(old(CurrentLevel()), level) ==> logCliOption == old(logCliOption)
      ensures loggingRegistered ==> CurrentLevel() == Some(AfterOffer(old(CurrentLevel()), level))
    {
      if !loggingRegistered {
        return;
      }
      var current := CurrentLevel();
      if Overrides(current, level) {
        logCliOption := Some(Decimal(level));
        ParseLevelReadsNumerals(level);
      }
    }

    /** `pytest_cmdline_main`: offer the level the `-v` count asks for, if any. */
    method CmdlineMain()
      modifies this
      ensures RequestedLevel(verbose).None? || !loggingRegistered ==> logCliOption == old(logCliOption)
      ensures RequestedLevel(verbose).Some? && loggingRegistered ==>
        (Overrides(old(CurrentLevel()), RequestedLevel(verbose).value) ==>
           logCliOption == Some(Decimal(RequestedLevel(verbose).value)))
      ensures RequestedLevel(verbose).Some? && loggingRegistered ==>
        (!Overrides(old(CurrentLevel()), RequestedLevel(verbose).value) ==>
           logCliOption == old(logCliOption))
      ensures RequestedLevel(verbose).Some? && loggingRegistered ==>
        CurrentLevel() == Some(AfterOffer(old(CurrentLevel()), RequestedLevel(verbose).value))
    {
      if verbose > 3 {
        SetCliLogLevel(DEBUG);
      } else if verbose > 2 {
        SetCliLogLevel(CONSOLE);
      } else if verbose > 1 {
        SetCliLogLevel(INFO);
      }
    }
  }

  /** Offering a level never makes the live log less verbose, and the level in effect
      afterwards is at least as verbose as the one offered. */
  lemma NeverLessVerbose(current: Option<int>, level: nat)
    ensures current.Some? ==> AfterOffer(current, level) <= current.value
    ensures AfterOffer(current, level) <= level
    ensures AfterOffer(current, level) == (if current.Some? && current.value <= level then current.value else level)
  {
  }

  // ---------------------------------------------------------------------------
  // Choosing the environment configuration.

  /** The configuration file chosen, whether the deprecated option was used (and warned
      about), and the coordinator address handed to the environment. */
  datatype EnvChoice = EnvChoice(file: Option<string>, deprecationWarning: bool, coordinator: Option<string>)

  /** `--lg-env`, else the deprecated `--env-config`, else `LG_ENV` from the process
      environment, else none; `--lg-coordinator` only matters when there is a file. */
  function SelectEnvConfig(lgEnv: Option<string>, envConfig: Option<string>, lgEnvVariable: Option<string>,
                           lgCoordinator: Option<string>): (r: EnvChoice)
    ensures r.deprecationWarning <==> lgEnv.None? && envConfig.Some?
    ensures r.file.None? <==> lgEnv.None? && envConfig.None? && lgEnvVariable.None?
    ensures r.coordinator == if r.file.Some? then lgCoordinator else None
  {
    var (file, warned) :=
      if lgEnv.Some? then (lgEnv, false)
      else if envConfig.Some? then (envConfig, true)
      else (lgEnvVariable, false);
    EnvChoice(file, warned, if file.Some? then lgCoordinator else None)
  }

  /** The first of several optional settings that is set. */
  function FirstSet(xs: seq<Option<string>>): Option<string>
  {
    if xs == [] then None else if xs[0].Some? then xs[0] else FirstSet(xs[1..])
  }

  /** The chosen file is the first one given, in order of precedence. */
  lemma SelectEnvConfigPrecedence(lgEnv: Option<string>, envConfig: Option<string>, lgEnvVariable: Option<string>,
                                  lgCoordinator: Option<string>)
    ensures SelectEnvConfig(lgEnv, envConfig, lgEnvVariable, lgCoordinator).file
      == FirstSet([lgEnv, envConfig, lgEnvVariable])
  {
    var xs := [lgEnv, envConfig, lgEnvVariable];
    assert xs[1..] == [envConfig, lgEnvVariable];
    assert xs[1..][1..] == [lgEnvVariable];
    assert FirstSet([lgEnvVariable]) == lgEnvVariable by {
      assert [lgEnvVariable][1..] == [];
    }
  }

  // ---------------------------------------------------------------------------
  // Feature flags.

  /** The first argument of an `lg_feature` marker: a feature name, a list of them, or
      something else. */
  datatype FeatureArg = FeatureName(name: string) | FeatureList(names: seq<string>) | OtherArg

  datatype HookError = UnsupportedFeatureArgument

  /** The features one marker argument names. */
  function ArgFeatures(a: FeatureArg): set<string>
  {
    match a
    case FeatureName(name) => {name}
    case FeatureList(names) => set n | n in names
    case OtherArg => {}
  }

  /** The features an item's markers want, or the error for the first marker whose
      argument is neither a name nor a list. */
  function Wanted(args: seq<FeatureArg>): (r: Result<set<string>, HookError>)
    ensures r.Err? ==> exists i :: 0 <= i < |args| && args[i].OtherArg?
    ensures r.Ok? ==> forall i :: 0 <= i < |args| ==> ArgFeatures(args[i]) <= r.value
  {
    if args == [] then Ok({})
    else if args[0].OtherArg? then Err(UnsupportedFeatureArgument)
    else match Wanted(args[1..])
      case Err(e) => Err(e)
      case Ok(rest) => Ok(ArgFeatures(args[0]) + rest)
  }

  /** The wanted features are exactly those some marker names, and they can be computed
      exactly when every marker has a name or a list. */
  lemma {:induction false} WantedUnion(args: seq<FeatureArg>)
    ensures Wanted(args).Ok? <==> forall i :: 0 <= i < |args| ==> !args[i].OtherArg?
    ensures Wanted(args).Ok? ==>
      forall f :: f in Wanted(args).value <==> exists i :: 0 <= i < |args| && f in ArgFeatures(args[i])
  {
    if args != [] {
      WantedUnion(args[1..]);
      assert forall i :: 1 <= i < |args| ==> args[i] == args[1..][i - 1];
      if Wanted(args).Ok? {
        forall f | f in Wanted(args).value
          ensures exists i :: 0 <= i < |args| && f in ArgFeatures(args[i])
        {
          if f !in ArgFeatures(args[0]) {
            var i :| 0 <= i < |args[1..]| && f in ArgFeatures(args[1..][i]);
            assert f in ArgFeatures(args[i + 1]);
          }
        }
      }
    }
  }

  /** The loop over one item's markers, collecting what they want. */
  method WantedFeatures(args: seq<FeatureArg>) returns (r: Result<set<string>, HookError>)
    ensures r == Wanted(args)
  {
    var want: set<string> := {};
    var i := 0;
    assert args[i..] == args;
    assert Wanted(args).Ok? ==> want + Wanted(args).value == Wanted(args).value;
    while i < |args|
      invariant i <= |args|
      invariant Wanted(args) == Unite(want, Wanted(args[i..]))
    {
      assert args[i..][1..] == args[i + 1..];
      if args[i].OtherArg? {
        return Err(UnsupportedFeatureArgument);
      }
      UniteStep(want, args[i..]);
      want := want + ArgFeatures(args[i]);
      i := i + 1;
    }
    assert args[i..] == [];
    return Ok(want);
  }

  /** Collecting the first marker's features moves them from what remains to what has been
      collected. */
  lemma UniteStep(want: set<string>, args: seq<FeatureArg>)
    requires args != [] && !args[0].OtherArg?
    ensures Unite(want, Wanted(args)) == Unite(want + ArgFeatures(args[0]), Wanted(args[1..]))
  {
    if Wanted(args[1..]).Ok? {
      assert want + (ArgFeatures(args[0]) + Wanted(args[1..]).value)
        == want + ArgFeatures(args[0]) + Wanted(args[1..]).value;
    }
  }

  /** Features collected so far, joined with what the remaining markers want. */
  function Unite(want: set<string>, rest: Result<set<string>, HookError>): Result<set<string>, HookError>
  {
    match rest
    case Err(e) => Err(e)
    case Ok(more) => Ok(want + more)
  }

  /** A skip marker added to an item: the missing features, and whether the reason is
      phrased in the plural ("features ... are not supported"). */
  datatype Skip = Skip(missing: set<string>, plural: bool)

  /** The skip markers an item gets: one when a wanted feature is missing, none otherwise. */
  function SkipFor(want: set<string>, have: set<string>): (r: seq<Skip>)
    ensures |r| <= 1
    ensures r == [] <==> want <= have
  {
    if want - have == {} then
      assert forall f :: f in want ==> f in want - have || f in have;
      []
    else [Skip(want - have, |want - have| != 1)]
  }

  /** An item is skipped exactly when it wants a feature the environment does not have;
      the reason names all of them, singular for one and plural otherwise. */
  lemma SkipForMissing(want: set<string>, have: set<string>)
    ensures SkipFor(want, have) != [] <==> exists f :: f in want && f !in have
    ensures SkipFor(want, have) != [] ==>
      && (forall f :: f in SkipFor(want, have)[0].missing <==> f in want && f !in have)
      && (SkipFor(want, have)[0].plural <==> |SkipFor(want, have)[0].missing| >= 2)
  {
    if want - have != {} {
      var f :| f in want - have;
    } else {
      forall f | f in want ensures f in have {
        assert f !in want - have;
      }
    }
  }

  /** The environment's features and its target's features. */
  datatype Env = Env(features: set<string>, targetFeatures: set<string>)

  function Have(env: Env): set<string>
  {
    env.features + env.targetFeatures
  }

  /** A collected test item: its `lg_feature` markers' first arguments and the skip markers
      added to it. */
  class Item {
    const featureArgs: seq<FeatureArg>
    var skips: seq<Skip>

    constructor (featureArgs: seq<FeatureArg>)
      ensures this.featureArgs == featureArgs && skips == []
    {
      this.featureArgs := featureArgs;
      skips := [];
    }

    /** The loop body for one item: collect what its markers want and add a skip marker
        when some of it is missing from `have`; an unsupported marker argument changes
        nothing and is the error. */
    method MatchFeatures(have: set<string>) returns (failure: Option<HookError>)
      modifies this
      ensures failure.Some? <==> Wanted(featureArgs).Err?
      ensures failure.Some? ==> skips == old(skips)
      ensures failure.None? ==> skips == old(skips) + SkipFor(Wanted(featureArgs).value, have)
    {
      var want := WantedFeatures(featureArgs);
      if want.Err? {
        return Some(want.error);
      }
      var missing := want.value - have;
      if missing != {} {
        skips := skips + [Skip(missing, |missing| != 1)];
      }
      return None;
    }
  }

  /** The position of the first item whose markers cannot be read, or the number of items. */
  function FirstFailing(items: seq<Item>): (n: nat)
    ensures n <= |items|
    ensures forall j :: 0 <= j < n ==> Wanted(items[j].featureArgs).Ok?
    ensures n < |items| ==> Wanted(items[n].featureArgs).Err?
  {
    if items == [] then 0
    else if Wanted(items[0].featureArgs).Err? then 0
    else
      var n := 1 + FirstFailing(items[1..]);
      assert forall j :: 1 <= j < n ==> items[j] == items[1..][j - 1];
      n
  }

  /** The skip markers the pass adds to the item at position `i`. */
  function SkipsAdded(items: seq<Item>, i: nat, have: set<string>): seq<Skip>
    requires i < |items|
  {
    if i < FirstFailing(items) then SkipFor(Wanted(items[i].featureArgs).value, have) else []
  }

  /** `pytest_collection_modifyitems`: without an environment nothing changes; otherwise
      each item, in order, gets a skip marker when it wants a feature the environment
      lacks, until an item with an unsupported marker argument stops the pass with an
      error, leaving it and the items after it untouched. */
  method CollectionModifyItems(env: Option<Env>, items: seq<Item>) returns (failure: Option<HookError>)
    requires forall i, j :: 0 <= i < j < |items| ==> items[i] != items[j]
    modifies set it | it in items
    ensures env.None? ==> failure.None? && forall i :: 0 <= i < |items| ==> items[i].skips == old(items[i].skips)
    ensures env.Some? ==> (failure.Some? <==> FirstFailing(items) < |items|)
    ensures env.Some? ==> forall i :: 0 <= i < |items| ==>
      items[i].skips == old(items[i].skips) + SkipsAdded(items, i, Have(env.value))
  {
    if env.None? {
      return None;
    }
    var have := Have(env.value);
    var i := 0;
    while i < |items|
      invariant i <= FirstFailing(items)
      invariant forall j :: 0 <= j < i ==> items[j].skips == old(items[j].skips) + SkipsAdded(items, j, have)
      invariant forall j :: i <= j < |items| ==> items[j].skips == old(items[j].skips)
    {
      failure := items[i].MatchFeatures(have);
      if failure.Some? {
        return;
      }
      i := i + 1;
    }
    return None;
  }
}
