/**
 * config.go: the selection settings of one run and the options that set
 * them. Each option overwrites exactly one field; options are applied one
 * after another, so the last option touching a field decides its value.
 */
module Configuration {

  /** The value of a `config` record. */
  datatype Settings = Settings(env: string, seedMethodNames: seq<string>, skipCommon: bool)

  /** The record `Execute` starts from before any option is applied. */
  const Defaults := Settings("", [], false)

  /** The three `ConfigOption` constructors of config.go. */
  datatype ConfigOption =
    | ForEnv(env: string)
    | ForSpecificSeeds(seedNames: seq<string>)
    | ShouldSkipCommon(value: bool)
  {
    /** The settings after this option has written its field into `s`; every other field is kept. */
    function ApplyTo(s: Settings): (r: Settings)
      ensures ForEnv? ==> r.env == env
      ensures ForSpecificSeeds? ==> r.seedMethodNames == seedNames
      ensures ShouldSkipCommon? ==> r.skipCommon == value
      ensures forall f :: Touches(this, f) || AgreeOn(f, r, s)
    {
      match this
      case ForEnv(e) => s.(env := e)
      case ForSpecificSeeds(ns) => s.(seedMethodNames := ns)
      case ShouldSkipCommon(v) => s.(skipCommon := v)
    }
  }

  /**
   * The settings after applying `options` to `s` in argument order. Each field
   * of the result is the starting one or was written by one of the options.
   */
  function ApplyAll(s: Settings, options: seq<ConfigOption>): (r: Settings)
    ensures r.env == s.env || exists j :: 0 <= j < |options| && options[j] == ForEnv(r.env)
    ensures r.seedMethodNames == s.seedMethodNames
            || exists j :: 0 <= j < |options| && options[j] == ForSpecificSeeds(r.seedMethodNames)
    ensures r.skipCommon == s.skipCommon || exists j :: 0 <= j < |options| && options[j] == ShouldSkipCommon(r.skipCommon)
  {
    if options == [] then s
    else options[|options| - 1].ApplyTo(ApplyAll(s, options[..|options| - 1]))
  }

  /** The fields of a `config` record, to speak of "the option touching a field". */
  datatype Field = EnvField | NamesField | SkipCommonField

  predicate Touches(o: ConfigOption, f: Field)
  {
    match f
    case EnvField => o.ForEnv?
    case NamesField => o.ForSpecificSeeds?
    case SkipCommonField => o.ShouldSkipCommon?
  }

  predicate AgreeOn(f: Field, a: Settings, b: Settings)
  {
    match f
    case EnvField => a.env == b.env
    case NamesField => a.seedMethodNames == b.seedMethodNames
    case SkipCommonField => a.skipCommon == b.skipCommon
  }

  /** The last option touching a field decides that field, whatever came before it. */
  lemma {:induction false} LastOptionWins(s: Settings, options: seq<ConfigOption>, i: nat, f: Field)
    requires i < |options| && Touches(options[i], f)
    requires forall j :: i < j < |options| ==> !Touches(options[j], f)
    ensures AgreeOn(f, ApplyAll(s, options), options[i].ApplyTo(s))
  {
    var n := |options| - 1;
    if i < n {
      assert options[..n][i] == options[i];
      LastOptionWins(s, options[..n], i, f);
    }
  }

  /** A field no option touches keeps its starting value. */
  lemma {:induction false} UntouchedField(s: Settings, options: seq<ConfigOption>, f: Field)
    requires forall j :: 0 <= j < |options| ==> !Touches(options[j], f)
    ensures AgreeOn(f, ApplyAll(s, options), s)
  {
    if options != [] {
      var n := |options| - 1;
      UntouchedField(s, options[..n], f);
    }
  }

  /** The `config` record that `Execute` fills in place through its options. */
  class Config {
    var env: string
    var seedMethodNames: seq<string>
    var skipCommon: bool

    function Value(): Settings
      reads this
    {
      Settings(env, seedMethodNames, skipCommon)
    }

    /** The defaults of seeder.go: no environment, no names, common seeds not skipped. */
    constructor ()
      ensures Value() == Defaults
    {
      env := "";
      seedMethodNames := [];
      skipCommon := false;
    }

    /** Runs one option closure on this record: exactly one field is overwritten. */
    method Apply(o: ConfigOption)
      modifies this
      ensures o.ForEnv? ==> env == o.env && seedMethodNames == old(seedMethodNames) && skipCommon == old(skipCommon)
      ensures o.ForSpecificSeeds? ==> seedMethodNames == o.seedNames && env == old(env) && skipCommon == old(skipCommon)
      ensures o.ShouldSkipCommon? ==> skipCommon == o.value && env == old(env) && seedMethodNames == old(seedMethodNames)
      ensures Value() == o.ApplyTo(old(Value()))
    {
      match o
      case ForEnv(e) => env := e;
      case ForSpecificSeeds(ns) => seedMethodNames := ns;
      case ShouldSkipCommon(v) => skipCommon := v;
    }
  }
}
