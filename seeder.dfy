/**
 * seeder.go: the registry of seeders, the two ways of adding to it, the
 * selection of the entries one run executes, and the runner that turns a
 * panicking callback into an error and stops at the first one.
 */
module Seeder {
  import opened Wrappers
  import opened Strings
  import opened Helpers
  import opened Configuration

  /**
   * What calling a seeder's callback does: it returns normally, or it panics
   * with a payload (given here as the text `%+v` prints for it).
   */
  datatype Callback = Returns | Panics(payload: string)

  /** A `clientSeeder`: one registered unit of seeding work. */
  datatype Entry = Entry(env: string, name: string, cb: Callback)

  /** A `Registration` value: name and environment given up front, finished by `Complete`. */
  datatype Registration = Registration(name: string, env: string, completed: bool)

  const AlreadyCompleted := "registration is already completed. You can use one registration only one time"

  // ---------------------------------------------------------------------------
  // Name resolution

  predicate IsAlnum(c: char)
  {
    'a' <= c <= 'z' || 'A' <= c <= 'Z' || '0' <= c <= '9'
  }

  /** Length of the longest run of `[a-zA-Z0-9]` characters at the end of `q`. */
  function AlnumTail(q: string): (n: nat)
    ensures n <= |q|
    ensures forall j :: |q| - n <= j < |q| ==> IsAlnum(q[j])
    ensures n < |q| ==> !IsAlnum(q[|q| - n - 1])
  {
    if q == [] || !IsAlnum(q[|q| - 1]) then 0 else AlnumTail(q[..|q| - 1]) + 1
  }

  /**
   * Whether the pattern `.*\.([a-zA-Z0-9]+$)` matches a qualified function
   * name: a '.' followed by a non-empty alphanumeric run that reaches the end.
   */
  predicate HasSeederName(q: string)
    ensures HasSeederName(q) <==> exists i :: 0 <= i < |q| - 1 && q[i] == '.' && forall j :: i < j < |q| ==> IsAlnum(q[j])
  {
    var n := AlnumTail(q);
    0 < n < |q| && q[|q| - n - 1] == '.'
  }

  /** The captured group of that pattern: the alphanumeric tail after the last '.'. */
  function SeederName(q: string): (name: string)
    requires HasSeederName(q)
    ensures name != [] && forall j :: 0 <= j < |name| ==> IsAlnum(name[j])
    ensures |name| < |q| && q == q[..|q| - |name| - 1] + "." + name
  {
    q[|q| - AlnumTail(q)..]
  }

  lemma {:induction false} AlnumTailOfSuffix(p: string, name: string)
    requires forall j :: 0 <= j < |name| ==> IsAlnum(name[j])
    ensures AlnumTail(p + "." + name) == |name|
  {
    var q := p + "." + name;
    if name != [] {
      var n := |name| - 1;
      assert q[..|q| - 1] == p + "." + name[..n];
      AlnumTailOfSuffix(p, name[..n]);
    } else {
      assert q[|q| - 1] == '.';
    }
  }

  /**
   * Qualifying a name with any package path and resolving it again gives the
   * name back, e.g. "github.com/kristijorgji/goseeder.dummySeeder" gives
   * "dummySeeder".
   */
  lemma QualifiedNameRoundTrip(path: string, name: string)
    requires name != [] && forall j :: 0 <= j < |name| ==> IsAlnum(name[j])
    ensures HasSeederName(path + "." + name)
    ensures SeederName(path + "." + name) == name
  {
    AlnumTailOfSuffix(path, name);
    var q := path + "." + name;
    assert q[|q| - |name|..] == name;
  }

  lemma DummySeederName()
    ensures HasSeederName("github.com/kristijorgji/goseeder.dummySeeder")
    ensures SeederName("github.com/kristijorgji/goseeder.dummySeeder") == "dummySeeder"
  {
    QualifiedNameRoundTrip("github.com/kristijorgji/goseeder", "dummySeeder");
    assert "github.com/kristijorgji/goseeder" + "." + "dummySeeder"
        == "github.com/kristijorgji/goseeder.dummySeeder";
  }

  // ---------------------------------------------------------------------------
  // Selection

  /**
   * The membership test of `Execute`. Without names: every entry when no
   * environment is given, otherwise the entries of that environment and the
   * common ones unless they are skipped. With names: the named entries of the
   * given environment (or of any when none is given); `skipCommon` plays no part.
   */
  predicate Selects(c: Settings, e: Entry)
    ensures c.env == "" && c.seedMethodNames == [] ==> Selects(c, e)
    ensures c.env == e.env && c.seedMethodNames == [] ==> Selects(c, e)
    ensures Selects(c, e) && c.seedMethodNames != [] ==> e.name in c.seedMethodNames
    ensures Selects(c, e) && c.env != "" && e.env != c.env ==> e.env == "" && c.seedMethodNames == [] && !c.skipCommon
  {
    if |c.seedMethodNames| == 0 then
      c.env == "" || c.env == e.env || (e.env == "" && !c.skipCommon)
    else
      e.name in c.seedMethodNames && (c.env == "" || c.env == e.env)
  }

  /** The entries `Execute` walks to, in registry order. */
  function Selection(c: Settings, s: seq<Entry>): (r: seq<Entry>)
    ensures |r| <= |s|
    ensures forall i :: 0 <= i < |r| ==> r[i] in s && Selects(c, r[i])
  {
    if s == [] then [] else (if Selects(c, s[0]) then [s[0]] else []) + Selection(c, s[1..])
  }

  /** Selection keeps order: what comes from an earlier part stays before what comes from a later one. */
  lemma {:induction false} SelectionAppend(c: Settings, a: seq<Entry>, b: seq<Entry>)
    ensures Selection(c, a + b) == Selection(c, a) + Selection(c, b)
  {
    if a == [] {
      assert a + b == b;
    } else {
      assert (a + b)[1..] == a[1..] + b;
      SelectionAppend(c, a[1..], b);
    }
  }

  /** An entry is selected exactly as often as it is registered, if it passes the test, and never otherwise. */
  lemma {:induction false} SelectionCount(c: Settings, s: seq<Entry>, x: Entry)
    ensures multiset(Selection(c, s))[x] == if Selects(c, x) then multiset(s)[x] else 0
  {
    if s != [] {
      SelectionCount(c, s[1..], x);
      assert s == [s[0]] + s[1..];
    }
  }

  lemma SelectionMembership(c: Settings, s: seq<Entry>, x: Entry)
    ensures x in Selection(c, s) <==> x in s && Selects(c, x)
  {
    SelectionCount(c, s, x);
  }

  /** With neither an environment nor names, the selection is the whole registry in registration order. */
  lemma {:induction false} SelectionOfEmptyCriteria(c: Settings, s: seq<Entry>)
    requires c.env == "" && c.seedMethodNames == []
    ensures Selection(c, s) == s
  {
    if s != [] {
      SelectionOfEmptyCriteria(c, s[1..]);
    }
  }

  /** When names are given, the common-seed flag has no effect on the selection. */
  lemma {:induction false} SkipCommonIgnoredWithNames(c: Settings, s: seq<Entry>, skip: bool)
    requires c.seedMethodNames != []
    ensures Selection(c, s) == Selection(c.(skipCommon := skip), s)
  {
    if s != [] {
      SkipCommonIgnoredWithNames(c, s[1..], skip);
    }
  }

  /** Without names, an entry with its own environment is selected iff no environment or that one is given. */
  lemma OtherEnvironmentEntry(c: Settings, s: seq<Entry>, x: Entry)
    requires c.seedMethodNames == [] && x.env != "" && x in s
    ensures x in Selection(c, s) <==> c.env == "" || c.env == x.env
  {
    SelectionMembership(c, s, x);
  }

  /** Without names, a common entry is selected unless an environment is given and common seeds are skipped. */
  lemma CommonEntry(c: Settings, s: seq<Entry>, x: Entry)
    requires c.seedMethodNames == [] && x.env == "" && x in s
    ensures x in Selection(c, s) <==> !(c.env != "" && c.skipCommon)
  {
    SelectionMembership(c, s, x);
  }

  /** With names, a registered entry is selected iff it is named and of the given environment (or any, when none is given). */
  lemma NamedEntry(c: Settings, s: seq<Entry>, x: Entry)
    requires c.seedMethodNames != [] && x in s
    ensures x in Selection(c, s) <==> x.name in c.seedMethodNames && (c.env == "" || c.env == x.env)
  {
    SelectionMembership(c, s, x);
  }

  /** A common seed and a "stage" seed: both run for env "stage"; only the stage seed when common seeds are skipped. */
  lemma StageScenarios()
    ensures var a, b := Entry("", "a", Returns), Entry("stage", "b", Returns);
            Selection(Settings("stage", [], false), [a, b]) == [a, b]
            && Selection(Settings("stage", [], true), [a, b]) == [b]
  {
    var a, b := Entry("", "a", Returns), Entry("stage", "b", Returns);
    var c, skipping := Settings("stage", [], false), Settings("stage", [], true);
    assert [a, b][1..] == [b] && [b][1..] == [];
    assert Selects(c, a) && Selects(c, b) && !Selects(skipping, a) && Selects(skipping, b);
    assert Selection(c, [b]) == [b] + Selection(c, []);
    assert Selection(skipping, [b]) == [b] + Selection(skipping, []);
    assert Selection(c, [a, b]) == [a] + Selection(c, [b]);
    assert Selection(skipping, [a, b]) == [] + Selection(skipping, [b]);
  }

  /** Two common seeds, only "b" named: only "b" runs. */
  lemma NamedScenario()
    ensures var a, b := Entry("", "a", Returns), Entry("", "b", Returns);
            Selection(Settings("", ["b"], false), [a, b]) == [b]
  {
    var a, b := Entry("", "a", Returns), Entry("", "b", Returns);
    var c := Settings("", ["b"], false);
    assert [a, b][1..] == [b] && [b][1..] == [];
    assert "a" != "b" && "a" !in ["b"];
    assert !Selects(c, a) && Selects(c, b);
    assert Selection(c, [b]) == [b] + Selection(c, []);
    assert Selection(c, [a, b]) == [] + Selection(c, [b]);
  }

  /** The environments test: env "secret" runs the common and the secret seed, not the stage seed. */
  lemma SecretEnvironmentScenario()
    ensures var common, secret, stage := Entry("", "common_seed", Returns),
                                          Entry("secret", "secret_env_seed", Returns),
                                          Entry("stage", "stage_env_seed", Returns);
            Selection(Settings("secret", [], false), [common, secret, stage]) == [common, secret]
  {
    var common, secret, stage := Entry("", "common_seed", Returns),
                                 Entry("secret", "secret_env_seed", Returns),
                                 Entry("stage", "stage_env_seed", Returns);
    var c := Settings("secret", [], false);
    assert [common, secret, stage][1..] == [secret, stage];
    assert [secret, stage][1..] == [stage] && [stage][1..] == [];
    assert "stage" != "secret";
    assert Selects(c, common) && Selects(c, secret) && !Selects(c, stage);
    assert Selection(c, [stage]) == [] + Selection(c, []);
    assert Selection(c, [secret, stage]) == [secret] + Selection(c, [stage]);
    assert Selection(c, [common, secret, stage]) == [common] + Selection(c, [secret, stage]);
  }

  // ---------------------------------------------------------------------------
  // Running

  /**
   * `seed`: runs one entry's callback; a panic becomes the error
   * "[name] seed failed: payload" followed by a new line.
   */
  function Seed(e: Entry): (err: Option<string>)
    ensures err.None? <==> e.cb.Returns?
    ensures err.Some? ==> "[" + e.name + "] seed failed: " <= err.value
    ensures err.Some? ==> var m := err.value;
              |m| == |e.name| + |e.cb.payload| + 17 && m[|e.name| + 16..|m| - 1] == e.cb.payload && m[|m| - 1] == '\n'
  {
    match e.cb
    case Returns => None
    case Panics(p) => Some("[" + e.name + "] seed failed: " + p + "\n")
  }

  /** Position of the first entry whose callback panics, or the length when none does. */
  function FirstFailure(sel: seq<Entry>): (k: nat)
    ensures k <= |sel|
    ensures forall j :: 0 <= j < k ==> Seed(sel[j]).None?
    ensures k < |sel| ==> Seed(sel[k]).Some?
  {
    if sel == [] || Seed(sel[0]).Some? then 0 else FirstFailure(sel[1..]) + 1
  }

  /** What a run observably did: the entries whose callbacks were invoked, and the error returned. */
  datatype Report = Report(ran: seq<Entry>, err: Option<string>)

  /**
   * Running selected entries one after another, stopping at the first error:
   * every entry up to and including the first failing one is invoked, and
   * that failure is the result; nil when every entry succeeds.
   */
  function Run(sel: seq<Entry>): (r: Report)
    ensures r.ran <= sel
    ensures r.err.None? <==> forall j :: 0 <= j < |sel| ==> Seed(sel[j]).None?
    ensures r.err.None? ==> r.ran == sel
    ensures r.err.Some? ==> |r.ran| > 0 && Seed(r.ran[|r.ran| - 1]) == r.err
    ensures forall j :: 0 <= j < |r.ran| - 1 ==> Seed(r.ran[j]).None?
  {
    var k := FirstFailure(sel);
    if k == |sel| then Report(sel, None) else Report(sel[..k + 1], Seed(sel[k]))
  }

  lemma {:induction false} RunAllSucceed(sel: seq<Entry>)
    requires forall j :: 0 <= j < |sel| ==> Seed(sel[j]).None?
    ensures Run(sel) == Report(sel, None)
  {
  }

  lemma RunStopsAt(done: seq<Entry>, x: Entry, rest: seq<Entry>)
    requires forall j :: 0 <= j < |done| ==> Seed(done[j]).None?
    requires Seed(x).Some?
    ensures Run(done + [x] + rest) == Report(done + [x], Seed(x))
  {
    var sel := done + [x] + rest;
    var k := FirstFailure(sel);
    assert sel[|done|] == x;
    assert k == |done|;
    assert sel[..k + 1] == done + [x];
  }

  /** A seeder that panics between two healthy ones: the first two run, the third does not. */
  lemma FailureStopsTheRun(before: Entry, failing: Entry, after: Entry)
    requires before.cb.Returns? && failing.cb.Panics? && after.cb.Returns?
    ensures Run([before, failing, after]) == Report([before, failing], Seed(failing))
  {
    assert Seed(before).None?;
    RunStopsAt([before], failing, [after]);
    assert [before] + [failing] + [after] == [before, failing, after];
    assert [before] + [failing] == [before, failing];
  }

  /** One more entry of the registry walked: the selection so far grows by it if it is selected. */
  lemma SelectionStep(c: Settings, s: seq<Entry>, k: nat)
    requires k < |s|
    ensures Selection(c, s[..k + 1]) == Selection(c, s[..k]) + if Selects(c, s[k]) then [s[k]] else []
  {
    SelectionAppend(c, s[..k], [s[k]]);
    assert s[..k + 1] == s[..k] + [s[k]];
  }

  /** The walk reaching a selected, failing entry with every earlier selected one done yields the whole run. */
  lemma RunFromStep(c: Settings, s: seq<Entry>, k: nat)
    requires k < |s| && Selects(c, s[k]) && Seed(s[k]).Some?
    requires forall j :: 0 <= j < |Selection(c, s[..k])| ==> Seed(Selection(c, s[..k])[j]).None?
    ensures Run(Selection(c, s)) == Report(Selection(c, s[..k]) + [s[k]], Seed(s[k]))
  {
    SelectionStep(c, s, k);
    SelectionAppend(c, s[..k + 1], s[k + 1..]);
    assert s == s[..k + 1] + s[k + 1..];
    RunStopsAt(Selection(c, s[..k]), s[k], Selection(c, s[k + 1..]));
  }

  // ---------------------------------------------------------------------------
  // The registry

  /** The process-wide `seeders` slice, made an explicit object. */
  class Registry {
    var seeders: seq<Entry>

    constructor ()
      ensures seeders == []
    {
      seeders := [];
    }

    /**
     * `Registration.Complete`. The receiver is a copy, so the caller's value is
     * never changed: the error comes only from a value already marked completed.
     */
    method Complete(r: Registration, cb: Callback) returns (err: Option<string>)
      modifies this
      ensures r.completed ==> err == Some(AlreadyCompleted) && seeders == old(seeders)
      ensures !r.completed ==> err == None && seeders == old(seeders) + [Entry(r.env, r.name, cb)]
    {
      if r.completed {
        return Some(AlreadyCompleted);
      }
      seeders := seeders + [Entry(r.env, r.name, cb)];
      // `r.completed = true` writes to the receiver's copy and is lost on return.
      return None;
    }

    /** `RegisterForEnv`, taking the callback's qualified function name as `qualifiedName`. */
    method RegisterForEnv(env: string, qualifiedName: string, cb: Callback)
      requires HasSeederName(qualifiedName)
      modifies this
      ensures seeders == old(seeders) + [Entry(env, SeederName(qualifiedName), cb)]
    {
      var name := SeederName(qualifiedName);
      seeders := seeders + [Entry(env, name, cb)];
    }

    /** `Register`: a common seeder, for every environment. */
    method Register(qualifiedName: string, cb: Callback)
      requires HasSeederName(qualifiedName)
      modifies this
      ensures seeders == old(seeders) + [Entry("", SeederName(qualifiedName), cb)]
    {
      RegisterForEnv("", qualifiedName, cb);
    }

    /** `RegisterForTest`: a seeder of the "test" environment. */
    method RegisterForTest(qualifiedName: string, cb: Callback)
      requires HasSeederName(qualifiedName)
      modifies this
      ensures seeders == old(seeders) + [Entry("test", SeederName(qualifiedName), cb)]
    {
      RegisterForEnv("test", qualifiedName, cb);
    }

    /**
     * `Execute`: applies the options over the defaults, then walks the
     * registry in order and runs each selected entry, returning the first
     * error at once. `ran` lists the entries whose callbacks were invoked.
     */
    method Execute(options: seq<ConfigOption>) returns (ran: seq<Entry>, err: Option<string>)
      ensures Report(ran, err) == Run(Selection(ApplyAll(Defaults, options), seeders))
    {
      var c := new Config();
      var i := 0;
      while i < |options|
        invariant 0 <= i <= |options|
        invariant c.Value() == ApplyAll(Defaults, options[..i])
      {
        c.Apply(options[i]);
        assert options[..i + 1][..i] == options[..i];
        i := i + 1;
      }
      assert options[..i] == options;
      var cfg := c.Value();

      ran := [];
      if |c.seedMethodNames| == 0 {
        var k := 0;
        while k < |seeders|
          invariant 0 <= k <= |seeders|
          invariant ran == Selection(cfg, seeders[..k])
          invariant forall j :: 0 <= j < |ran| ==> Seed(ran[j]).None?
          invariant c.Value() == cfg
        {
          var s := seeders[k];
          SelectionStep(cfg, seeders, k);
          if c.env == "" || c.env == s.env || (s.env == "" && c.skipCommon == false) {
            var e := Seed(s);
            if e.Some? {
              RunFromStep(cfg, seeders, k);
              return ran + [s], e;
            }
            ran := ran + [s];
          }
          k := k + 1;
        }
        assert seeders[..k] == seeders;
        RunAllSucceed(ran);
        return ran, None;
      }

      var k := 0;
      while k < |seeders|
        invariant 0 <= k <= |seeders|
        invariant ran == Selection(cfg, seeders[..k])
        invariant forall j :: 0 <= j < |ran| ==> Seed(ran[j]).None?
        invariant c.Value() == cfg
      {
        var s := seeders[k];
        SelectionStep(cfg, seeders, k);
        var _, found := FindString(c.seedMethodNames, s.name);
        if (c.env == "" || c.env == s.env) && found {
          var e := Seed(s);
          if e.Some? {
            RunFromStep(cfg, seeders, k);
            return ran + [s], e;
          }
          ran := ran + [s];
        }
        k := k + 1;
      }
      assert seeders[..k] == seeders;
      RunAllSucceed(ran);
      return ran, None;
    }

    /**
     * The seeding branch of `WithSeeder`: the names flag is split into a list
     * and `Execute` runs with the environment, that list and the skip flag.
     */
    method SeedFromFlags(env: string, names: string, skipCommon: bool) returns (ran: seq<Entry>, err: Option<string>)
      ensures Report(ran, err) == Run(Selection(Settings(env, SpecifiedSeeders(names), skipCommon), seeders))
    {
      var options := [ForEnv(env), ForSpecificSeeds(SpecifiedSeeders(names)), ShouldSkipCommon(skipCommon)];
      assert options[..2][..1] == [ForEnv(env)] && options[..2] == [ForEnv(env), ForSpecificSeeds(SpecifiedSeeders(names))];
      assert [ForEnv(env)][..0] == [];
      assert ApplyAll(Defaults, options[..1]) == Settings(env, [], false);
      assert ApplyAll(Defaults, options[..2]) == Settings(env, SpecifiedSeeders(names), false);
      assert ApplyAll(Defaults, options) == Settings(env, SpecifiedSeeders(names), skipCommon);
      ran, err := Execute(options);
    }
  }

  /**
   * The list of names built in `WithSeeder`: empty for an empty flag,
   * otherwise the comma-separated pieces, which join back to the flag.
   */
  function SpecifiedSeeders(names: string): (r: seq<string>)
    ensures names == "" ==> r == []
    ensures names != "" ==> |r| == Count(',', names) + 1 && Join(r, ",") == names
    ensures forall i :: 0 <= i < |r| ==> ',' !in r[i]
  {
    if |names| > 0 then (JoinSplit(names, ','); Split(names, ',')) else []
  }

  /** A list of comma-free names written out with commas is read back as the same list. */
  lemma SpecifiedSeedersRoundTrip(list: seq<string>)
    requires |list| >= 1 && list != [""]
    requires forall i :: 0 <= i < |list| ==> ',' !in list[i]
    ensures SpecifiedSeeders(Join(list, ",")) == list
  {
    if |list| > 1 {
      assert Join(list, ",") == list[0] + "," + Join(list[1..], ",");
      assert Join(list, ",")[|list[0]|] == ',';
    }
    SplitJoin(list, ',');
  }

  // ---------------------------------------------------------------------------
  // Reusing a registration

  /** The same `Registration` value completed twice: both calls succeed and the seeder is registered twice. */
  method ReusedRegistrationAsWritten() returns (first: Option<string>, second: Option<string>, count: nat)
    ensures first == None && second == None && count == 2
  {
    var registry := new Registry();
    var r := Registration("test_seed", "", false);
    first := registry.Complete(r, Returns);
    second := registry.Complete(r, Returns);
    count := |registry.seeders|;
  }

  /** A registration completed through a pointer receiver, so that its flag is kept. */
  class RegistrationCell {
    var name: string
    var env: string
    var completed: bool

    constructor (name: string, env: string)
      ensures this.name == name && this.env == env && !completed
    {
      this.name := name;
      this.env := env;
      completed := false;
    }

    /** `Complete` as its documentation describes it: a second call fails and registers nothing. */
    method Complete(registry: Registry, cb: Callback) returns (err: Option<string>)
      modifies this, registry
      ensures old(completed) ==> err == Some(AlreadyCompleted) && registry.seeders == old(registry.seeders)
                                 && completed
      ensures !old(completed) ==> err == None && registry.seeders == old(registry.seeders) + [Entry(env, name, cb)]
                                  && completed
      ensures name == old(name) && env == old(env)
    {
      if completed {
        return Some(AlreadyCompleted);
      }
      registry.seeders := registry.seeders + [Entry(env, name, cb)];
      completed := true;
      return None;
    }
  }

  /** With the pointer receiver, completing the same registration twice fails the second time. */
  method ReusedRegistrationCorrected() returns (first: Option<string>, second: Option<string>, count: nat)
    ensures first == None && second == Some(AlreadyCompleted) && count == 1
  {
    var registry := new Registry();
    var r := new RegistrationCell("test_seed", "");
    first := r.Complete(registry, Returns);
    second := r.Complete(registry, Returns);
    count := |registry.seeders|;
  }
}
