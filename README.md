# goseeder: registry, selection and runner

A model of the core of goseeder, a Go library that lets an application
register named database seeders and run some of them, chosen by target
environment or by name. The model covers:

- the registry of seeders (`clientSeeder` entries held in registration
  order). Here it is a `Registry` object with a `seq<Entry>` field, not a
  package-level slice;
- the two ways of registering. `Registration.Complete` is the two-step form.
  `Register`, `RegisterForTest` and `RegisterForEnv` derive the seeder's name
  from the alphanumeric tail of the callback's qualified function name;
- `Execute`: applying the configuration options over the defaults, walking the
  registry in order with one of its two membership tests, and running each
  selected seeder through `seed`, which turns a panic into an error. The walk
  returns the first error at once, so later seeders do not run;
- the configuration record and its three options (config.go);
- the helpers `findString`, `prepareStatement` and `parseValue` (helpers.go);
- the list of names built from the names flag in `WithSeeder`.

Files: `wrappers.dfy` (Option, Result), `strings.dfy` (joining, Go's
`strings.Split` on one character, character counts), `helpers.dfy`,
`config.dfy`, `seeder.dfy`.

Modelling choices:

- A callback is abstracted to what calling it does: `Returns` or
  `Panics(payload)`. The payload is given as the text `%+v` prints for it.
- `Execute` returns, besides the error, `ran`: the entries whose callbacks
  were invoked, in order. This is what the source's tests observe through
  call counts.
- A qualified function name is an input string.
- JSON encoding is a parameter `marshal` of `parseValue` and
  `prepareStatement`. When the encoder fails, `parseValue` panics; the model
  returns `Failure` instead.
- A row to insert is an ordered sequence of (column, value) pairs.
- Go's `int` is taken as 64 bits. Float values are opaque bit patterns, since
  they are only passed through.

Notes on the code's behaviour:

- It stops at the first failing seeder and returns that seeder's error
  (seeder.go:133-135, 147-149). `Seeder.FailureStopsTheRun` states this for
  a failing seeder placed between two healthy ones.
- `parseValue` never reaches its `strconv` conversions (helpers.go:106-116).
  Every non-nil value matches a case of the type switch first, so
  numeric-looking and boolean-looking strings come back unchanged, as the
  tests in helpers_test.go:46-68 expect.
- Completing the same `Registration` value twice does not fail; see
  "## Findings".

## Model

| member | source | states |
|---|---|---|
| `Strings.Split` | seeder.go:71 | `strings.Split` on one character: one more piece than there are separators, and no piece contains the separator |
| `Strings.JoinSplit` | seeder.go:69-72 | joining the pieces of a split back with the separator gives the original text |
| `Strings.SplitJoin` | seeder.go:69-72 | splitting the join of separator-free parts gives the parts back |
| `Helpers.FindString` | helpers.go:36-43 | `found` iff `val` is in the slice; when found, `i` is the first index holding `val`; otherwise `i == -1` |
| `Helpers.FindFirstFish` | helpers_test.go:8-21 | searching "fish" in [dandy, trout, fish, more, fish, ok] gives (2, true) |
| `Helpers.ParseValue` | helpers.go:76-105 | nil and bool/int/int32/int64/float32/float64/string values come back unchanged (strings are not converted); any other value becomes the string of its JSON encoding; an encoder error is a failure with that error; every result is a scalar |
| `Helpers.ParseValueIdempotent` | helpers.go:76-105 | parsing a parsed value gives the same result |
| `Helpers.PrepareStatement` | helpers.go:45-74 | on success the query is `insert into T (k1, k2, ...) values (?, ?, ...)` with the row's keys in order, and the i-th argument is the parsed i-th value; it fails exactly when some value fails to parse, and then with the first such error |
| `Helpers.BuilderStep` | helpers.go:56-67 | each round of a builder appends the next item, behind ", " unless it is the first, so the builder always holds the join of the items so far |
| `Helpers.PlaceholderCount` | helpers.go:56-67 | the placeholder list for n entries holds exactly n question marks |
| `Helpers.StatementShape` | helpers.go:56-67 | for a non-empty row with comma-free keys, the column list and the placeholder list each split into one piece per row entry |
| `Helpers.InsertStatement` | helpers.go:51-71 | the statement starts with `insert into T (` and ends with `values (` + the placeholder list + `)` |
| `Helpers.StatementPlaceholders` | helpers.go:51-71 | the statement holds exactly one more '?' per column than the table name and the column list contribute |
| `Helpers.CategoriesStatement` | helpers_test.go:23-35 | table "categories" with keys id, name gives `insert into categories (id, name) values (?, ?)` |
| `Helpers.CategoriesPrepared` | helpers_test.go:23-43 | preparing the row id "100", name "common" gives that statement and the arguments ["100", "common"], whatever the JSON encoder |
| `Configuration.ConfigOption.ApplyTo` | config.go:13-31 | each option writes its value into its own field and leaves every field it does not set unchanged |
| `Configuration.ApplyAll` | seeder.go:116-118 | each field of the result is the starting value or the value some option in the list wrote |
| `Configuration.LastOptionWins` | seeder.go:116-118 | options apply in argument order: the last option setting a field decides that field |
| `Configuration.UntouchedField` | seeder.go:116-118 | a field that no option sets keeps its default |
| `Configuration.Config.constructor` | seeder.go:111-115 | the starting record: empty env, no names, common seeds not skipped |
| `Configuration.Config.Apply` | config.go:13-31 | `ForEnv`, `ForSpecificSeeds` and `ShouldSkipCommon` each overwrite exactly their own field and keep the other two |
| `Seeder.HasSeederName` | seeder.go:98-99 | the pattern matches iff there is a '.' before the last character and every character after it is alphanumeric |
| `Seeder.SeederName` | seeder.go:98-103 | the extracted name is a non-empty alphanumeric run, and the qualified name is some prefix, a '.', then that name |
| `Seeder.QualifiedNameRoundTrip` | seeder.go:98-103 | any path, a '.', then a non-empty alphanumeric name matches the pattern, and the extracted name is that name |
| `Seeder.DummySeederName` | seeder_test.go:137-159 | "github.com/kristijorgji/goseeder.dummySeeder" resolves to "dummySeeder" |
| `Seeder.Selects` | seeder.go:128-142 | with no env and no names, or with the entry's own env and no names, an entry is selected; with names, only named entries are; an entry of another env is selected only when it is common, no names are given and common seeds are not skipped |
| `Seeder.Selection` | seeder.go:127-151 | the selection is no longer than the registry, and each of its entries is registered and passes the membership test |
| `Seeder.SelectionAppend` | seeder.go:127-137 | selection keeps registry order: selecting from a + b is the selection from a followed by the selection from b |
| `Seeder.SelectionCount` | seeder.go:127-151 | a selected entry appears as often as it is registered; an entry failing the membership test never appears |
| `Seeder.SelectionMembership` | seeder.go:127-151 | an entry is selected iff it is registered and passes the membership test |
| `Seeder.SelectionOfEmptyCriteria` | seeder.go:121-137 | with no env and no names the selection is the whole registry, in registration order |
| `Seeder.SkipCommonIgnoredWithNames` | seeder.go:141-151 | when names are given, the skip-common flag does not change the selection |
| `Seeder.OtherEnvironmentEntry` | seeder.go:128 | without names, an entry with a non-empty env is selected iff no env is given or the envs are equal |
| `Seeder.CommonEntry` | seeder.go:128 | without names, a common entry is selected unless an env is given and common seeds are skipped |
| `Seeder.NamedEntry` | seeder.go:141-151 | with names, a registered entry is selected iff its name is among them and no env is given or the envs are equal |
| `Seeder.StageScenarios` | seeder.go:121-137 | with a common seed a and a stage seed b, env "stage" runs [a, b]; with skip-common it runs [b] |
| `Seeder.NamedScenario` | seeder_test.go:75-98 | with two common seeds a and b and the names [b], only b runs |
| `Seeder.SecretEnvironmentScenario` | seeder_test.go:103-132 | env "secret" runs the common seed and the secret seed but not the stage seed |
| `Seeder.Seed` | seeder.go:156-173 | no error iff the callback returns; a panic gives the message "[name] seed failed: " + payload + a new line |
| `Seeder.FirstFailure` | seeder.go:133-135 | the position of the first entry whose run fails; every entry before it succeeds |
| `Seeder.Run` | seeder.go:127-153 | entries run in order up to and including the first failing one, whose error is the result; no error iff every entry succeeds, and then all of them ran |
| `Seeder.RunAllSucceed` | seeder.go:138 | when every selected entry succeeds, all run and the result is nil |
| `Seeder.RunStopsAt` | seeder.go:133-135 | after successful entries, a failing entry ends the run with its error; nothing after it runs |
| `Seeder.FailureStopsTheRun` | seeder.go:133-135 | a failing seeder between two healthy ones: the first two run, the error is the second's, the third does not run |
| `Seeder.SelectionStep` | seeder.go:127-137 | walking one more registry entry extends the selection by that entry iff it is selected |
| `Seeder.RunFromStep` | seeder.go:133-135 | reaching a selected, failing entry after only successes determines the whole run |
| `Seeder.Registry.constructor` | seeder.go:49 | the registry starts empty |
| `Seeder.Registry.Complete` | seeder.go:28-40 | a value not marked completed appends exactly one entry {env, name, callback} at the end, returns nil and keeps earlier entries; a value marked completed returns the "already completed" error and leaves the registry unchanged |
| `Seeder.Registry.RegisterForEnv` | seeder.go:97-106 | appends exactly one entry with the given env and the name extracted from the qualified function name |
| `Seeder.Registry.Register` | seeder.go:87-89 | appends one common entry (env "") with the extracted name |
| `Seeder.Registry.RegisterForTest` | seeder.go:92-94 | appends one entry of env "test" with the extracted name |
| `Seeder.Registry.Execute` | seeder.go:110-154 | the result is the run of the selection, in registry order, under the defaults updated by the options in order; registry unchanged |
| `Seeder.Registry.SeedFromFlags` | seeder.go:69-79 | seed mode runs the selection for exactly env, the split names and the skip flag |
| `Seeder.SpecifiedSeeders` | seeder.go:69-72 | an empty names flag gives no names; otherwise the comma-free pieces, one more than the commas, which join back to the flag |
| `Seeder.SpecifiedSeedersRoundTrip` | seeder.go:69-72 | a non-empty list of comma-free names, other than the single empty name, written with commas is read back as the same list (the single empty name gives the empty flag, which means no names) |
| `Seeder.ReusedRegistrationAsWritten` | seeder.go:27-41 | completing one `Registration` value twice succeeds both times and registers the seeder twice |
| `Seeder.RegistrationCell.constructor` | seeder.go:21-25 | a new registration holds its name and env and is not completed |
| `Seeder.RegistrationCell.Complete` | seeder.go:27-41 | pointer-receiver completion: the first call appends one entry and sets the flag; a second call returns the "already completed" error and appends nothing |
| `Seeder.ReusedRegistrationCorrected` | seeder.go:27-41 | with the pointer receiver, the second completion fails and the seeder is registered once |

## Findings

| source | as written | input that shows it | evidently intended | confidence | as-written member | corrected member |
|---|---|---|---|---|---|---|
| seeder.go:27-40 | `Complete` has a value receiver, so `r.completed = true` changes only a copy; calling `Complete` twice on the same value succeeds both times and appends the seeder twice | `r := Registration{Name: "test_seed"}; r.Complete(f); r.Complete(f)` | the doc comment at seeder.go:27: the second call on the same registration fails with the "already completed" error and registers nothing | high (not executed) | `Seeder.ReusedRegistrationAsWritten` | `Seeder.RegistrationCell.Complete` |

The registry keeps the code's behaviour (`Seeder.Registry.Complete`). `Seeder.ReusedRegistrationCorrected` shows what the corrected form does when it is called twice. The `completed` field is unexported, so a caller outside the package cannot build a value with it set. From outside, the "already completed" error cannot be reached.

## Left out

- Flag parsing and process control in `WithSeeder` (`flag.*`, delegating to `clientMain`, `log.Panic` on an error). Only the split of the names flag and the resulting `Execute` call are modelled.
- `getFunctionName` (runtime reflection) and the `regexp` library. The qualified function name is an input, and the pattern's meaning is stated directly.
- `Seeder.SeederName`: a name without a match makes Go panic (`match[1]` is out of range). Here that case is the precondition `HasSeederName`.
- Console output and timing: `printInfo`, `printError`, `color`, the colour constants, and `time.Now` / `time.Since` in `seed`.
- Go's `defer` / `recover`. A callback is reduced to the outcome of calling it.
- The callback's effect on the database, and a callback whose outcome depends on earlier seeders. Each entry has one fixed outcome.
- The `*sql.DB` handle and the `Seeder` value passed to callbacks: they are opaque.
- The string-to-number and string-to-bool conversions after the type switch in `parseValue`. They cannot be reached.
- The `default` branch of that switch, which cannot be reached either.
- Real JSON encoding: `marshal` is a parameter.
- Go's random map iteration order. A row is an ordered sequence, so the model fixes one order of the columns. The Go test in helpers_test.go:23-43 expects the text and arguments of only one of the two orders of its two-key map; `Helpers.CategoriesPrepared` states that order.
- `FromJson` (sources.go): file reading, JSON decoding and database calls.
- The example application under examples/.
- `RegisterForEnvNamed`. The tests call it, but it is defined in none of the files modelled here.
