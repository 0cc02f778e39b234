# php-getopts in Dafny

A model of the core of `fostam/php-getopts`. This is a GNU-getopt-style command-line library for PHP. The model covers four parts:

- **Option builder** (`src/Config/Option.php`): module `Options`.
  - An option configuration is an immutable record of optional fields.
  - Each setter returns the updated record together with the exception it threw, if any. PHP mutates the object before it throws, so both are needed.
  - `get` validates the cross-field invariants and caches its verdict in a `validated` flag.
- **Argument builder** (`src/Config/Argument.php`): module `Arguments`, the same shape for positional arguments.
- **Parser** (`src/Parser.php`): module `Parser`.
  - It builds the short/long lookup tables.
  - It runs a token-by-token state machine with three modes: scanning, awaiting a value, and positional-only after `--`. The machine handles bundles, `--name=value`, `--noX`, counters and repeated values.
  - It then fills in option defaults and runs the validators.
  - It assigns positional arguments in registration order.
  - The outcome is two name-to-value maps or exactly one `Error`. Showing the help is one of the `Error` variants.
- **Facade** (`src/Handler.php`, its pure parts only): module `Handler`.
  - one namespace shared by options and arguments;
  - the help-option settings;
  - the script-name and help-option handling of `parse`;
  - `getOption` and `getArgument`;
  - the usage string.

Supporting modules:

- `Wrappers`: `Option` and `Result`.
- `Values`: the PHP values an option or argument can hold.
- `Errors`: one datatype for every exception class the core throws. Usage errors carry the offending token, and `InvalidOption` carries the token and the value.
- `Text`: the PHP string built-ins the core uses.
- `ParserProperties`: properties of the token loop.
- `ParserScenarios`: the parser tests worked through on the model.
- `NameTruthiness`: the finding below.

Notes on the model:

- PHP arrays of configurations become sequences of named entries with distinct names. Result arrays become maps.
- Validators are opaque functions `Value -> bool`.
- The PHP tables `$optsShort`/`$optsLong` become the `Tables` record.
- `$usedName` becomes the `used` map of the loop state. It records the whole token an option was last given with, such as `-bababc` or `--test=abc`, because error messages quote it.

## Model

| member | source | states |
|---|---|---|
| Options.Lookup | src/Config/Option.php:12-34 | The configuration array has an entry exactly for the ten documented keys. |
| Options.ShortNameExamples | tests/Config/OptionTest.php:95-102 | A short name is accepted for `a` and `5` and refused for `aa`, `_` and the empty string. |
| Options.LongNameExamples | tests/Config/OptionTest.php:104-108 | `test`, `t` and `33333` are valid long names, as is `--long`, which HandlerTest.php:36 uses as a help name. |
| Options.LongNameRejections | tests/Config/OptionTest.php:108-110 | `*` and the empty string are refused as long names, as is a sentence with spaces (HandlerTest.php:45). |
| Options.ShortIsLong | src/Config/Option.php:247-257 | Every name the short-name pattern accepts is also accepted by the long-name pattern. |
| Options.Short | src/Config/Option.php:50-57 | It throws exactly when the name is not one ASCII letter or digit. The cache is reset either way. On a throw the stored short name is unchanged; otherwise the name is stored. No other entry changes. |
| Options.Long | src/Config/Option.php:65-72 | It throws exactly when the name is not `[a-zA-Z0-9_-]+`. The cache is reset either way. On a throw the stored long name is unchanged; otherwise the name is stored. No other entry changes. |
| Options.Argument | src/Config/Option.php:91-98 | Like `Long`, for the argument placeholder name. |
| Options.Description | src/Config/Option.php:80-83 | Stores the description. No other entry changes, and the cached verdict is kept. |
| Options.Required | src/Config/Option.php:105-109 | `REQUIRED` reads back as true. No other entry changes. The cache is reset. |
| Options.DefaultValue | src/Config/Option.php:117-121 | `DEFAULT_VALUE` reads back as the value given. No other entry changes. The cache is reset. |
| Options.Multiple | src/Config/Option.php:128-132 | `MULTIPLE` reads back as true. No other entry changes. The cache is reset. |
| Options.Negatable | src/Config/Option.php:139-143 | `NEGATABLE` reads back as true. No other entry changes. The cache is reset. |
| Options.Incrementable | src/Config/Option.php:151-155 | `INCREMENTABLE` reads back as the step. No other entry changes. The cache is reset. |
| Options.Validator | src/Config/Option.php:163-166 | Stores the validator. No other entry changes, and the cached verdict is kept. |
| Options.Validate | src/Config/Option.php:192-241 | It succeeds exactly when the option is already marked validated or satisfies all five invariants. A throw leaves the option unchanged. Success sets the flag and preserves cache soundness. |
| Options.Get | src/Config/Option.php:174-187 | It succeeds exactly when validation passes and the key is falsy in PHP (`""` or `"0"`) or known. A falsy key yields the whole configuration. A known key yields that entry. Only the cache flag can change. |
| Options.ZeroKeyReadsWhole | src/Config/Option.php:177 | `get('0')` answers exactly as `get()` does, because the key `0` is false in PHP. |
| Options.ApplyKeepsCacheSound | src/Config/Option.php:51-166 | Any one call on an option keeps "validated implies the invariants hold". |
| Options.RunKeepsCacheSound | src/Config/Option.php:193-195 | Cache soundness holds after any sequence of calls. The flag is never set on an inconsistent option. |
| Options.BuiltOptionGetAgrees | src/Config/Option.php:192-241 | On any option a program can build from a fresh one, `get` of a known key succeeds exactly when the invariants hold. |
| Options.IncrementableDefaultsToOne | src/Config/Option.php:151-155 | `incrementable()` without a step stores 1. |
| Options.SetThenGetExamples | tests/Config/OptionTest.php:18-93 | Each setter's value is read back by `get` in the test scenarios. |
| Options.ConstraintExamples | tests/Config/OptionTest.php:113-141 | `get` throws for each invariant violation. |
| Options.NamelessExample | tests/Config/OptionTest.php:143-146 | `get` throws for an option with neither short nor long name. |
| Options.ArgumentNameExample | tests/Config/OptionTest.php:148-151 | `argument` throws on an illegal placeholder name. |
| Options.UnknownFieldExample | tests/Config/OptionTest.php:153-157 | `get` throws on an unknown key. |
| Arguments.Lookup | src/Config/Argument.php:12-24 | The configuration array has an entry exactly for the five documented keys. |
| Arguments.ValidateNameExamples | tests/Config/ArgumentTest.php:54-61 | `test`, `t` and `33333` are legal argument names. `*` and the empty string are not. |
| Arguments.Required | src/Config/Argument.php:40-44 | `REQUIRED` reads back as true. No other entry changes. The cache is reset. |
| Arguments.Name | src/Config/Argument.php:52-57 | The name is stored whether or not it is legal. It throws exactly when the name is illegal. No other entry changes, and the cache flag is not touched. |
| Arguments.Multiple | src/Config/Argument.php:65-69 | `MULTIPLE` reads back as true. No other entry changes. The cache is reset. |
| Arguments.DefaultValue | src/Config/Argument.php:77-81 | `DEFAULT_VALUE` reads back as the value given. No other entry changes. The cache is reset. |
| Arguments.Validator | src/Config/Argument.php:89-92 | Stores the validator. No other entry changes, and the cached verdict is kept. |
| Arguments.Validate | src/Config/Argument.php:127-140 | It throws exactly when the argument is not marked validated and is required with a default. Success sets the flag and preserves cache soundness. |
| Arguments.Get | src/Config/Argument.php:101-114 | It succeeds exactly when validation passes and the key is falsy in PHP (`""` or `"0"`) or known. It returns the whole configuration for a falsy key and that entry for a known one. |
| Arguments.ZeroKeyReadsWhole | src/Config/Argument.php:104 | `get('0')` answers exactly as `get()` does, because the key `0` is false in PHP. |
| Arguments.RunKeepsCacheSound | src/Config/Argument.php:41-139 | After any sequence of calls, an argument marked validated is consistent. |
| Arguments.BuiltArgumentGetAgrees | src/Config/Argument.php:127-140 | On any argument a program can build, `get` throws exactly when required and a default are both set. |
| Arguments.ArgumentExamples | tests/Config/ArgumentTest.php:18-66 | The set-then-get, illegal-name and unknown-key scenarios of the tests. |
| Text.MatchesName | src/Config/Option.php:255-257 | The pattern `^[a-zA-Z0-9\-_]+$` holds exactly for non-empty strings of name characters. |
| Text.Explode | src/Parser.php:119-124 | The pieces contain no separator. There is one piece exactly when the separator is absent. |
| Text.ImplodeExplode | src/Parser.php:119-124 | Joining the pieces of `explode` with the separator gives back the string. |
| Text.Upper | src/Handler.php:351 | `strtoupper` keeps the length and maps each character through ASCII upper-casing. |
| Text.RTrim | src/Handler.php:387 | `rtrim` keeps a prefix that does not end in whitespace and removes only whitespace. |
| Text.RTrimUnique | src/Handler.php:387 | Those three properties determine `rtrim`'s result. |
| Parser.ConfigMap | src/Parser.php:45-48 | The option map has exactly the registered names as keys. |
| Parser.ConfigMapFinds | src/Parser.php:45-48 | Each registered name maps to its own configuration. |
| Parser.Table | src/Parser.php:306-315 | Every name in a lookup table resolves to a registered option. |
| Parser.TableHoldsDeclared | src/Parser.php:306-315 | A name is in the short or long table exactly when some option declares it. |
| Parser.TableResolvesToLast | src/Parser.php:306-315 | A name declared by several options resolves to the last of them. |
| Parser.CollectShortLong | src/Parser.php:306-315 | It succeeds exactly when every option configuration validates, and the first invalid one throws. On success it yields the two tables. |
| Parser.TablesFit | src/Parser.php:306-315 | Every table entry names a registered option. |
| Parser.AddOption | src/Parser.php:181-197 | The token is recorded as the option's spelling. A counter adds its step to the count so far. A flag becomes `!negated`. An option taking a value leaves the values unchanged and makes the loop await one. No other option changes. |
| Parser.StoreValue | src/Parser.php:95-106 | A multiple option appends the value to its list. Any other option is overwritten. No other option changes. |
| Parser.ResolveLong | src/Parser.php:126-137 | A long name resolves directly when registered. `no<x>` resolves to `x`, negated, exactly when `x` is registered and negatable. Otherwise the name is unknown. |
| Parser.ApplyBundle | src/Parser.php:145-162 | A successful bundle keeps the loop invariant and the positional tokens. A failure is the help signal or `UnrecognizedOption` with the whole token. |
| Parser.LongToken | src/Parser.php:114-144 | A failure is the help signal or `UnrecognizedOption` with the token as typed. An inserted value comes from a token containing `=` and itself contains no `=`. |
| Parser.Step | src/Parser.php:90-166 | One token per mode. In positional-only mode it is appended. An awaited value is stored verbatim. `--` switches to positional-only. `-` and non-dash tokens are positional. Other tokens are options and never positional. |
| Parser.Loop | src/Parser.php:88-168 | The loop keeps its invariant and only appends positional tokens. Every failure is the help signal or an unrecognised option. |
| Parser.BundleAwaitsRecorded | src/Parser.php:149-162 | A bundle that leaves a value awaited leaves it awaited for an option that takes one and was last invoked by the bundle's token. |
| Parser.StepAwaitsRecorded | src/Parser.php:181-197 | A step that leaves a value awaited records its own token as the awaited option's spelling. |
| Parser.ProcessOptions | src/Parser.php:78-173 | On success no value is awaited any more. It raises `MissingOptionArgument` exactly when the loop ends while a value is awaited. The error carries the spelling recorded for the awaited option. Any other outcome is the loop's own. |
| Parser.FirstRejected | src/Parser.php:216-233 | It is `None` exactly when the validator accepts every value. Otherwise it is the first value the validator rejects. |
| Parser.ValidateOptions | src/Parser.php:202-236 | On success every non-help option has an entry. Command-line values are kept unchanged. Every failure is `MissingOptions` or `InvalidOption`. |
| Parser.ValidateOptionsCons | src/Parser.php:202-236 | An accepted first option passes its default on to the check of the rest. |
| Parser.ValidateOptionsRejects | src/Parser.php:202-236 | A rejected first option fails with its own error: `MissingOptions`, or `InvalidOption` with its spelling and its first rejected value. |
| Parser.ValidateOptionsSucceedsIff | src/Parser.php:202-236 | The pass succeeds exactly when every option is present and valid, absent and optional, or the help option. Defaults are never validated. |
| Parser.ValidateOptionsFillsDefaults | src/Parser.php:209-215 | An option missing from the command line gets its configured default. |
| Parser.ValidateOptionsFirstError | src/Parser.php:202-236 | A failure is the error of the first rejected option in registration order. |
| Parser.Walk | src/Parser.php:247-290 | A successful walk assigns every remaining argument and keeps earlier entries. |
| Parser.PassesAtIff | src/Parser.php:249-289 | The stateful per-argument check, using flags for "an optional/multiple argument was seen", agrees with a stateless definition over the earlier arguments. |
| Parser.WalkStep | src/Parser.php:273-289 | An accepted argument is assigned, and the walk continues with the flags updated. |
| Parser.WalkStops | src/Parser.php:249-289 | A rejected argument ends the walk with its error. |
| Parser.WalkSucceedsIff | src/Parser.php:247-290 | The walk succeeds exactly when every argument is accepted. |
| Parser.WalkFirstError | src/Parser.php:247-290 | A failed walk reports the first rejected argument's error. |
| Parser.WalkAssigns | src/Parser.php:263-289 | Each argument receives its own token in first-in-first-out order, or its default when the tokens have run out. |
| Parser.WalkAssignsAll | src/Parser.php:263-289 | The whole walk assigns every argument its value. |
| Parser.ValidateArguments | src/Parser.php:243-301 | It succeeds exactly when every argument is accepted and there is no surplus unless the last argument is multiple. Each argument gets its token or default. Surplus tokens join the trailing multiple argument unvalidated. Otherwise the error is `TooManyArguments` or the first argument error. |
| Parser.SurplusMerged | src/Parser.php:292-300 | Appending the surplus tokens to the trailing multiple argument gives it every token from its position on. |
| Parser.Parse | src/Parser.php:53-58 | An invalid option configuration fails before any token is read. Success covers every non-help option and every argument. |
| ParserProperties.LoopConcat | src/Parser.php:88-168 | Running the loop over `p + q` runs it over `p`, then over `q` from where `p` left off. |
| ParserProperties.PositionalOnlyVerbatim | src/Parser.php:90-93 | In positional-only mode every later token is appended verbatim and in order. |
| ParserProperties.EndOfOptions | src/Parser.php:107-109 | After `--` the rest of the tokens, even `-t` or `--test`, are positional. |
| ParserProperties.MissingValueNamesToken | src/Parser.php:170-172 | Input whose last token leaves a value awaited raises `MissingOptionArgument` naming that last token. |
| ParserProperties.AwaitedValue | src/Parser.php:95-106 | The token after one that awaits a value is stored verbatim, whatever it looks like. |
| ParserProperties.AwaitedStep | src/Parser.php:95-106 | An awaited value is consumed whatever follows it. |
| ParserProperties.BundleSpellingBlind | src/Parser.php:145-162 | A bundle's outcome does not depend on the spellings recorded earlier. |
| ParserProperties.AddOptionSpellingBlind | src/Parser.php:181-197 | Applying an option does not depend on the spellings recorded earlier. |
| ParserProperties.LongTokenSpellingBlind | src/Parser.php:114-144 | A long token's outcome does not depend on the spellings recorded earlier. |
| ParserProperties.StepLong | src/Parser.php:114 | In scanning mode, a token starting with `--`, other than `--` itself, is handled as a long option. |
| ParserProperties.StepSpellingBlind | src/Parser.php:90-166 | One step's outcome does not depend on the spellings recorded earlier. |
| ParserProperties.LoopSpellingBlind | src/Parser.php:88-168 | The whole loop's outcome does not depend on the spellings recorded earlier. |
| ParserProperties.InlineTokens | src/Parser.php:119-124 | `--name=value` splits into the name and the value. `--name` has the name and no value. |
| ParserProperties.AddOptionTokenBlind | src/Parser.php:181-197 | Applying an option under two spellings differs only in the spelling recorded. |
| ParserProperties.InlineStep | src/Parser.php:114-144 | `--name=value` and `--name` resolve alike, and only the first inserts the value. |
| ParserProperties.InlineValueSameAsSeparate | src/Parser.php:116-124 | `--name=value rest` and `--name value rest` succeed or fail together, with the same values, mode and positional tokens. |
| ParserProperties.StepInvokes | src/Parser.php:126-162 | A short or long spelling that names an option applies `addOption` to it. |
| ParserProperties.OneRound | src/Parser.php:95-106 | An option that takes a value, followed by the value, records the spelling and stores the value. |
| ParserProperties.RoundStep | src/Parser.php:95-106 | The first `spelling value` pair can be taken off the front of an interleaving. |
| ParserProperties.RepeatedRuns | src/Parser.php:95-106 | Repeating such an option with values always succeeds, adds no positional token and changes no other option. |
| ParserProperties.PriorGrows | src/Parser.php:97-101 | Storing a value of a multiple option appends it to the values so far. |
| ParserProperties.RepeatedValues | src/Parser.php:95-106 | A multiple option collects every value in command-line order after its earlier ones. Any other option keeps the last value. |
| ParserProperties.CounterStep | src/Parser.php:184-189 | One invocation of a counter at the front of the tokens is applied, then the loop continues. |
| ParserProperties.CounterApplied | src/Parser.php:184-189 | A counter's invocation adds its step to its count and changes no other option. |
| ParserProperties.OthersKeptTrans | src/Parser.php:181-197 | Two updates that leave other options alone compose into one that leaves them alone. |
| ParserProperties.CounterCounts | src/Parser.php:184-189 | `n` invocations of a counter, under any mix of short and long spellings, add `n` times its step. |
| ParserProperties.NegatedLong | src/Parser.php:126-133 | `--no<long>` for a negatable option applies it negated, so a flag becomes false. |
| ParserProperties.BundleSucceedsIff | src/Parser.php:149-158 | A bundle succeeds exactly when each character is a registered short name other than the help option's. |
| ParserProperties.BundleHead | src/Parser.php:149-162 | A bundle applies its first character's option, then the rest, left to right. |
| ParserProperties.BundleCounts | src/Parser.php:149-162 | A counter named `k` times in one bundle adds its step `k` times. |
| ParserProperties.BundleSetsFlag | src/Parser.php:149-162 | A flag named anywhere in a bundle ends up true. |
| ParserProperties.BundleKeepsToken | src/Parser.php:149-162 | The bundle's token, once recorded as a spelling, stays recorded. |
| ParserProperties.BundleLastDecides | src/Parser.php:149-162 | Every option in the bundle is recorded with the whole token. Only the last character decides whether a value is awaited. |
| ParserScenarios.BundleSucceeds | tests/ParserTest.php:227-243 | `-bababc` is a valid bundle for options `a`, counter `b` and `c` with a value. |
| ParserScenarios.BundleOccurrences | tests/ParserTest.php:227-243 | `b` occurs three times and `a` twice. The last character names `c`, which takes a value. |
| ParserScenarios.BundleApplies | tests/ParserTest.php:227-243 | After `-bababc`, `a` is true, `b` is 3 and `c` awaits its value. |
| ParserScenarios.BundleStepExample | tests/ParserTest.php:227-243 | The whole token is handled as one bundle. |
| ParserScenarios.BundleWithValue | tests/ParserTest.php:227-243 | `-bababc argval` yields a=true, b=3, c="argval". |
| ParserScenarios.BundleWithoutValue | tests/ParserTest.php:245-259 | `-bababc` alone raises `MissingOptionArgument("-bababc")`. |
| ParserScenarios.CounterSpellings | tests/ParserTest.php:405-418 | `--test` and `-t` both invoke the counter. |
| ParserScenarios.CounterPrefix | tests/ParserTest.php:405-418 | `--test -t` counts 2. |
| ParserScenarios.WordThenEnd | tests/ParserTest.php:405-418 | A word, then `--`, sends the rest to the positional list. |
| ParserScenarios.AfterPrefix | tests/ParserTest.php:405-418 | The rest of the test's tokens continue from the counted state. |
| ParserScenarios.EndOfOptionsExample | tests/ParserTest.php:405-418 | `--test -t a -- b -t --test` gives test=2 and the positional tokens `a b -t --test`. |
| ParserScenarios.RequiredAfterOptionalExample | tests/ParserTest.php:465-475 | A required argument after an optional one raises the argument configuration error. |
| ParserScenarios.MultipleNotLastExample | tests/ParserTest.php:477-487 | A multiple argument that is not last raises the argument configuration error. |
| ParserScenarios.MixedTables | tests/ParserTest.php:430-443 | The options `-a`, `-b` and `-c` produce the short-name table `a`, `b`, `c` and no long names. |
| ParserScenarios.MixedConfigs | tests/ParserTest.php:430-443 | The same options, keyed by name, are the configurations the bundle scenarios use. |
| ParserScenarios.WordLoop | src/Parser.php:163-166 | A one-character word that is not `-` is collected as a positional token. |
| ParserScenarios.ShortValueStep | src/Parser.php:149-162 | `-c` makes the loop await the value of `c`, spelled `-c`. |
| ParserScenarios.MixedLoop | tests/ParserTest.php:458 | `x -c c y` stores `c` for `-c` and collects `x y` as positional tokens. |
| ParserScenarios.MixedOptions | tests/ParserTest.php:458 | The option post-pass gives a=null, b=null, c="c". |
| ParserScenarios.MixedArguments | tests/ParserTest.php:458 | The argument pass gives x="x", y="y". |
| ParserScenarios.MixedParse | tests/ParserTest.php:430-462 | `parse(['x', '-c', 'c', 'y'])` gives the options a=null, b=null, c="c" and the arguments x="x", y="y". |
| Handler.Has | src/Handler.php:46 | `isset` on the ordered registrations is membership of the name. |
| Handler.AddOption | src/Handler.php:45-56 | It throws exactly when the name is taken by an option or an argument. Otherwise the option is appended under that name and nothing else changes. |
| Handler.AddArgument | src/Handler.php:61-72 | It throws exactly when the name is taken by an option or an argument. Otherwise the argument is appended under that name and nothing else changes. |
| Handler.AddOptionKeepsValid | src/Handler.php:45-56 | Registering an option keeps the handler invariant. |
| Handler.AddArgumentKeepsValid | src/Handler.php:61-72 | Registering an argument keeps the handler invariant. |
| Handler.SharedNamespace | tests/HandlerTest.php:64-78 | Once a name is registered as either kind, registering it again as either kind throws. |
| Handler.SetHelpOptionLong | src/Handler.php:77-83 | It succeeds exactly for a valid long name and changes only the long help name. |
| Handler.SetHelpOptionShort | src/Handler.php:88-94 | It succeeds exactly for a valid short name and changes only the short help name. |
| Handler.EnableTerseUsage | src/Handler.php:107-110 | It turns terse usage on and changes nothing else. |
| Handler.NewIsValid | src/Handler.php:23-30 | A new handler has no registrations and the valid help names `h` and `help`. |
| Handler.RunKeepsValid | src/Handler.php:45-110 | After any sequence of registration and setting calls, names are unique across both kinds and the help names are valid. |
| Handler.HelpOption | src/Handler.php:132-142 | With both help names valid, the help option has exactly those short and long names and is consistent. With neither set, there is none. |
| Handler.Put | src/Handler.php:143-145 | Assigning to a PHP array key overwrites in place or appends. The name set grows by that key, and no other entry changes. |
| Handler.Parse | src/Handler.php:126-150 | The first token becomes the script name. The help option is registered under the reserved name. The parser runs on the remaining tokens. Only the script name and the options change. |
| Handler.GetOption | src/Handler.php:215-218 | The parsed value when the option has a result entry, otherwise the caller's default. |
| Handler.GetArgument | src/Handler.php:247-250 | The parsed value when the argument has a result entry, otherwise the caller's default. |
| Handler.DefaultOnlyForUnregistered | src/Handler.php:215-250 | After a successful parse, the caller's default matters exactly for unregistered names and the help option. |
| Handler.LoopShowsHelp | src/Parser.php:53-58 | If the token loop shows the help, so does the whole parse. |
| Handler.ParseAddsHelpLast | src/Handler.php:143-145 | On a handler without a help entry, `parse` adds the help option as the last option. |
| Handler.BundleHelp | src/Parser.php:156-158 | A lone `-<short help name>` shows the help. |
| Handler.LongHelp | src/Parser.php:139-141 | A lone `--<long help name>` shows the help. |
| Handler.ShortHelpToken | src/Parser.php:145-158 | With the help option last, its short name on the command line shows the help. |
| Handler.LongHelpToken | src/Parser.php:114-141 | With the help option last, its long name on the command line shows the help. |
| Handler.HelpShortShowsHelp | src/Handler.php:126-150 | `script -h`, with the configured short help name, shows the help. |
| Handler.HelpLongShowsHelp | src/Handler.php:126-150 | `script --help`, with the configured long help name, shows the help unless that name starts with `no`. |
| Handler.NamesPart | src/Handler.php:339-348 | The names part built piece by piece is `-s|--long`, `-s` or `--long`. |
| Handler.RenderOption | src/Handler.php:338-359 | An option is rendered as `[` unless required, then names and placeholder, then `]` unless required, then `...` if multiple. |
| Handler.RenderArgument | src/Handler.php:367-385 | An argument is rendered as its upper-cased name or `ARGUMENT`, bracketed unless required, with `...` if multiple. |
| Handler.OptionsUsage | src/Handler.php:337-363 | It succeeds exactly when every option validates. Otherwise it raises the option configuration error. |
| Handler.ArgumentsUsage | src/Handler.php:367-385 | It succeeds exactly when every argument validates. Otherwise it raises the argument configuration error. |
| Handler.OptionsUsageAppend | src/Handler.php:337-363 | The options part is the concatenation, in registration order, of each option's rendering plus a space. |
| Handler.OptionsUsageSingle | src/Handler.php:362 | One option contributes its rendering and one space. |
| Handler.ArgumentsUsageAppend | src/Handler.php:367-385 | The arguments part is the concatenation, in order, of each argument's rendering plus a space. |
| Handler.ArgumentsUsageSingle | src/Handler.php:384 | One argument contributes its rendering and one space. |
| Handler.Usage | src/Handler.php:329-388 | It succeeds exactly when the options are summarised or all valid and every argument is valid. It raises the matching configuration error otherwise. |
| Handler.UsageStartsWithScriptName | src/Handler.php:329-388 | The usage string starts with the trimmed script name and has no trailing whitespace. |
| Handler.NewUsage | src/Handler.php:329-388 | A new handler's usage string is `php-script`. |
| Handler.TerseIgnoresOptions | src/Handler.php:333-335 | With terse usage, the string does not depend on which options are registered. |
| Handler.TerseUsageShowsMarker | src/Handler.php:333-335 | With terse usage and options, the script name is followed by `[OPTION]...`. |
| Handler.UsageWithoutOptions | src/Handler.php:329-388 | Without options, the usage string is the script name and the arguments part, trimmed. |
| Handler.SingleArgumentUsage | src/Handler.php:367-387 | For a single argument, the trailing space is trimmed off its rendering. |
| Handler.UnnamedArgumentUsage | src/Handler.php:367-385 | An argument registered without `name()` appears as `[ARGUMENT]`. |
| NameTruthiness.TableAsWritten | src/Parser.php:306-315 | The tables as written never hold a falsy name such as `0`. |
| NameTruthiness.ZeroIsAccepted | src/Config/Option.php:50-57 | The short name `0` is accepted and the option validates. |
| NameTruthiness.ZeroShortLost | src/Parser.php:306-315 | With the tables as written, `-0` is rejected as unrecognised although an option declares it. |
| NameTruthiness.ZeroShortFound | src/Parser.php:306-315 | With the corrected tables, `-0` sets that option. |

## Left out

- Printing, exiting and help text are not modelled: `handleUsageError`, `showHelp`, `buildHelpText` and `getHelpText` (src/Handler.php:293-314, 393-440). In the model, a usage error or the help signal is returned as an `Error`.
- `getCommandLineArgs` reads `$_SERVER['argv']`. The token list is a parameter instead.
- The lazy re-parse inside the `get*` accessors is left out. `GetOption` and `GetArgument` take an already computed result.
- `getOptions`, `getArguments`, `hasOption`, `hasArgument`, `isOptionValue`, `isArgumentValue` and `getScriptName` are one-line reads of the result, left out.
- `disableErrorHandling` and `setExtraHelpText` only affect presentation.
- Builders return `$this` for chaining, and PHP objects alias. The model returns new records instead, and returns the configuration `get` left behind rather than mutating it.
- Validators are opaque functions. PHP closures and their side effects are not modelled.
- PCRE's `$` also matches before a trailing newline, so a name ending in `\n` passes the PHP check. The model checks the intended character class only.
- Loose `==`, integer-like array keys and the key order of the result arrays are not modelled. The tests compare with `assertEquals`.
- Exception messages and the class hierarchy are reduced to one `Error` datatype.
- Parser.AddOption: tests "is set" where the source tests truthiness (src/Parser.php:184, 190). So `incrementable(0)` counts as a counter, and an argument name `0` takes a value. In PHP the first acts as a flag and the second does not take a value.
- Handler.RenderOption: tests "is set" for the short, long and argument names (src/Handler.php:339-350), where PHP drops a name spelled `0`.
- Handler.RenderArgument: its label treats only an unset or empty name as `ARGUMENT`. PHP also does this for the name `0` (src/Handler.php:369).
- Handler.HelpOption: treats only the empty string as "no help name". PHP also skips a help name `0` (src/Handler.php:133, 137).
- Handler.HelpLongShowsHelp: excludes long help names starting with `no`. For those, the `--no<x>` reading comes first if a negatable option `x` exists, so the general claim would be false.
- Parser.Table: also lists an option under a short or long name `0`. The source's truthiness tests at src/Parser.php:308 and :311 drop such a name; `NameTruthiness.TableAsWritten` models that behaviour, and the Findings table covers it.
- Parser.AddOption: counts in unbounded integers. PHP's `+=` (src/Parser.php:188) turns the count into a float once it passes `PHP_INT_MAX`, and that is not modelled.
- ParserProperties.CounterCounts: states the count through `CountOf`, which reads a non-integer earlier value as 0. This is how PHP's `+=` treats a missing entry, but not how it treats a non-numeric one.
- ParserScenarios: the bundle and counter scenarios use lookup tables written out by hand. Only for the mixed-order options does `MixedTables` show that `collectShortLong` builds exactly those tables.

## Findings

| source | as written | input that shows it | evidently intended | confidence | as-written member | corrected member |
|---|---|---|---|---|---|---|
| src/Parser.php:306-315 | A name enters the lookup tables only when it is truthy, and PHP treats the string `0` as false. | An option declared with `short('0')`, which the setter accepts, and the token `-0`. | Every accepted name is looked up, so `-0` sets the option. | not executed | NameTruthiness.ZeroShortLost | NameTruthiness.ZeroShortFound |
