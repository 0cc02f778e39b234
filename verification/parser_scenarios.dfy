/**
  * Runs of the parser on small concrete configurations, mirroring the
  * behaviour tests/ParserTest.php expects. Lookup tables are written out
  * as `collectShortLong` builds them for these configurations.
  */
module ParserScenarios {
  import opened Wrappers
  import opened Values
  import opened Errors
  import opened Parser
  import Options
  import Arguments
  import opened ParserProperties
  import Text

  /** `-a` is a flag, `-b` a counter and `-c` takes a value (default "defval"). */
  const FlagA := Options.New.(short := Some("a"))
  const CounterB := Options.New.(short := Some("b"), incrementable := Some(1))
  const ValueC := Options.New.(short := Some("c"), argument := Some("optarg"), defaultValue := Str("defval"))
  const Cfgs := map["a" := FlagA, "b" := CounterB, "c" := ValueC]
  const T := Tables(map["a" := "a", "b" := "b", "c" := "c"], map[])
  const Bundle := "-bababc"

  /** Every character of `bababc` names an option other than the help option, so the bundle applies. */
  lemma BundleSucceeds(s0: Scan, chars: string, tok: string)
    requires s0 == Start && chars == "bababc" && tok == Bundle
    ensures Fits(Cfgs, T) && Inv(Cfgs, s0)
    ensures ApplyBundle(Cfgs, T, s0, chars, tok).Success?
  {
    assert forall k :: 0 <= k < |chars| ==> [chars[k]] in T.shorts && T.shorts[[chars[k]]] != HelpOptionName;
    BundleSucceedsIff(Cfgs, T, s0, chars, tok);
  }

  /** In `bababc`, `b` occurs three times and `a` twice, and the last character names `c`, which takes a value. */
  lemma BundleOccurrences(chars: string)
    requires chars == "bababc"
    ensures Occurrences(T, chars, "b") == 3 && Occurrences(T, chars, "a") == 2
    ensures [chars[|chars| - 1]] in T.shorts && T.shorts[[chars[|chars| - 1]]] == "c" && TakesValue(Cfgs["c"])
  {
    assert Occurrences(T, "c", "b") == 0 && Occurrences(T, "c", "a") == 0;
    assert Occurrences(T, "bc", "b") == 1 && Occurrences(T, "bc", "a") == 0;
    assert Occurrences(T, "abc", "b") == 1 && Occurrences(T, "abc", "a") == 1;
    assert Occurrences(T, "babc", "b") == 2 && Occurrences(T, "babc", "a") == 1;
    assert Occurrences(T, "ababc", "b") == 2 && Occurrences(T, "ababc", "a") == 2;
  }

  /** `-bababc`: the flag is set, the counter counted three times, and `c` awaits its value. */
  lemma BundleApplies(s0: Scan, chars: string, tok: string)
    requires s0 == Start && chars == "bababc" && tok == Bundle
    ensures Fits(Cfgs, T)
    ensures ApplyBundle(Cfgs, T, s0, chars, tok).Success?
    ensures ApplyBundle(Cfgs, T, s0, chars, tok).value.mode == Awaiting("c")
    ensures "a" in ApplyBundle(Cfgs, T, s0, chars, tok).value.values
    ensures ApplyBundle(Cfgs, T, s0, chars, tok).value.values["a"] == Bool(true)
    ensures CountOf(ApplyBundle(Cfgs, T, s0, chars, tok).value.values, "b") == 3
    ensures ApplyBundle(Cfgs, T, s0, chars, tok).value.raw == []
  {
    BundleSucceeds(s0, chars, tok);
    BundleOccurrences(chars);
    BundleLastDecides(Cfgs, T, s0, chars, tok);
    BundleCounts(Cfgs, T, s0, chars, tok, "b");
    BundleSetsFlag(Cfgs, T, s0, chars, tok, "a");
  }

  /** The whole token `-bababc` is one short bundle. */
  lemma BundleStepExample(s0: Scan, tok: string)
    requires s0 == Start && tok == Bundle
    ensures Fits(Cfgs, T)
    ensures ApplyBundle(Cfgs, T, s0, tok[1..], tok).Success?
    ensures Step(Cfgs, T, s0, tok) == Success(Stepped(ApplyBundle(Cfgs, T, s0, tok[1..], tok).value, None))
  {
    BundleApplies(s0, tok[1..], tok);
    assert tok[..2] == "-b" && tok[..1] == "-";
    assert tok != "--" && tok != "-" && !Text.StartsWith(tok, "--") && Text.StartsWith(tok, "-");
  }

  /** `-bababc argval`: a is true, b is 3 and c is "argval". */
  lemma BundleWithValue(tok: string, value: string)
    requires tok == Bundle && value == "argval"
    ensures Fits(Cfgs, T)
    ensures Loop(Cfgs, T, Start, [tok, value]).Success?
    ensures Loop(Cfgs, T, Start, [tok, value]).value.mode == Scanning
    ensures "a" in Loop(Cfgs, T, Start, [tok, value]).value.values
    ensures Loop(Cfgs, T, Start, [tok, value]).value.values["a"] == Bool(true)
    ensures CountOf(Loop(Cfgs, T, Start, [tok, value]).value.values, "b") == 3
    ensures "c" in Loop(Cfgs, T, Start, [tok, value]).value.values
    ensures Loop(Cfgs, T, Start, [tok, value]).value.values["c"] == Str(value)
  {
    BundleApplies(Start, tok[1..], tok);
    BundleStepExample(Start, tok);
    var s6 := ApplyBundle(Cfgs, T, Start, tok[1..], tok).value;
    AwaitedValue(Cfgs, T, Start, tok, value, s6);
  }

  /** `-bababc` alone: input ends while `c` awaits its value; the error quotes the whole bundle. */
  lemma BundleWithoutValue(tok: string)
    requires tok == Bundle
    ensures Fits(Cfgs, T)
    ensures ProcessOptions(Cfgs, T, [tok]) == Failure(MissingOptionArgument(tok))
  {
    BundleApplies(Start, tok[1..], tok);
    BundleStepExample(Start, tok);
    BundleLastDecides(Cfgs, T, Start, tok[1..], tok);
    var s6 := ApplyBundle(Cfgs, T, Start, tok[1..], tok).value;
    assert [tok][1..] == [];
    assert Loop(Cfgs, T, Start, [tok]) == Loop(Cfgs, T, s6, []);
    assert tok[1..][5] == 'c';
    assert s6.used["c"] == tok;
  }

  /** A counter with short name `t` and long name `test`. */
  const CounterT := Options.New.(short := Some("t"), long := Some("test"), incrementable := Some(1))
  const CounterCfgs := map["test" := CounterT]
  const CounterTables := Tables(map["t" := "test"], map["test" := "test"])

  /** `--test` and `-t` both invoke the counter. */
  lemma CounterSpellings() returns (sps: seq<Spelling>)
    ensures Fits(CounterCfgs, CounterTables)
    ensures |sps| == 2 && forall k :: 0 <= k < |sps| ==> Invokes(CounterCfgs, CounterTables, sps[k], "test")
    ensures Spells(sps) == ["--test", "-t"]
  {
    sps := [LongSpelling("test"), ShortSpelling('t')];
    assert "test"[..2] == "te";
    assert !Text.StartsWith("test", "no");
    assert Invokes(CounterCfgs, CounterTables, sps[0], "test");
    assert Invokes(CounterCfgs, CounterTables, sps[1], "test");
    assert Spell(sps[0]) == "--test" && Spell(sps[1]) == "-t";
  }

  /** `--test -t`: the counter is counted twice, whichever name is used. */
  lemma CounterPrefix(ts: seq<string>)
    requires ts == ["--test", "-t"]
    ensures Fits(CounterCfgs, CounterTables)
    ensures Loop(CounterCfgs, CounterTables, Start, ts).Success?
    ensures Loop(CounterCfgs, CounterTables, Start, ts).value.mode == Scanning
    ensures Loop(CounterCfgs, CounterTables, Start, ts).value.raw == []
    ensures "test" in Loop(CounterCfgs, CounterTables, Start, ts).value.values
    ensures Loop(CounterCfgs, CounterTables, Start, ts).value.values["test"] == Int(2)
  {
    var sps := CounterSpellings();
    CounterCounts(CounterCfgs, CounterTables, Start, sps, "test");
  }

  /** From a scanning state, a plain word followed by `--` sends everything after it to the positional list. */
  lemma WordThenEnd(s: Scan, rest: seq<string>, tail: seq<string>)
    requires Fits(CounterCfgs, CounterTables) && Inv(CounterCfgs, s) && s.mode == Scanning
    requires rest == ["a", "--"] + tail
    ensures Loop(CounterCfgs, CounterTables, s, rest) == Success(s.(mode := PositionalOnly, raw := s.raw + ["a"] + tail))
  {
    var cfgs, t := CounterCfgs, CounterTables;
    var word := "a";
    var s3 := s.(raw := s.raw + [word]);
    assert Step(cfgs, t, s, word) == Success(Stepped(s3, None));
    assert Loop(cfgs, t, s, [word]) == Success(s3) by {
      assert [word][1..] == [];
    }
    EndOfOptions(cfgs, t, s3, tail);
    assert rest == [word] + (["--"] + tail);
    LoopThen(cfgs, t, s, [word], ["--"] + tail, s3);
  }

  /** Whatever state `--test -t` reached, `a -- b -t --test` after it sends everything after `--` to the positional list. */
  lemma AfterPrefix(prefix: seq<string>, rest: seq<string>, tail: seq<string>, s2: Scan)
    requires Fits(CounterCfgs, CounterTables) && Inv(CounterCfgs, s2) && s2.mode == Scanning && s2.raw == []
    requires Loop(CounterCfgs, CounterTables, Start, prefix) == Success(s2)
    requires rest == ["a", "--"] + tail
    ensures Loop(CounterCfgs, CounterTables, Start, prefix + rest) == Success(s2.(mode := PositionalOnly, raw := ["a"] + tail))
  {
    WordThenEnd(s2, rest, tail);
    LoopThen(CounterCfgs, CounterTables, Start, prefix, rest, s2);
    assert s2.raw + ["a"] + tail == ["a"] + tail;
  }

  /** `--test -t a -- b -t --test`: the counter is 2 and everything after `--` is positional. */
  lemma EndOfOptionsExample(prefix: seq<string>, rest: seq<string>, tail: seq<string>)
    requires prefix == ["--test", "-t"] && tail == ["b", "-t", "--test"] && rest == ["a", "--"] + tail
    ensures Fits(CounterCfgs, CounterTables)
    ensures Loop(CounterCfgs, CounterTables, Start, prefix + rest).Success?
    ensures Loop(CounterCfgs, CounterTables, Start, prefix + rest).value.mode == PositionalOnly
    ensures "test" in Loop(CounterCfgs, CounterTables, Start, prefix + rest).value.values
    ensures Loop(CounterCfgs, CounterTables, Start, prefix + rest).value.values["test"] == Int(2)
    ensures Loop(CounterCfgs, CounterTables, Start, prefix + rest).value.raw == ["a"] + tail
  {
    CounterPrefix(prefix);
    AfterPrefix(prefix, rest, tail, Loop(CounterCfgs, CounterTables, Start, prefix).value);
  }

  /** Two plain arguments, the second required: the order rule is broken. */
  lemma RequiredAfterOptionalExample()
    ensures ValidateArguments([Entry("x", Arguments.New), Entry("y", Arguments.New.(required := true))], ["a", "b"])
         == Failure(ArgumentConfigError(RequiredAfterOptional))
  {
    var args := [Entry("x", Arguments.New), Entry("y", Arguments.New.(required := true))];
    assert !args[0].config.required && !args[0].config.multiple;
    assert Walk(args, ["a", "b"], 1, true, false, map["x" := Str("a")]) == Failure(ArgumentConfigError(RequiredAfterOptional));
  }

  /** A multiple argument followed by a plain one: only the last may be multiple. */
  lemma MultipleNotLastExample()
    ensures ValidateArguments([Entry("x", Arguments.New.(multiple := true)), Entry("y", Arguments.New)], ["a", "b"])
         == Failure(ArgumentConfigError(MultipleNotLast))
  {
    var args := [Entry("x", Arguments.New.(multiple := true)), Entry("y", Arguments.New)];
    assert !args[0].config.required && args[0].config.multiple;
    assert Walk(args, ["a", "b"], 1, true, true, map["x" := List([Str("a")])]) == Failure(ArgumentConfigError(MultipleNotLast));
  }

  /** The options and arguments of the mixed-order tests: `x` is required, `y` optional. */
  const MixedOpts := [Entry("a", FlagA), Entry("b", CounterB), Entry("c", ValueC)]
  const MixedArgs := [Entry("x", Arguments.New.(required := true)), Entry("y", Arguments.New)]
  const Mixed := ["x", "-c", "c", "y"]

  /** Each of the mixed-order options is a consistent configuration. */
  lemma MixedConsistent()
    ensures forall i :: 0 <= i < |MixedOpts| ==> Options.Validate(MixedOpts[i].config).thrown.None?
  {
    assert Options.Consistent(FlagA) && Options.Consistent(CounterB) && Options.Consistent(ValueC);
  }

  /** The lookup tables of `-c` alone: its short name, no long names. */
  lemma TableC(kind: NameKind)
    ensures Table([Entry("c", ValueC)], kind) == (if kind == ShortNames then map["c" := "c"] else map[])
  {
    assert [Entry("c", ValueC)][1..] == [];
  }

  /** The lookup tables of `-b` and `-c`. */
  lemma TableB(kind: NameKind)
    ensures Table([Entry("b", CounterB), Entry("c", ValueC)], kind) == (if kind == ShortNames then map["b" := "b", "c" := "c"] else map[])
  {
    assert [Entry("b", CounterB), Entry("c", ValueC)][1..] == [Entry("c", ValueC)];
    TableC(kind);
  }

  /** The lookup tables of all three mixed-order options: `a`, `b`, `c` map to themselves, no long names. */
  lemma TableA(kind: NameKind)
    ensures Table(MixedOpts, kind) == (if kind == ShortNames then map["a" := "a", "b" := "b", "c" := "c"] else map[])
  {
    assert MixedOpts[1..] == [Entry("b", CounterB), Entry("c", ValueC)];
    TableB(kind);
  }

  /** `collectShortLong` on the mixed-order options builds exactly the tables written out above. */
  lemma MixedTables()
    ensures CollectShortLong(MixedOpts) == Success(T)
  {
    MixedConsistent();
    TableA(ShortNames);
    TableA(LongNames);
  }

  /** `-b` and `-c`, keyed by name. */
  lemma MixedConfigsTail()
    ensures ConfigMap(MixedOpts[1..]) == map["b" := CounterB, "c" := ValueC]
  {
    assert MixedOpts[1..][1..] == [Entry("c", ValueC)] && MixedOpts[1..][1..][1..] == [];
    assert ConfigMap(MixedOpts[1..][1..]) == map["c" := ValueC];
  }

  /** The mixed-order options, keyed by name, are the configurations the loop scenarios above run on. */
  lemma MixedConfigs()
    ensures ConfigMap(MixedOpts) == Cfgs
  {
    MixedConfigsTail();
  }

  /** A one-character word that is not `-` is collected as a positional token. */
  lemma WordLoop(cfgs: map<string, OptionConfig>, t: Tables, s: Scan, w: string)
    requires Fits(cfgs, t) && Inv(cfgs, s) && s.mode == Scanning && |w| == 1 && w[0] != '-'
    ensures Loop(cfgs, t, s, [w]) == Success(s.(raw := s.raw + [w]))
  {
    assert !Text.StartsWith(w, "-") by {
      assert w[..1] == [w[0]];
    }
    assert [w][0] == w && [w][1..] == [];
  }

  /** From a scanning state with nothing recorded, `-c` leaves the loop awaiting the value of `c`. */
  lemma ShortValueStep(s: Scan)
    requires s.mode == Scanning && s.values == map[] && s.used == map[]
    ensures Fits(Cfgs, T) && Inv(Cfgs, s)
    ensures Step(Cfgs, T, s, "-c") == Success(Stepped(s.(mode := Awaiting("c"), used := map["c" := "-c"]), None))
  {
    assert ApplyBundle(Cfgs, T, s, "c", "-c") == Success(s.(mode := Awaiting("c"), used := map["c" := "-c"])) by {
      assert ["c"[0]] == "c" && "c"[1..] == [];
    }
    assert "-c"[1..] == "c" && "-c"[..2] == "-c" && "-c"[..1] == "-";
  }

  /** `x -c c y`: the value of `-c` is stored and the two words around it are positional, in order. */
  lemma MixedLoop()
    ensures Fits(Cfgs, T)
    ensures Loop(Cfgs, T, Start, Mixed) == Success(Scan(Scanning, map["c" := Str("c")], map["c" := "-c"], ["x", "y"]))
  {
    var s1 := Start.(raw := ["x"]);
    WordLoop(Cfgs, T, Start, "x");
    assert Start.raw + ["x"] == ["x"];
    var s2 := s1.(mode := Awaiting("c"), used := map["c" := "-c"]);
    ShortValueStep(s1);
    AwaitedValue(Cfgs, T, s1, "-c", "c", s2);
    var s3 := s2.(mode := Scanning, values := map["c" := Str("c")]);
    LoopThen(Cfgs, T, Start, ["x"], ["-c", "c"], s1);
    WordLoop(Cfgs, T, s3, "y");
    assert s3.raw + ["y"] == ["x", "y"];
    assert Mixed == (["x"] + ["-c", "c"]) + ["y"];
    LoopThen(Cfgs, T, Start, ["x"] + ["-c", "c"], ["y"], s3);
  }

  /** The post-pass over `-c` alone, once `-a` and `-b` have their defaults: `-c` keeps its value. */
  lemma MixedOptionsLast(values: map<string, Value>, used: map<string, string>)
    requires values == map["a" := Null, "b" := Null, "c" := Str("c")] && used == map["c" := "-c"]
    ensures UniqueNames(MixedOpts[2..]) && UsedCovers(MixedOpts[2..], values, used)
    ensures ValidateOptions(MixedOpts[2..], values, used) == Success(values)
  {
    assert MixedOpts[2..] == [Entry("c", ValueC)] && MixedOpts[2..][1..] == [];
    assert "c" != HelpOptionName;
  }

  /** The post-pass over `-b` and `-c`, once `-a` has its default: `-b` gets its default `null`. */
  lemma MixedOptionsMiddle(values: map<string, Value>, used: map<string, string>)
    requires values == map["a" := Null, "c" := Str("c")] && used == map["c" := "-c"]
    ensures UniqueNames(MixedOpts[1..]) && UsedCovers(MixedOpts[1..], values, used)
    ensures ValidateOptions(MixedOpts[1..], values, used) == Success(values["b" := Null])
  {
    assert MixedOpts[1..][1..] == MixedOpts[2..];
    assert "b" != HelpOptionName && "b" !in values;
    MixedOptionsLast(values["b" := Null], used);
  }

  /** The option post-pass fills in `null` for the absent `-a` and `-b` and keeps the value of `-c`. */
  lemma MixedOptions()
    ensures UniqueNames(MixedOpts) && UsedCovers(MixedOpts, map["c" := Str("c")], map["c" := "-c"])
    ensures ValidateOptions(MixedOpts, map["c" := Str("c")], map["c" := "-c"])
         == Success(map["a" := Null, "b" := Null, "c" := Str("c")])
  {
    var values := map["c" := Str("c")];
    assert "a" != HelpOptionName && "a" !in values;
    MixedOptionsMiddle(values["a" := Null], map["c" := "-c"]);
    assert values["a" := Null]["b" := Null] == map["a" := Null, "b" := Null, "c" := Str("c")];
  }

  /** The argument pass gives `x` and `y` the two positional words, in order. */
  lemma MixedArguments()
    ensures UniqueNames(MixedArgs)
    ensures ValidateArguments(MixedArgs, ["x", "y"]) == Success(map["x" := Str("x"), "y" := Str("y")])
  {
    var raw := ["x", "y"];
    var acc := map["x" := Str("x"), "y" := Str("y")];
    assert !MixedArgs[1].config.required;
    assert Walk(MixedArgs, raw, 2, true, false, acc) == Success(acc);
    assert Walk(MixedArgs, raw, 1, false, false, map["x" := Str("x")]) == Success(acc);
    assert Walk(MixedArgs, raw, 0, false, false, map[]) == Success(acc);
  }

  /**
    * `parse(['x', '-c', 'c', 'y'])` with `-a`, `-b`, `-c` and the arguments
    * `x` (required) and `y`: the absent options are `null`, `-c` has its
    * value and both arguments are filled, as tests/ParserTest.php expects.
    */
  lemma MixedParse()
    ensures UniqueNames(MixedOpts) && UniqueNames(MixedArgs)
    ensures Parse(MixedOpts, MixedArgs, Mixed)
         == Success(Parsed(map["a" := Null, "b" := Null, "c" := Str("c")], map["x" := Str("x"), "y" := Str("y")]))
  {
    MixedTables();
    MixedConfigs();
    MixedLoop();
    MixedOptions();
    MixedArguments();
  }
}
