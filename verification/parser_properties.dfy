/**
  * Properties of the token loop of src/Parser.php that relate several runs:
  * splitting the input, the `--` terminator, `--name=value` against
  * `--name value`, repeated options, counters, negation and short bundles.
  */
module ParserProperties {
  import opened Wrappers
  import opened Values
  import opened Errors
  import opened Text
  import opened Parser

  /** Splitting `--name=value` at its only `=` gives the name and the value. */
  lemma ExplodePair(name: string, value: string)
    requires '=' !in name && '=' !in value
    ensures Explode(name + ['='] + value, '=') == [name, value]
  {
    var s := name + ['='] + value;
    assert forall j :: 0 <= j < |name| ==> s[j] == name[j];
    assert s[|name|] == '=';
    var k := IndexOf(s, '=');
    assert k == |name|;
    assert s[..k] == name;
    assert s[k + 1..] == value;
  }

  /**
    * Running the loop over `p + q` is running it over `p`, then over `q` from
    * where `p` left off; a failure in `p` is the failure of the whole run.
    */
  lemma {:induction false} LoopConcat(cfgs: map<string, OptionConfig>, t: Tables, s: Scan, p: seq<string>, q: seq<string>)
    requires Fits(cfgs, t) && Inv(cfgs, s)
    ensures Loop(cfgs, t, s, p).Failure? ==> Loop(cfgs, t, s, p + q) == Loop(cfgs, t, s, p)
    ensures Loop(cfgs, t, s, p).Success? ==> Loop(cfgs, t, s, p + q) == Loop(cfgs, t, Loop(cfgs, t, s, p).value, q)
    decreases Weight(p)
  {
    if p == [] {
      assert p + q == q;
    } else {
      assert (p + q)[0] == p[0];
      assert (p + q)[1..] == p[1..] + q;
      var step := Step(cfgs, t, s, p[0]);
      if step.Success? {
        var st := step.value;
        match st.inserted
        case None =>
          LoopConcat(cfgs, t, st.scan, p[1..], q);
        case Some(v) =>
          assert ([v] + p[1..])[1..] == p[1..];
          assert ([v] + p[1..]) + q == [v] + (p[1..] + q);
          LoopConcat(cfgs, t, st.scan, [v] + p[1..], q);
      }
    }
  }

  /** Once the loop has run over `p` and reached `mid`, running it over `p + q` continues from `mid` over `q`. */
  lemma LoopThen(cfgs: map<string, OptionConfig>, t: Tables, s: Scan, p: seq<string>, q: seq<string>, mid: Scan)
    requires Fits(cfgs, t) && Inv(cfgs, s) && Loop(cfgs, t, s, p) == Success(mid)
    ensures Inv(cfgs, mid)
    ensures Loop(cfgs, t, s, p + q) == Loop(cfgs, t, mid, q)
  {
    LoopConcat(cfgs, t, s, p, q);
  }

  /** After `--` every token is collected verbatim, in order, as a positional token. */
  lemma {:induction false} PositionalOnlyVerbatim(cfgs: map<string, OptionConfig>, t: Tables, s: Scan, ts: seq<string>)
    requires Fits(cfgs, t) && Inv(cfgs, s) && s.mode == PositionalOnly
    ensures Loop(cfgs, t, s, ts) == Success(s.(raw := s.raw + ts))
    decreases |ts|
  {
    if ts != [] {
      var s' := s.(raw := s.raw + [ts[0]]);
      assert Step(cfgs, t, s, ts[0]) == Success(Stepped(s', None));
      assert Loop(cfgs, t, s, ts) == Loop(cfgs, t, s', ts[1..]);
      PositionalOnlyVerbatim(cfgs, t, s', ts[1..]);
      assert s'.raw + ts[1..] == s.raw + ts;
      assert s'.(raw := s'.raw + ts[1..]) == s.(raw := s.raw + ts);
    } else {
      assert s.raw + ts == s.raw;
    }
  }

  /** `--` ends option processing: whatever follows, even `-t` or `--test`, is positional. */
  lemma EndOfOptions(cfgs: map<string, OptionConfig>, t: Tables, s: Scan, ts: seq<string>)
    requires Fits(cfgs, t) && Inv(cfgs, s) && s.mode == Scanning
    ensures Loop(cfgs, t, s, ["--"] + ts) == Success(s.(mode := PositionalOnly, raw := s.raw + ts))
  {
    var s' := s.(mode := PositionalOnly);
    assert Loop(cfgs, t, s, ["--"]) == Success(s') by {
      assert ["--"][1..] == [];
    }
    LoopConcat(cfgs, t, s, ["--"], ts);
    PositionalOnlyVerbatim(cfgs, t, s', ts);
  }

  /** A token that leaves an option awaiting its value, then that value: the value is stored verbatim. */
  lemma AwaitedValue(cfgs: map<string, OptionConfig>, t: Tables, s: Scan, token: string, value: string, s1: Scan)
    requires Fits(cfgs, t) && Inv(cfgs, s)
    requires Step(cfgs, t, s, token) == Success(Stepped(s1, None)) && s1.mode.Awaiting?
    ensures Inv(cfgs, s1) && s1.mode.option in cfgs
    ensures Loop(cfgs, t, s, [token, value])
         == Success(s1.(mode := Scanning, values := StoreValue(cfgs[s1.mode.option], s1.values, s1.mode.option, value)))
  {
    var ts := [token, value];
    assert ts[0] == token && ts[1..] == [value];
    var s2 := s1.(mode := Scanning, values := StoreValue(cfgs[s1.mode.option], s1.values, s1.mode.option, value));
    assert Step(cfgs, t, s1, value) == Success(Stepped(s2, None));
    assert Loop(cfgs, t, s1, [value]) == Success(s2) by {
      assert [value][1..] == [];
    }
  }

  /**
    * Input whose last token leaves an option awaiting its value ends in the
    * missing-argument error, and the error names that last token.
    */
  lemma MissingValueNamesToken(cfgs: map<string, OptionConfig>, t: Tables, p: seq<string>, s: Scan, token: string, s1: Scan)
    requires Fits(cfgs, t) && Loop(cfgs, t, Start, p) == Success(s)
    requires Step(cfgs, t, s, token) == Success(Stepped(s1, None)) && s1.mode.Awaiting?
    ensures ProcessOptions(cfgs, t, p + [token]) == Failure(MissingOptionArgument(token))
  {
    LoopThen(cfgs, t, Start, p, [token], s);
    assert Loop(cfgs, t, s, [token]) == Success(s1) by {
      assert [token][0] == token && [token][1..] == [];
    }
    StepAwaitsRecorded(cfgs, t, s, token);
  }

  /**
    * Two loop states that differ only in which token each option was last
    * invoked with (the spelling error messages quote).
    */
  ghost predicate SameButSpelling(a: Scan, b: Scan) {
    a.mode == b.mode && a.values == b.values && a.raw == b.raw && a.used.Keys == b.used.Keys
  }

  /** A short bundle does not look at how options were spelled before. */
  lemma {:induction false} BundleSpellingBlind(cfgs: map<string, OptionConfig>, t: Tables, a: Scan, b: Scan, chars: string, token: string)
    requires Fits(cfgs, t) && Inv(cfgs, a) && Inv(cfgs, b) && SameButSpelling(a, b)
    ensures ApplyBundle(cfgs, t, a, chars, token).Success? == ApplyBundle(cfgs, t, b, chars, token).Success?
    ensures ApplyBundle(cfgs, t, a, chars, token).Failure? ==>
      ApplyBundle(cfgs, t, a, chars, token).error == ApplyBundle(cfgs, t, b, chars, token).error
    ensures ApplyBundle(cfgs, t, a, chars, token).Success? ==>
      SameButSpelling(ApplyBundle(cfgs, t, a, chars, token).value, ApplyBundle(cfgs, t, b, chars, token).value)
    decreases |chars|
  {
    if chars != [] {
      var key := [chars[0]];
      if key in t.shorts && t.shorts[key] != HelpOptionName {
        var name := t.shorts[key];
        AddOptionSpellingBlind(cfgs[name], a, b, name, token, false);
        BundleSpellingBlind(cfgs, t, AddOption(cfgs[name], a, name, token, false), AddOption(cfgs[name], b, name, token, false), chars[1..], token);
      }
    }
  }

  /** Applying an option does not look at how options were spelled before. */
  lemma AddOptionSpellingBlind(cfg: OptionConfig, a: Scan, b: Scan, name: string, token: string, negated: bool)
    requires SameButSpelling(a, b)
    ensures SameButSpelling(AddOption(cfg, a, name, token, negated), AddOption(cfg, b, name, token, negated))
  {
  }

  /** A long option token does not look at how options were spelled before. */
  lemma LongTokenSpellingBlind(cfgs: map<string, OptionConfig>, t: Tables, a: Scan, b: Scan, token: string)
    requires Fits(cfgs, t) && Inv(cfgs, a) && Inv(cfgs, b) && SameButSpelling(a, b) && |token| >= 2
    ensures LongToken(cfgs, t, a, token).Success? == LongToken(cfgs, t, b, token).Success?
    ensures LongToken(cfgs, t, a, token).Failure? ==> LongToken(cfgs, t, a, token).error == LongToken(cfgs, t, b, token).error
    ensures LongToken(cfgs, t, a, token).Success? ==>
      && SameButSpelling(LongToken(cfgs, t, a, token).value.scan, LongToken(cfgs, t, b, token).value.scan)
      && LongToken(cfgs, t, a, token).value.inserted == LongToken(cfgs, t, b, token).value.inserted
  {
    var res := ResolveLong(cfgs, t, LongName(token[2..]));
    if res.Some? && res.value.option != HelpOptionName {
      AddOptionSpellingBlind(cfgs[res.value.option], a, b, res.value.option, token, res.value.negated);
    }
  }

  /** In scanning mode a token starting with `--`, other than `--` itself, is a long option token. */
  lemma StepLong(cfgs: map<string, OptionConfig>, t: Tables, s: Scan, token: string)
    requires Fits(cfgs, t) && Inv(cfgs, s)
    requires s.mode == Scanning && token != "--" && StartsWith(token, "--")
    ensures |token| >= 2 && Step(cfgs, t, s, token) == LongToken(cfgs, t, s, token)
  {
  }

  /** One loop step does not look at how options were spelled before. */
  lemma StepSpellingBlind(cfgs: map<string, OptionConfig>, t: Tables, a: Scan, b: Scan, token: string)
    requires Fits(cfgs, t) && Inv(cfgs, a) && Inv(cfgs, b) && SameButSpelling(a, b)
    ensures Step(cfgs, t, a, token).Success? == Step(cfgs, t, b, token).Success?
    ensures Step(cfgs, t, a, token).Failure? ==> Step(cfgs, t, a, token).error == Step(cfgs, t, b, token).error
    ensures Step(cfgs, t, a, token).Success? ==>
      && SameButSpelling(Step(cfgs, t, a, token).value.scan, Step(cfgs, t, b, token).value.scan)
      && Step(cfgs, t, a, token).value.inserted == Step(cfgs, t, b, token).value.inserted
  {
    if a.mode == Scanning && token != "--" && token != "-" {
      if StartsWith(token, "--") {
        StepLong(cfgs, t, a, token);
        StepLong(cfgs, t, b, token);
        LongTokenSpellingBlind(cfgs, t, a, b, token);
      } else if StartsWith(token, "-") {
        BundleSpellingBlind(cfgs, t, a, b, token[1..], token);
      }
    }
  }

  /** The whole loop does not look at how options were spelled before. */
  lemma {:induction false} LoopSpellingBlind(cfgs: map<string, OptionConfig>, t: Tables, a: Scan, b: Scan, ts: seq<string>)
    requires Fits(cfgs, t) && Inv(cfgs, a) && Inv(cfgs, b) && SameButSpelling(a, b)
    ensures Loop(cfgs, t, a, ts).Success? == Loop(cfgs, t, b, ts).Success?
    ensures Loop(cfgs, t, a, ts).Failure? ==> Loop(cfgs, t, a, ts).error == Loop(cfgs, t, b, ts).error
    ensures Loop(cfgs, t, a, ts).Success? ==> SameButSpelling(Loop(cfgs, t, a, ts).value, Loop(cfgs, t, b, ts).value)
    decreases Weight(ts)
  {
    if ts != [] {
      StepSpellingBlind(cfgs, t, a, b, ts[0]);
      var sa := Step(cfgs, t, a, ts[0]);
      var sb := Step(cfgs, t, b, ts[0]);
      if sa.Success? {
        match sa.value.inserted
        case None =>
          LoopSpellingBlind(cfgs, t, sa.value.scan, sb.value.scan, ts[1..]);
        case Some(v) =>
          assert ([v] + ts[1..])[1..] == ts[1..];
          LoopSpellingBlind(cfgs, t, sa.value.scan, sb.value.scan, [v] + ts[1..]);
      }
    }
  }

  /** `--name=value` and `--name` name the same option; only the first carries a value. */
  lemma InlineTokens(name: string, value: string)
    requires name != "" && '=' !in name && '=' !in value
    ensures var joined, bare := "--" + name + ['='] + value, "--" + name;
      && joined != "--" && StartsWith(joined, "--") && bare != "--" && StartsWith(bare, "--")
      && LongName(joined[2..]) == name && InlineValue(joined[2..]) == Some(value)
      && LongName(bare[2..]) == name && InlineValue(bare[2..]) == None
  {
    var joined := "--" + name + ['='] + value;
    var bare := "--" + name;
    ExplodePair(name, value);
    assert joined[2..] == name + ['='] + value;
    assert bare[2..] == name;
    assert joined[..2] == "--" && bare[..2] == "--";
    assert |bare| > 2 && |joined| > 2;
  }

  /** Applying an option with one spelling or another differs only in the spelling recorded. */
  lemma AddOptionTokenBlind(cfg: OptionConfig, s: Scan, name: string, t1: string, t2: string, negated: bool)
    ensures SameButSpelling(AddOption(cfg, s, name, t1, negated), AddOption(cfg, s, name, t2, negated))
  {
  }

  /** The long-option token `--name=value` and the token `--name` resolve alike; the first inserts `value`. */
  lemma InlineStep(cfgs: map<string, OptionConfig>, t: Tables, s: Scan, name: string, value: string)
    requires Fits(cfgs, t) && Inv(cfgs, s) && s.mode == Scanning
    requires name != "" && '=' !in name && '=' !in value
    ensures Step(cfgs, t, s, "--" + name + ['='] + value).Success? == Step(cfgs, t, s, "--" + name).Success?
    ensures Step(cfgs, t, s, "--" + name + ['='] + value).Failure? ==>
      || Step(cfgs, t, s, "--" + name + ['='] + value).error == Step(cfgs, t, s, "--" + name).error
      || (&& Step(cfgs, t, s, "--" + name + ['='] + value).error == UnrecognizedOption("--" + name + ['='] + value)
          && Step(cfgs, t, s, "--" + name).error == UnrecognizedOption("--" + name))
    ensures Step(cfgs, t, s, "--" + name + ['='] + value).Success? ==>
      && Step(cfgs, t, s, "--" + name + ['='] + value).value.inserted == Some(value)
      && Step(cfgs, t, s, "--" + name).value.inserted == None
      && SameButSpelling(Step(cfgs, t, s, "--" + name + ['='] + value).value.scan, Step(cfgs, t, s, "--" + name).value.scan)
  {
    var joined := "--" + name + ['='] + value;
    var bare := "--" + name;
    InlineTokens(name, value);
    StepLong(cfgs, t, s, joined);
    StepLong(cfgs, t, s, bare);
    var res := ResolveLong(cfgs, t, name);
    if res.Some? && res.value.option != HelpOptionName {
      AddOptionTokenBlind(cfgs[res.value.option], s, res.value.option, joined, bare, res.value.negated);
    }
  }

  /**
    * `--name=value` behaves as `--name value`: both runs fail alike or
    * succeed with the same values, mode and positional tokens; they differ
    * only in the spelling recorded for error messages, and an unknown name
    * is reported with the token as typed.
    */
  lemma InlineValueSameAsSeparate(cfgs: map<string, OptionConfig>, t: Tables, s: Scan, name: string, value: string, rest: seq<string>)
    requires Fits(cfgs, t) && Inv(cfgs, s) && s.mode == Scanning
    requires name != "" && '=' !in name && '=' !in value
    ensures Loop(cfgs, t, s, ["--" + name + ['='] + value] + rest).Success?
        == Loop(cfgs, t, s, ["--" + name, value] + rest).Success?
    ensures Loop(cfgs, t, s, ["--" + name + ['='] + value] + rest).Failure? ==>
      || Loop(cfgs, t, s, ["--" + name + ['='] + value] + rest).error == Loop(cfgs, t, s, ["--" + name, value] + rest).error
      || (&& Loop(cfgs, t, s, ["--" + name + ['='] + value] + rest).error == UnrecognizedOption("--" + name + ['='] + value)
          && Loop(cfgs, t, s, ["--" + name, value] + rest).error == UnrecognizedOption("--" + name))
    ensures Loop(cfgs, t, s, ["--" + name + ['='] + value] + rest).Success? ==>
      SameButSpelling(Loop(cfgs, t, s, ["--" + name + ['='] + value] + rest).value, Loop(cfgs, t, s, ["--" + name, value] + rest).value)
  {
    var joined := "--" + name + ['='] + value;
    var bare := "--" + name;
    var x := [joined] + rest;
    var y := [bare, value] + rest;
    assert x[0] == joined && x[1..] == rest;
    assert y[0] == bare && y[1..] == [value] + rest;
    assert ([value] + rest)[1..] == rest;
    InlineStep(cfgs, t, s, name, value);
    var sx := Step(cfgs, t, s, joined);
    var sy := Step(cfgs, t, s, bare);
    if sx.Success? {
      assert Loop(cfgs, t, s, x) == Loop(cfgs, t, sx.value.scan, [value] + rest);
      assert Loop(cfgs, t, s, y) == Loop(cfgs, t, sy.value.scan, [value] + rest);
      LoopSpellingBlind(cfgs, t, sx.value.scan, sy.value.scan, [value] + rest);
    }
  }

  /** A way of writing one option on the command line: `--<long>` or `-<c>`. */
  datatype Spelling = LongSpelling(long: string) | ShortSpelling(short: char)

  /** The token a spelling stands for. */
  function Spell(sp: Spelling): string {
    match sp
    case LongSpelling(l) => "--" + l
    case ShortSpelling(c) => ['-', c]
  }

  /** The tokens of several spellings, in order. */
  function Spells(sps: seq<Spelling>): (ts: seq<string>)
    ensures |ts| == |sps| && forall k :: 0 <= k < |sps| ==> ts[k] == Spell(sps[k])
  {
    if sps == [] then [] else [Spell(sps[0])] + Spells(sps[1..])
  }

  /** Whether a spelling, as a token of its own, invokes option `name` (not negated, and not the help option). */
  ghost predicate Invokes(cfgs: map<string, OptionConfig>, t: Tables, sp: Spelling, name: string)
    requires Fits(cfgs, t)
  {
    && name != HelpOptionName
    && match sp
       case LongSpelling(l) => l != "" && '=' !in l && ResolveLong(cfgs, t, l) == Some(Resolved(name, false))
       case ShortSpelling(c) => c != '-' && [c] in t.shorts && t.shorts[[c]] == name
  }

  /** A token that invokes an option applies `addOption` to it, whatever its kind. */
  lemma StepInvokes(cfgs: map<string, OptionConfig>, t: Tables, s: Scan, sp: Spelling, name: string)
    requires Fits(cfgs, t) && Inv(cfgs, s) && s.mode == Scanning && Invokes(cfgs, t, sp, name)
    ensures name in cfgs
    ensures Step(cfgs, t, s, Spell(sp)) == Success(Stepped(AddOption(cfgs[name], s, name, Spell(sp), false), None))
  {
    var token := Spell(sp);
    match sp
    case LongSpelling(l) =>
      assert token[..2] == "--" && token[2..] == l && token != "--";
      assert Explode(l, '=') == [l];
    case ShortSpelling(c) =>
      assert token == ['-', c] && token[..1] == "-" && token[1..] == [c];
      assert token[..2] == token && token[1] != '-';
      assert !StartsWith(token, "--") && token != "-" && token != "--" && StartsWith(token, "-");
      assert [c][1..] == [];
      var s1 := AddOption(cfgs[name], s, name, token, false);
      assert ApplyBundle(cfgs, t, s, [c], token) == ApplyBundle(cfgs, t, s1, [], token) == Success(s1);
  }

  /** The tokens `spelling_1 value_1 spelling_2 value_2 ...`. */
  function Interleave(sps: seq<Spelling>, vs: seq<string>): (ts: seq<string>)
    requires |sps| == |vs|
    ensures |ts| == 2 * |vs|
  {
    if vs == [] then [] else [Spell(sps[0]), vs[0]] + Interleave(sps[1..], vs[1..])
  }

  /** Nothing but option `name` changed between two value maps. */
  ghost predicate OthersKept(before: map<string, Value>, after: map<string, Value>, name: string) {
    forall k :: k != name ==> (k in after <==> k in before) && (k in before ==> after[k] == before[k])
  }

  /** The first of two tokens in front of `rest`, and what follows it. */
  lemma PairFront<T>(a: T, b: T, rest: seq<T>)
    ensures ([a, b] + rest)[0] == a && ([a, b] + rest)[1..] == [b] + rest
  {
  }

  /** The loop takes an awaited value verbatim, whatever it looks like. */
  lemma AwaitedStep(cfgs: map<string, OptionConfig>, t: Tables, s: Scan, v: string, rest: seq<string>)
    requires Fits(cfgs, t) && Inv(cfgs, s) && s.mode.Awaiting?
    ensures Loop(cfgs, t, s, [v] + rest)
      == Loop(cfgs, t, s.(mode := Scanning, values := StoreValue(cfgs[s.mode.option], s.values, s.mode.option, v)), rest)
  {
    assert ([v] + rest)[0] == v && ([v] + rest)[1..] == rest;
  }

  /** One invocation of an option that takes a value, followed by that value. */
  lemma OneRound(cfgs: map<string, OptionConfig>, t: Tables, s: Scan, sp: Spelling, v: string, rest: seq<string>, name: string)
    requires Fits(cfgs, t) && Inv(cfgs, s) && s.mode == Scanning && Invokes(cfgs, t, sp, name)
    requires name in cfgs && TakesValue(cfgs[name])
    ensures Loop(cfgs, t, s, [Spell(sp), v] + rest)
      == Loop(cfgs, t, s.(used := s.used[name := Spell(sp)], values := StoreValue(cfgs[name], s.values, name, v)), rest)
  {
    StepInvokes(cfgs, t, s, sp, name);
    var s1 := AddOption(cfgs[name], s, name, Spell(sp), false);
    var ts := [Spell(sp), v] + rest;
    PairFront(Spell(sp), v, rest);
    assert Loop(cfgs, t, s, ts) == Loop(cfgs, t, s1, [v] + rest);
    assert s1 == s.(used := s.used[name := Spell(sp)], mode := Awaiting(name));
    AwaitedStep(cfgs, t, s1, v, rest);
  }

  /** The state after one `spelling value` pair. */
  function AfterRound(cfgs: map<string, OptionConfig>, s: Scan, sp: Spelling, v: string, name: string): Scan
    requires name in cfgs
  {
    s.(used := s.used[name := Spell(sp)], values := StoreValue(cfgs[name], s.values, name, v))
  }

  /** One `spelling value` pair at the front of the tokens. */
  lemma RoundStep(cfgs: map<string, OptionConfig>, t: Tables, s: Scan, sps: seq<Spelling>, vs: seq<string>, name: string)
    requires Fits(cfgs, t) && Inv(cfgs, s) && s.mode == Scanning
    requires |sps| == |vs| > 0 && Invokes(cfgs, t, sps[0], name)
    requires name in cfgs && TakesValue(cfgs[name])
    ensures Inv(cfgs, AfterRound(cfgs, s, sps[0], vs[0], name))
    ensures Loop(cfgs, t, s, Interleave(sps, vs)) == Loop(cfgs, t, AfterRound(cfgs, s, sps[0], vs[0], name), Interleave(sps[1..], vs[1..]))
  {
    var rest := Interleave(sps[1..], vs[1..]);
    OneRound(cfgs, t, s, sps[0], vs[0], rest, name);
    assert Interleave(sps, vs) == [Spell(sps[0]), vs[0]] + rest;
  }

  /**
    * Giving an option that takes a value several times, each time followed by
    * its value, succeeds, leaves the loop scanning with no positional token
    * added, and changes no other option.
    */
  lemma {:induction false} RepeatedRuns(cfgs: map<string, OptionConfig>, t: Tables, s: Scan, sps: seq<Spelling>, vs: seq<string>, name: string)
    requires Fits(cfgs, t) && Inv(cfgs, s) && s.mode == Scanning
    requires |sps| == |vs| > 0 && forall k :: 0 <= k < |sps| ==> Invokes(cfgs, t, sps[k], name)
    requires name in cfgs && TakesValue(cfgs[name])
    ensures Loop(cfgs, t, s, Interleave(sps, vs)).Success?
    ensures Loop(cfgs, t, s, Interleave(sps, vs)).value.mode == Scanning
    ensures Loop(cfgs, t, s, Interleave(sps, vs)).value.raw == s.raw
    ensures name in Loop(cfgs, t, s, Interleave(sps, vs)).value.values
    ensures OthersKept(s.values, Loop(cfgs, t, s, Interleave(sps, vs)).value.values, name)
    decreases |vs|
  {
    var s2 := AfterRound(cfgs, s, sps[0], vs[0], name);
    RoundStep(cfgs, t, s, sps, vs, name);
    assert s2.mode == Scanning;
    if |vs| == 1 {
      assert Interleave(sps[1..], vs[1..]) == [];
      assert Loop(cfgs, t, s, Interleave(sps, vs)) == Success(s2);
    } else {
      RepeatedRuns(cfgs, t, s2, sps[1..], vs[1..], name);
    }
  }

  /** Storing a value of a multiple option appends it to the values collected so far. */
  lemma PriorGrows(cfg: OptionConfig, values: map<string, Value>, name: string, v: string)
    requires cfg.multiple
    ensures PriorItems(StoreValue(cfg, values, name, v), name) == PriorItems(values, name) + [Str(v)]
  {
  }

  /** Appending the first value, then the rest, appends all of them. */
  lemma StrsAfter(prior: seq<Value>, vs: seq<string>)
    requires |vs| > 0
    ensures (prior + [Str(vs[0])]) + Strs(vs[1..]) == prior + Strs(vs)
  {
    var l := (prior + [Str(vs[0])]) + Strs(vs[1..]);
    var r := prior + Strs(vs);
    assert |l| == |r|;
    forall i | 0 <= i < |l|
      ensures l[i] == r[i]
    {
      if i > |prior| {
        assert l[i] == Strs(vs[1..])[i - |prior| - 1] == Str(vs[i - |prior|]);
      }
    }
  }

  /**
    * Giving an option that takes a value several times: a multiple option
    * collects every value in command-line order after those it already had;
    * any other option keeps only the last.
    */
  lemma {:induction false} RepeatedValues(cfgs: map<string, OptionConfig>, t: Tables, s: Scan, sps: seq<Spelling>, vs: seq<string>, name: string)
    requires Fits(cfgs, t) && Inv(cfgs, s) && s.mode == Scanning
    requires |sps| == |vs| > 0 && forall k :: 0 <= k < |sps| ==> Invokes(cfgs, t, sps[k], name)
    requires name in cfgs && TakesValue(cfgs[name])
    ensures Loop(cfgs, t, s, Interleave(sps, vs)).Success? && name in Loop(cfgs, t, s, Interleave(sps, vs)).value.values
    ensures cfgs[name].multiple ==>
      Loop(cfgs, t, s, Interleave(sps, vs)).value.values[name] == List(PriorItems(s.values, name) + Strs(vs))
    ensures !cfgs[name].multiple ==> Loop(cfgs, t, s, Interleave(sps, vs)).value.values[name] == Str(vs[|vs| - 1])
    decreases |vs|
  {
    RepeatedRuns(cfgs, t, s, sps, vs, name);
    var s2 := AfterRound(cfgs, s, sps[0], vs[0], name);
    RoundStep(cfgs, t, s, sps, vs, name);
    assert s2.mode == Scanning;
    if |vs| == 1 {
      assert Interleave(sps[1..], vs[1..]) == [];
      assert Loop(cfgs, t, s, Interleave(sps, vs)) == Success(s2);
      assert Strs(vs) == [Str(vs[0])];
    } else {
      RepeatedValues(cfgs, t, s2, sps[1..], vs[1..], name);
      assert vs[1..][|vs[1..]| - 1] == vs[|vs| - 1];
      if cfgs[name].multiple {
        PriorGrows(cfgs[name], s.values, name, vs[0]);
        StrsAfter(PriorItems(s.values, name), vs);
      }
    }
  }

  /** `base + step` plus `n` more steps is `base` plus `n + 1` steps. */
  lemma MoreTimes(base: int, n: int, step: int)
    ensures (base + step) + n * step == base + (n + 1) * step
  {
  }

  /** One invocation of a counter at the front of the tokens. */
  lemma CounterStep(cfgs: map<string, OptionConfig>, t: Tables, s: Scan, sps: seq<Spelling>, name: string)
    requires Fits(cfgs, t) && Inv(cfgs, s) && s.mode == Scanning
    requires |sps| > 0 && Invokes(cfgs, t, sps[0], name)
    requires name in cfgs && cfgs[name].incrementable.Some?
    ensures Inv(cfgs, AddOption(cfgs[name], s, name, Spell(sps[0]), false))
    ensures Loop(cfgs, t, s, Spells(sps)) == Loop(cfgs, t, AddOption(cfgs[name], s, name, Spell(sps[0]), false), Spells(sps[1..]))
  {
    StepInvokes(cfgs, t, s, sps[0], name);
    var ts := Spells(sps);
    assert ts[0] == Spell(sps[0]) && ts[1..] == Spells(sps[1..]);
  }

  /** Invoking a counter adds its step to its count and changes no other option. */
  lemma CounterApplied(cfg: OptionConfig, s: Scan, name: string, token: string)
    requires cfg.incrementable.Some?
    ensures AddOption(cfg, s, name, token, false).mode == Scanning
    ensures AddOption(cfg, s, name, token, false).raw == s.raw
    ensures name in AddOption(cfg, s, name, token, false).values
    ensures AddOption(cfg, s, name, token, false).values[name] == Int(CountOf(s.values, name) + cfg.incrementable.value)
    ensures CountOf(AddOption(cfg, s, name, token, false).values, name) == CountOf(s.values, name) + cfg.incrementable.value
    ensures OthersKept(s.values, AddOption(cfg, s, name, token, false).values, name)
  {
  }

  /** Changing only `name`, twice, changes only `name`. */
  lemma OthersKeptTrans(a: map<string, Value>, b: map<string, Value>, c: map<string, Value>, name: string)
    requires OthersKept(a, b, name) && OthersKept(b, c, name)
    ensures OthersKept(a, c, name)
  {
  }

  /**
    * Giving a counter option `n` times (`-v -v --verbose`) adds its step `n`
    * times to the count it had; nothing else changes.
    */
  lemma {:induction false} CounterCounts(cfgs: map<string, OptionConfig>, t: Tables, s: Scan, sps: seq<Spelling>, name: string)
    requires Fits(cfgs, t) && Inv(cfgs, s) && s.mode == Scanning
    requires |sps| > 0 && forall k :: 0 <= k < |sps| ==> Invokes(cfgs, t, sps[k], name)
    requires name in cfgs && cfgs[name].incrementable.Some?
    ensures Loop(cfgs, t, s, Spells(sps)).Success?
    ensures Loop(cfgs, t, s, Spells(sps)).value.mode == Scanning
    ensures Loop(cfgs, t, s, Spells(sps)).value.raw == s.raw
    ensures name in Loop(cfgs, t, s, Spells(sps)).value.values
    ensures Loop(cfgs, t, s, Spells(sps)).value.values[name].Int?
    ensures CountOf(Loop(cfgs, t, s, Spells(sps)).value.values, name)
         == CountOf(s.values, name) + |sps| * cfgs[name].incrementable.value
    ensures OthersKept(s.values, Loop(cfgs, t, s, Spells(sps)).value.values, name)
    decreases |sps|
  {
    var step := cfgs[name].incrementable.value;
    var s1 := AddOption(cfgs[name], s, name, Spell(sps[0]), false);
    CounterStep(cfgs, t, s, sps, name);
    CounterApplied(cfgs[name], s, name, Spell(sps[0]));
    if |sps| > 1 {
      CounterCounts(cfgs, t, s1, sps[1..], name);
      MoreTimes(CountOf(s.values, name), |sps| - 1, step);
      OthersKeptTrans(s.values, s1.values, Loop(cfgs, t, s1, Spells(sps[1..])).value.values, name);
    } else {
      assert Spells(sps[1..]) == [];
      assert Loop(cfgs, t, s, Spells(sps)) == Success(s1);
    }
  }

  /**
    * `--no<long>` for a negatable option sets it to false (a flag) and is
    * recorded as its spelling, even when `no<long>` is itself a long name.
    */
  lemma NegatedLong(cfgs: map<string, OptionConfig>, t: Tables, s: Scan, long: string)
    requires Fits(cfgs, t) && Inv(cfgs, s) && s.mode == Scanning
    requires '=' !in long && long in t.longs && t.longs[long] != HelpOptionName && cfgs[t.longs[long]].negatable
    ensures Step(cfgs, t, s, "--no" + long)
         == Success(Stepped(AddOption(cfgs[t.longs[long]], s, t.longs[long], "--no" + long, true), None))
    ensures cfgs[t.longs[long]].incrementable.None? && cfgs[t.longs[long]].argument.None? ==>
      Step(cfgs, t, s, "--no" + long).value.scan.values[t.longs[long]] == Bool(false)
  {
    var token := "--no" + long;
    var body := token[2..];
    assert body == "no" + long;
    assert token[..2] == "--" && token != "--";
    assert '=' !in body;
    assert Explode(body, '=') == [body];
    assert body[..2] == "no" && body[2..] == long;
  }

  /**
    * A short bundle `-xyz` succeeds exactly when every character is a
    * registered short name other than the help option's.
    */
  lemma {:induction false} BundleSucceedsIff(cfgs: map<string, OptionConfig>, t: Tables, s: Scan, chars: string, token: string)
    requires Fits(cfgs, t) && Inv(cfgs, s)
    ensures ApplyBundle(cfgs, t, s, chars, token).Success?
        <==> forall k :: 0 <= k < |chars| ==> [chars[k]] in t.shorts && t.shorts[[chars[k]]] != HelpOptionName
    decreases |chars|
  {
    if chars != [] {
      var key := [chars[0]];
      if key in t.shorts && t.shorts[key] != HelpOptionName {
        var name := t.shorts[key];
        BundleSucceedsIff(cfgs, t, AddOption(cfgs[name], s, name, token, false), chars[1..], token);
        assert forall k :: 1 <= k < |chars| ==> chars[k] == chars[1..][k - 1];
      }
    }
  }

  /** A bundle whose first character names an option other than the help option applies it, then the rest. */
  lemma BundleHead(cfgs: map<string, OptionConfig>, t: Tables, s: Scan, chars: string, token: string, name: string)
    requires Fits(cfgs, t) && Inv(cfgs, s) && chars != []
    requires [chars[0]] in t.shorts && t.shorts[[chars[0]]] == name && name != HelpOptionName
    ensures name in cfgs && Inv(cfgs, AddOption(cfgs[name], s, name, token, false))
    ensures ApplyBundle(cfgs, t, s, chars, token) == ApplyBundle(cfgs, t, AddOption(cfgs[name], s, name, token, false), chars[1..], token)
  {
  }

  /** How many characters of a bundle name option `name`. */
  function Occurrences(t: Tables, chars: string, name: string): nat {
    if chars == [] then 0
    else (if [chars[0]] in t.shorts && t.shorts[[chars[0]]] == name then 1 else 0) + Occurrences(t, chars[1..], name)
  }

  /** A counter named several times in one bundle (`-vvv`) adds its step once for each time. */
  lemma {:induction false} BundleCounts(cfgs: map<string, OptionConfig>, t: Tables, s: Scan, chars: string, token: string, name: string)
    requires Fits(cfgs, t) && Inv(cfgs, s) && ApplyBundle(cfgs, t, s, chars, token).Success?
    requires name in cfgs && cfgs[name].incrementable.Some?
    ensures CountOf(ApplyBundle(cfgs, t, s, chars, token).value.values, name)
         == CountOf(s.values, name) + Occurrences(t, chars, name) * cfgs[name].incrementable.value
    decreases |chars|
  {
    if chars != [] {
      var n := t.shorts[[chars[0]]];
      BundleHead(cfgs, t, s, chars, token, n);
      var s1 := AddOption(cfgs[n], s, n, token, false);
      BundleCounts(cfgs, t, s1, chars[1..], token, name);
      assert Occurrences(t, chars, name) == (if n == name then 1 else 0) + Occurrences(t, chars[1..], name);
      if n == name {
        CounterApplied(cfgs[name], s, name, token);
        MoreTimes(CountOf(s.values, name), Occurrences(t, chars[1..], name), cfgs[name].incrementable.value);
      } else {
        assert CountOf(s1.values, name) == CountOf(s.values, name);
      }
    }
  }

  /** A flag named anywhere in a bundle is set: nothing in a bundle clears a flag. */
  lemma {:induction false} BundleSetsFlag(cfgs: map<string, OptionConfig>, t: Tables, s: Scan, chars: string, token: string, name: string)
    requires Fits(cfgs, t) && Inv(cfgs, s) && ApplyBundle(cfgs, t, s, chars, token).Success?
    requires name in cfgs && cfgs[name].incrementable.None? && cfgs[name].argument.None?
    requires Occurrences(t, chars, name) > 0 || (name in s.values && s.values[name] == Bool(true))
    ensures name in ApplyBundle(cfgs, t, s, chars, token).value.values
    ensures ApplyBundle(cfgs, t, s, chars, token).value.values[name] == Bool(true)
    decreases |chars|
  {
    if chars != [] {
      var n := t.shorts[[chars[0]]];
      BundleSetsFlag(cfgs, t, AddOption(cfgs[n], s, n, token, false), chars[1..], token, name);
    }
  }

  /** A bundle never drops an earlier record of `token` as an option's spelling. */
  lemma {:induction false} BundleKeepsToken(cfgs: map<string, OptionConfig>, t: Tables, s: Scan, chars: string, token: string, n: string)
    requires Fits(cfgs, t) && Inv(cfgs, s) && n in s.used && s.used[n] == token
    requires ApplyBundle(cfgs, t, s, chars, token).Success?
    ensures n in ApplyBundle(cfgs, t, s, chars, token).value.used && ApplyBundle(cfgs, t, s, chars, token).value.used[n] == token
    decreases |chars|
  {
    if chars != [] {
      var name := t.shorts[[chars[0]]];
      BundleKeepsToken(cfgs, t, AddOption(cfgs[name], s, name, token, false), chars[1..], token, n);
    }
  }

  /**
    * In a successful bundle every option named in it is recorded with the
    * whole token as its spelling, and only the last character decides
    * whether the next token is taken as a value.
    */
  lemma {:induction false} BundleLastDecides(cfgs: map<string, OptionConfig>, t: Tables, s: Scan, chars: string, token: string)
    requires Fits(cfgs, t) && Inv(cfgs, s) && chars != []
    requires ApplyBundle(cfgs, t, s, chars, token).Success?
    ensures [chars[|chars| - 1]] in t.shorts
    ensures ApplyBundle(cfgs, t, s, chars, token).value.mode
         == (if TakesValue(cfgs[t.shorts[[chars[|chars| - 1]]]]) then Awaiting(t.shorts[[chars[|chars| - 1]]]) else Scanning)
    ensures forall k :: 0 <= k < |chars| ==>
      (&& [chars[k]] in t.shorts
       && t.shorts[[chars[k]]] in ApplyBundle(cfgs, t, s, chars, token).value.used
       && ApplyBundle(cfgs, t, s, chars, token).value.used[t.shorts[[chars[k]]]] == token)
    decreases |chars|
  {
    var name := t.shorts[[chars[0]]];
    var s1 := AddOption(cfgs[name], s, name, token, false);
    var r := ApplyBundle(cfgs, t, s, chars, token);
    assert r == ApplyBundle(cfgs, t, s1, chars[1..], token);
    BundleKeepsToken(cfgs, t, s1, chars[1..], token, name);
    if |chars| > 1 {
      BundleLastDecides(cfgs, t, s1, chars[1..], token);
      assert chars[1..][|chars[1..]| - 1] == chars[|chars| - 1];
      assert forall k :: 1 <= k < |chars| ==> chars[k] == chars[1..][k - 1];
    } else {
      assert r == ApplyBundle(cfgs, t, s1, [], token);
    }
  }
}
