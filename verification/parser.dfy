/**
  * The parsing engine (src/Parser.php): resolves short and long names, runs a
  * token-by-token state machine over the command line, then fills option
  * defaults and runs validators, then assigns positional arguments.
  */
module Parser {
  import opened Wrappers
  import opened Values
  import opened Errors
  import opened Text
  import Options
  import Arguments

  type OptionConfig = Options.OptionConfig
  type ArgumentConfig = Arguments.ArgumentConfig

  /** The reserved registration name of the help option. */
  const HelpOptionName := "__HELP"

  /** One entry of an ordered, name-keyed PHP array of configurations. */
  datatype Entry<T> = Entry(name: string, config: T)

  /** A PHP array never holds one key twice. */
  ghost predicate UniqueNames<T>(es: seq<Entry<T>>) {
    forall i, j :: 0 <= i < j < |es| ==> es[i].name != es[j].name
  }

  ghost function Names<T>(es: seq<Entry<T>>): set<string> {
    set e | e in es :: e.name
  }

  /** The names of a non-empty list: the first entry's and those of the rest. */
  lemma NamesCons<T>(es: seq<Entry<T>>)
    requires es != []
    ensures Names(es) == {es[0].name} + Names(es[1..])
  {
    assert forall e :: e in es <==> e == es[0] || e in es[1..];
  }

  /** The registration names of `es[i..]`. */
  lemma NamesFrom<T>(es: seq<Entry<T>>, i: nat, n: string)
    requires i <= |es|
    ensures n in Names(es[i..]) <==> exists j :: i <= j < |es| && es[j].name == n
  {
    if n in Names(es[i..]) {
      var e :| e in es[i..] && e.name == n;
      var k :| 0 <= k < |es[i..]| && es[i..][k] == e;
      assert es[i + k].name == n;
    }
    if exists j :: i <= j < |es| && es[j].name == n {
      var j :| i <= j < |es| && es[j].name == n;
      assert es[i..][j - i] == es[j];
    }
  }

  /** Dropping the first entry keeps names unique, and no later entry shares the first one's name. */
  lemma UniqueTail<T>(es: seq<Entry<T>>)
    requires UniqueNames(es) && |es| > 0
    ensures UniqueNames(es[1..])
    ensures forall i :: 0 <= i < |es[1..]| ==> es[1..][i].name != es[0].name && es[1..][i] == es[i + 1]
  {
    forall a, b | 0 <= a < b < |es[1..]| ensures es[1..][a].name != es[1..][b].name {
      assert es[1..][a] == es[a + 1] && es[1..][b] == es[b + 1];
    }
  }

  /** With distinct names, an entry's name is not among those registered after it. */
  lemma NameNotLater<T>(es: seq<Entry<T>>, i: nat)
    requires UniqueNames(es) && i < |es|
    ensures es[i].name !in Names(es[i + 1..])
  {
    forall x | x in es[i + 1..] ensures x.name != es[i].name {
      var k :| 0 <= k < |es[i + 1..]| && es[i + 1..][k] == x;
      assert es[i + 1 + k] == x;
    }
  }

  /** Random access to the option configurations by registration name. */
  function ConfigMap(opts: seq<Entry<OptionConfig>>): (m: map<string, OptionConfig>)
    ensures m.Keys == Names(opts)
    decreases |opts|
  {
    if opts == [] then map[]
    else
      NamesCons(opts);
      map[opts[0].name := opts[0].config] + ConfigMap(opts[1..])
  }

  /** With unique names, every entry's configuration is found under its own name. */
  lemma {:induction false} ConfigMapFinds(opts: seq<Entry<OptionConfig>>, i: nat)
    requires UniqueNames(opts) && i < |opts|
    ensures ConfigMap(opts)[opts[i].name] == opts[i].config
    decreases |opts|
  {
    var tail := opts[1..];
    assert ConfigMap(opts) == map[opts[0].name := opts[0].config] + ConfigMap(tail);
    if i == 0 {
      NameNotLater(opts, 0);
    } else {
      UniqueTail(opts);
      assert tail[i - 1] == opts[i] && tail[i - 1] in tail;
      ConfigMapFinds(tail, i - 1);
    }
  }

  /** The call-scoped lookup tables: short name to registration name, long name to registration name. */
  datatype Tables = Tables(shorts: map<string, string>, longs: map<string, string>)

  /** The two kinds of option name the lookup tables index. */
  datatype NameKind = ShortNames | LongNames

  /** The option's short or long name. */
  function NameOf(o: OptionConfig, kind: NameKind): Option<string> {
    match kind
    case ShortNames => o.short
    case LongNames => o.long
  }

  /** `opts[i]` is the last option registered with `n` as its short or long name. */
  ghost predicate LastDeclaring(opts: seq<Entry<OptionConfig>>, kind: NameKind, i: int, n: string) {
    0 <= i < |opts| && NameOf(opts[i].config, kind) == Some(n)
    && forall j :: i < j < |opts| ==> NameOf(opts[j].config, kind) != Some(n)
  }

  /** The names an option contributes to a lookup table, registered under its name. */
  function Declares(name: string, field: Option<string>): map<string, string> {
    if field.Some? then map[field.value := name] else map[]
  }

  /** One lookup table: every declared name maps to the option declaring it, later options overriding earlier ones. */
  function Table(opts: seq<Entry<OptionConfig>>, kind: NameKind): (m: map<string, string>)
    ensures forall n :: n in m ==> m[n] in Names(opts)
    decreases |opts|
  {
    if opts == [] then map[]
    else
      assert forall n :: n in Names(opts[1..]) ==> n in Names(opts);
      Declares(opts[0].name, NameOf(opts[0].config, kind)) + Table(opts[1..], kind)
  }

  /** Some option declares `n` as its short (or long) name. */
  ghost predicate DeclaredIn(opts: seq<Entry<OptionConfig>>, kind: NameKind, n: string) {
    exists i :: 0 <= i < |opts| && NameOf(opts[i].config, kind) == Some(n)
  }

  /** `n` is declared in a list when the first option declares it or the rest does. */
  lemma DeclaredInCons(opts: seq<Entry<OptionConfig>>, kind: NameKind, n: string)
    requires opts != []
    ensures DeclaredIn(opts, kind, n) <==> NameOf(opts[0].config, kind) == Some(n) || DeclaredIn(opts[1..], kind, n)
  {
    var tail := opts[1..];
    if DeclaredIn(opts, kind, n) {
      var i :| 0 <= i < |opts| && NameOf(opts[i].config, kind) == Some(n);
      if i > 0 { assert tail[i - 1] == opts[i]; }
    }
    if DeclaredIn(tail, kind, n) {
      var i :| 0 <= i < |tail| && NameOf(tail[i].config, kind) == Some(n);
      assert opts[i + 1] == tail[i];
    }
  }

  /** A lookup table holds exactly the names some option declares. */
  lemma {:induction false} TableHoldsDeclared(opts: seq<Entry<OptionConfig>>, kind: NameKind, n: string)
    ensures n in Table(opts, kind) <==> DeclaredIn(opts, kind, n)
    decreases |opts|
  {
    if opts != [] {
      TableHoldsDeclared(opts[1..], kind, n);
      DeclaredInCons(opts, kind, n);
    }
  }

  /** Each name in a lookup table resolves to the LAST option declaring it. */
  lemma {:induction false} TableResolvesToLast(opts: seq<Entry<OptionConfig>>, kind: NameKind, i: int, n: string)
    requires LastDeclaring(opts, kind, i, n)
    ensures n in Table(opts, kind) && Table(opts, kind)[n] == opts[i].name
    decreases |opts|
  {
    var tail := opts[1..];
    if i > 0 {
      assert LastDeclaring(tail, kind, i - 1, n) by {
        forall j | i - 1 < j < |tail| ensures NameOf(tail[j].config, kind) != Some(n) {
          assert tail[j] == opts[j + 1];
        }
      }
      TableResolvesToLast(tail, kind, i - 1, n);
    } else {
      TableHoldsDeclared(tail, kind, n);
      assert forall j :: 0 <= j < |tail| ==> tail[j] == opts[j + 1];
    }
  }

  /**
    * `collectShortLong`: reads every option through the validating accessor,
    * in registration order (so the first inconsistent option throws), and
    * builds the short and long lookup tables.
    */
  function CollectShortLong(opts: seq<Entry<OptionConfig>>): (r: Result<Tables, Error>)
    ensures r.Success? <==> forall i :: 0 <= i < |opts| ==> Options.Validate(opts[i].config).thrown.None?
    ensures r.Failure? ==> r.error == OptionConfigError(IncompatibleSettings)
    ensures r.Success? ==> r.value == Tables(Table(opts, ShortNames), Table(opts, LongNames))
    decreases |opts|
  {
    if opts == [] then Success(Tables(map[], map[]))
    else
      var e := opts[0];
      if Options.Validate(e.config).thrown.Some? then Failure(OptionConfigError(IncompatibleSettings))
      else
        var t :- CollectShortLong(opts[1..]);
        assert forall i :: 1 <= i < |opts| ==> opts[i] == opts[1..][i - 1];
        Success(Tables(Declares(e.name, e.config.short) + t.shorts, Declares(e.name, e.config.long) + t.longs))
  }

  /** Where the token loop is: scanning for options, awaiting a value for an option, or past `--`. */
  datatype Mode = Scanning | Awaiting(option: string) | PositionalOnly

  /**
    * The loop's state: its mode, the values applied so far, the token each
    * option was last invoked with (for error messages), and the positional
    * tokens collected so far.
    */
  datatype Scan = Scan(mode: Mode, values: map<string, Value>, used: map<string, string>, raw: seq<string>)

  const Start := Scan(Scanning, map[], map[], [])

  /** The lookup tables only name configured options. */
  ghost predicate Fits(cfgs: map<string, OptionConfig>, t: Tables) {
    && (forall c :: c in t.shorts ==> t.shorts[c] in cfgs)
    && (forall l :: l in t.longs ==> t.longs[l] in cfgs)
  }

  /**
    * The loop invariant: an awaited option is configured, not the help option,
    * and has an invocation token; every applied value belongs to a configured
    * option other than the help option, and has an invocation token.
    */
  ghost predicate Inv(cfgs: map<string, OptionConfig>, s: Scan) {
    && (s.mode.Awaiting? ==> s.mode.option in cfgs && s.mode.option in s.used && s.mode.option != HelpOptionName)
    && s.values.Keys <= s.used.Keys
    && s.values.Keys <= cfgs.Keys
    && HelpOptionName !in s.values
  }

  /** Whether invoking an option makes the loop wait for its value (`addOption`'s return). */
  predicate TakesValue(cfg: OptionConfig) {
    cfg.incrementable.None? && cfg.argument.Some?
  }

  /** A counter's current count; an option not yet seen counts as 0. */
  function CountOf(values: map<string, Value>, name: string): int {
    if name in values && values[name].Int? then values[name].i else 0
  }

  /**
    * `addOption`: records `token` as the option's invocation spelling; a
    * counter adds its step, a flag is set to `!negated`, and an option that
    * takes a value makes the loop await it.
    */
  function AddOption(cfg: OptionConfig, s: Scan, name: string, token: string, negated: bool): (r: Scan)
    ensures r.used == s.used[name := token] && r.raw == s.raw
    ensures r.mode == (if TakesValue(cfg) then Awaiting(name) else Scanning)
    ensures forall k :: k != name ==> (k in r.values <==> k in s.values)
    ensures forall k :: k != name && k in s.values ==> r.values[k] == s.values[k]
    ensures cfg.incrementable.Some? ==> name in r.values && r.values[name] == Int(CountOf(s.values, name) + cfg.incrementable.value)
    ensures cfg.incrementable.None? && cfg.argument.None? ==> name in r.values && r.values[name] == Bool(!negated)
    ensures TakesValue(cfg) ==> r.values == s.values
  {
    var s := s.(used := s.used[name := token]);
    if cfg.incrementable.Some? then
      s.(values := s.values[name := Int(CountOf(s.values, name) + cfg.incrementable.value)], mode := Scanning)
    else if cfg.argument.None? then
      s.(values := s.values[name := Bool(!negated)], mode := Scanning)
    else
      s.(mode := Awaiting(name))
  }

  /** The values already collected for a multiple option (none if it has not been given yet). */
  function PriorItems(values: map<string, Value>, name: string): seq<Value> {
    if name in values && values[name].List? then values[name].items else []
  }

  /** Stores an awaited value: appended to a multiple option's list, otherwise replacing any earlier value. */
  function StoreValue(cfg: OptionConfig, values: map<string, Value>, name: string, token: string): (r: map<string, Value>)
    ensures r.Keys == values.Keys + {name}
    ensures forall k :: k != name && k in values ==> r[k] == values[k]
    ensures cfg.multiple ==> r[name] == List(PriorItems(values, name) + [Str(token)])
    ensures !cfg.multiple ==> r[name] == Str(token)
  {
    if cfg.multiple then values[name := List(PriorItems(values, name) + [Str(token)])]
    else values[name := Str(token)]
  }

  /** A long name resolved to an option, and whether it was the `--no<name>` form. */
  datatype Resolved = Resolved(option: string, negated: bool)

  /**
    * Resolves the name of a `--name` token: `no<x>` means `x` negated when `x`
    * is a registered long name whose option is negatable; otherwise the name is
    * looked up as it is.
    */
  function ResolveLong(cfgs: map<string, OptionConfig>, t: Tables, name: string): (r: Option<Resolved>)
    requires Fits(cfgs, t)
    ensures r.Some? ==> r.value.option in cfgs
    ensures r.Some? && r.value.negated ==>
      StartsWith(name, "no") && name[2..] in t.longs && r.value.option == t.longs[name[2..]] && cfgs[r.value.option].negatable
    ensures r.Some? && !r.value.negated ==> name in t.longs && r.value.option == t.longs[name]
    ensures r.None? <==> name !in t.longs && !(StartsWith(name, "no") && name[2..] in t.longs && cfgs[t.longs[name[2..]]].negatable)
  {
    if StartsWith(name, "no") && name[2..] in t.longs && cfgs[t.longs[name[2..]]].negatable then
      Some(Resolved(t.longs[name[2..]], true))
    else if name in t.longs then Some(Resolved(t.longs[name], false))
    else None
  }

  /**
    * A short bundle `-xyz`: every character is resolved and applied left to
    * right; an unknown character or the help option aborts.
    */
  function ApplyBundle(cfgs: map<string, OptionConfig>, t: Tables, s: Scan, chars: string, token: string): (r: Result<Scan, Error>)
    requires Fits(cfgs, t) && Inv(cfgs, s)
    ensures r.Success? ==> Inv(cfgs, r.value) && r.value.raw == s.raw
    ensures r.Success? && chars == [] ==> r.value == s
    ensures r.Success? && chars != [] ==> r.value.mode != PositionalOnly
    ensures r.Failure? ==> r.error == ShowHelp || r.error == UnrecognizedOption(token)
    decreases |chars|
  {
    if chars == [] then Success(s)
    else
      var key := [chars[0]];
      if key !in t.shorts then Failure(UnrecognizedOption(token))
      else if t.shorts[key] == HelpOptionName then Failure(ShowHelp)
      else
        var name := t.shorts[key];
        ApplyBundle(cfgs, t, AddOption(cfgs[name], s, name, token, false), chars[1..], token)
  }

  /** The result of one step of the loop: the new state and the token `--name=value` inserts, if any. */
  datatype Stepped = Stepped(scan: Scan, inserted: Option<string>)

  /** The name part of a long token's body: the text before the first `=`. */
  function LongName(body: string): string {
    Explode(body, '=')[0]
  }

  /** The inline value of a long token's body: the text between its first and second `=`. */
  function InlineValue(body: string): Option<string> {
    var parts := Explode(body, '=');
    if |parts| > 1 then Some(parts[1]) else None
  }

  /**
    * A `--name` or `--name=value` token: the name resolves to an option,
    * which is applied; `=value` is handed back to be read as the next token.
    */
  function LongToken(cfgs: map<string, OptionConfig>, t: Tables, s: Scan, token: string): (r: Result<Stepped, Error>)
    requires Fits(cfgs, t) && Inv(cfgs, s) && |token| >= 2
    ensures r.Success? ==> Inv(cfgs, r.value.scan) && r.value.scan.raw == s.raw
    ensures r.Success? ==> r.value.scan.mode != PositionalOnly
    ensures r.Success? && r.value.inserted.Some? ==> '=' in token && '=' !in r.value.inserted.value
    ensures r.Failure? ==> r.error == ShowHelp || r.error == UnrecognizedOption(token)
  {
    var body := token[2..];
    var inserted := InlineValue(body);
    assert inserted.Some? ==> '=' in token by {
      if inserted.Some? {
        var k :| 0 <= k < |body| && body[k] == '=';
        assert token[k + 2] == '=';
      }
    }
    match ResolveLong(cfgs, t, LongName(body))
    case None => Failure(UnrecognizedOption(token))
    case Some(res) =>
      if res.option == HelpOptionName then Failure(ShowHelp)
      else Success(Stepped(AddOption(cfgs[res.option], s, res.option, token, res.negated), inserted))
  }

  /**
    * One iteration of the token loop: past `--` every token is positional;
    * an awaited value is taken verbatim; otherwise the token is `--`, `-`, a
    * long option, a short bundle or a positional token.
    */
  function Step(cfgs: map<string, OptionConfig>, t: Tables, s: Scan, token: string): (r: Result<Stepped, Error>)
    requires Fits(cfgs, t) && Inv(cfgs, s)
    ensures r.Success? ==> Inv(cfgs, r.value.scan) && s.raw <= r.value.scan.raw
    ensures r.Success? && r.value.inserted.Some? ==> '=' in token && '=' !in r.value.inserted.value
    ensures r.Failure? ==> r.error == ShowHelp || r.error == UnrecognizedOption(token)
    ensures s.mode == PositionalOnly ==> r == Success(Stepped(s.(raw := s.raw + [token]), None))
    ensures s.mode.Awaiting? ==>
      r == Success(Stepped(s.(mode := Scanning, values := StoreValue(cfgs[s.mode.option], s.values, s.mode.option, token)), None))
    ensures s.mode == Scanning && token == "--" ==> r == Success(Stepped(s.(mode := PositionalOnly), None))
    ensures s.mode == Scanning && (token == "-" || !StartsWith(token, "-")) ==>
      r == Success(Stepped(s.(raw := s.raw + [token]), None))
    ensures s.mode != PositionalOnly && r.Success? ==> r.value.scan.mode != PositionalOnly || token == "--"
    ensures s.mode == Scanning && token != "--" && r.Success? ==> r.value.scan.raw == s.raw || r.value.scan.raw == s.raw + [token]
  {
    match s.mode
    case PositionalOnly => Success(Stepped(s.(raw := s.raw + [token]), None))
    case Awaiting(name) =>
      Success(Stepped(s.(mode := Scanning, values := StoreValue(cfgs[name], s.values, name, token)), None))
    case Scanning =>
      if token == "--" then Success(Stepped(s.(mode := PositionalOnly), None))
      else if token == "-" then Success(Stepped(s.(raw := s.raw + [token]), None))
      else if StartsWith(token, "--") then LongToken(cfgs, t, s, token)
      else if StartsWith(token, "-") then
        var bundle :- ApplyBundle(cfgs, t, s, token[1..], token);
        Success(Stepped(bundle, None))
      else Success(Stepped(s.(raw := s.raw + [token]), None))
  }

  /** How much work is left: a token carrying `=` counts twice, since it may insert one more token. */
  function Weight(tokens: seq<string>): nat {
    if tokens == [] then 0
    else (if '=' in tokens[0] then 2 else 1) + Weight(tokens[1..])
  }

  /**
    * `processOptions`' loop: steps through the tokens, pushing a token that
    * `--name=value` inserts to the front of the ones still to read.
    */
  function Loop(cfgs: map<string, OptionConfig>, t: Tables, s: Scan, tokens: seq<string>): (r: Result<Scan, Error>)
    requires Fits(cfgs, t) && Inv(cfgs, s)
    ensures r.Success? ==> Inv(cfgs, r.value) && s.raw <= r.value.raw
    ensures r.Failure? ==> r.error == ShowHelp || r.error.UnrecognizedOption?
    decreases Weight(tokens)
  {
    if tokens == [] then Success(s)
    else
      var st :- Step(cfgs, t, s, tokens[0]);
      var rest := tokens[1..];
      match st.inserted
      case None => Loop(cfgs, t, st.scan, rest)
      case Some(v) =>
        assert ([v] + rest)[1..] == rest;
        Loop(cfgs, t, st.scan, [v] + rest)
  }

  /**
    * A bundle that leaves the loop awaiting a value awaits it for an option
    * that takes one and was invoked by the bundle's token, provided the state
    * it started from was already like that.
    */
  lemma {:induction false} BundleAwaitsRecorded(cfgs: map<string, OptionConfig>, t: Tables, s: Scan, chars: string, token: string)
    requires Fits(cfgs, t) && Inv(cfgs, s) && ApplyBundle(cfgs, t, s, chars, token).Success?
    requires s.mode.Awaiting? ==> s.used[s.mode.option] == token && TakesValue(cfgs[s.mode.option])
    ensures var r := ApplyBundle(cfgs, t, s, chars, token).value;
      r.mode.Awaiting? ==> r.used[r.mode.option] == token && TakesValue(cfgs[r.mode.option])
    decreases |chars|
  {
    if chars != [] {
      var name := t.shorts[[chars[0]]];
      BundleAwaitsRecorded(cfgs, t, AddOption(cfgs[name], s, name, token, false), chars[1..], token);
    }
  }

  /**
    * A step that leaves the loop awaiting a value awaits it for an option that
    * takes one, and records that step's token as the option's spelling.
    */
  lemma StepAwaitsRecorded(cfgs: map<string, OptionConfig>, t: Tables, s: Scan, token: string)
    requires Fits(cfgs, t) && Inv(cfgs, s) && Step(cfgs, t, s, token).Success?
    ensures var r := Step(cfgs, t, s, token).value.scan;
      r.mode.Awaiting? ==> r.used[r.mode.option] == token && TakesValue(cfgs[r.mode.option])
  {
    if s.mode == Scanning && token != "--" && token != "-" && !StartsWith(token, "--") && StartsWith(token, "-") {
      BundleAwaitsRecorded(cfgs, t, s, token[1..], token);
    }
  }

  /**
    * `processOptions`: runs the loop; input that ends while a value is awaited
    * is an error carrying the token recorded for the awaited option, which is
    * the token of the step that started the wait.
    */
  function ProcessOptions(cfgs: map<string, OptionConfig>, t: Tables, tokens: seq<string>): (r: Result<Scan, Error>)
    requires Fits(cfgs, t)
    ensures r.Success? ==> Inv(cfgs, r.value) && !r.value.mode.Awaiting?
    ensures r.Failure? ==> r.error == ShowHelp || r.error.UnrecognizedOption? || r.error.MissingOptionArgument?
    ensures var l := Loop(cfgs, t, Start, tokens);
      (r.Failure? && r.error.MissingOptionArgument?) <==> (l.Success? && l.value.mode.Awaiting?)
    ensures var l := Loop(cfgs, t, Start, tokens);
      l.Success? && l.value.mode.Awaiting? ==>
        l.value.mode.option in l.value.used && r == Failure(MissingOptionArgument(l.value.used[l.value.mode.option]))
    ensures var l := Loop(cfgs, t, Start, tokens);
      (l.Failure? || !l.value.mode.Awaiting?) ==> r == l
  {
    var s :- Loop(cfgs, t, Start, tokens);
    if s.mode.Awaiting? then Failure(MissingOptionArgument(s.used[s.mode.option]))
    else Success(s)
  }

  /** The values an option's validator is run on: each element of a multiple option's list, else the one value. */
  function Checked(cfg: OptionConfig, v: Value): seq<Value> {
    if cfg.multiple then (if v.List? then v.items else []) else [v]
  }

  /** Every value passes the validator (vacuously so without one). */
  ghost predicate AllAccepted(validator: Option<Value -> bool>, vs: seq<Value>) {
    validator.Some? ==> forall k :: 0 <= k < |vs| ==> validator.value(vs[k])
  }

  /** The first value the validator rejects, if any. */
  function FirstRejected(validator: Option<Value -> bool>, vs: seq<Value>): (r: Option<Value>)
    ensures r.None? <==> AllAccepted(validator, vs)
    ensures r.Some? ==> validator.Some? && exists k :: (0 <= k < |vs| && vs[k] == r.value && !validator.value(vs[k])
      && forall m :: 0 <= m < k ==> validator.value(vs[m]))
  {
    match validator
    case None => None
    case Some(f) =>
      if vs == [] then None
      else if !f(vs[0]) then Some(vs[0])
      else
        var r := FirstRejected(validator, vs[1..]);
        assert forall k :: 1 <= k < |vs| ==> vs[k] == vs[1..][k - 1];
        r
  }

  /** What the option post-pass demands of one option, given the values the loop applied. */
  ghost predicate OptionAccepted(e: Entry<OptionConfig>, values: map<string, Value>) {
    e.name == HelpOptionName
    || (e.name !in values && !e.config.required)
    || (e.name in values && AllAccepted(e.config.validator, Checked(e.config, values[e.name])))
  }

  /** The error the option post-pass raises for an option that is not accepted. */
  ghost predicate OptionErrorFor(err: Error, e: Entry<OptionConfig>, values: map<string, Value>, used: map<string, string>) {
    if e.name !in values then err == MissingOptions
    else
      && e.name in used
      && err.InvalidOption? && err.option == used[e.name]
      && FirstRejected(e.config.validator, Checked(e.config, values[e.name])) == Some(err.value)
  }

  /** Every option that has a value also has an invocation token. */
  ghost predicate UsedCovers(opts: seq<Entry<OptionConfig>>, values: map<string, Value>, used: map<string, string>) {
    forall i :: 0 <= i < |opts| && opts[i].name in values ==> opts[i].name in used
  }

  /**
    * `validateOptions`: for each configured option except the help option, in
    * registration order: absent and required is an error, absent and optional
    * gets the configured default (never validated), present has its value(s)
    * validated, the first rejected value being an error.
    */
  function ValidateOptions(opts: seq<Entry<OptionConfig>>, values: map<string, Value>, used: map<string, string>)
    : (r: Result<map<string, Value>, Error>)
    requires UniqueNames(opts) && UsedCovers(opts, values, used)
    ensures r.Success? ==> r.value.Keys == values.Keys + (Names(opts) - {HelpOptionName})
    ensures r.Success? ==> forall k :: k in values ==> r.value[k] == values[k]
    ensures r.Failure? ==> r.error == MissingOptions || r.error.InvalidOption?
    decreases |opts|
  {
    if opts == [] then Success(values)
    else
      var e := opts[0];
      var tail := opts[1..];
      UniqueTail(opts);
      NamesCons(opts);
      if e.name == HelpOptionName then
        ValidateOptions(tail, values, used)
      else if e.name !in values then
        if e.config.required then Failure(MissingOptions)
        else ValidateOptions(tail, values[e.name := e.config.defaultValue], used)
      else
        match FirstRejected(e.config.validator, Checked(e.config, values[e.name]))
        case Some(v) => Failure(InvalidOption(used[e.name], v))
        case None => ValidateOptions(tail, values, used)
  }

  /** The values the post-pass carries past an accepted option: its default filled in when it is absent. */
  function PassedOn(e: Entry<OptionConfig>, values: map<string, Value>): map<string, Value> {
    if e.name != HelpOptionName && e.name !in values then values[e.name := e.config.defaultValue] else values
  }

  /** Past an accepted first option, the post-pass continues over the rest with the values passed on. */
  lemma ValidateOptionsCons(opts: seq<Entry<OptionConfig>>, values: map<string, Value>, used: map<string, string>)
    requires UniqueNames(opts) && UsedCovers(opts, values, used) && opts != [] && OptionAccepted(opts[0], values)
    ensures UniqueNames(opts[1..]) && UsedCovers(opts[1..], PassedOn(opts[0], values), used)
    ensures ValidateOptions(opts, values, used) == ValidateOptions(opts[1..], PassedOn(opts[0], values), used)
  {
    UniqueTail(opts);
  }

  /** The post-pass stops at a first option it does not accept, with the error for that option. */
  lemma ValidateOptionsRejects(opts: seq<Entry<OptionConfig>>, values: map<string, Value>, used: map<string, string>)
    requires UniqueNames(opts) && UsedCovers(opts, values, used) && opts != [] && !OptionAccepted(opts[0], values)
    ensures ValidateOptions(opts, values, used).Failure?
    ensures OptionErrorFor(ValidateOptions(opts, values, used).error, opts[0], values, used)
  {
    UniqueTail(opts);
  }

  /** Filling in the first option's default changes nothing for a later, differently named option. */
  lemma PassedOnIgnored(opts: seq<Entry<OptionConfig>>, values: map<string, Value>, used: map<string, string>, j: int, err: Error)
    requires UniqueNames(opts) && 0 < j < |opts|
    ensures OptionAccepted(opts[j], PassedOn(opts[0], values)) <==> OptionAccepted(opts[j], values)
    ensures OptionErrorFor(err, opts[j], PassedOn(opts[0], values), used) <==> OptionErrorFor(err, opts[j], values, used)
  {
    assert opts[j].name != opts[0].name;
  }

  /** The option post-pass succeeds exactly when every configured option is accepted. */
  lemma {:induction false} ValidateOptionsSucceedsIff(opts: seq<Entry<OptionConfig>>, values: map<string, Value>, used: map<string, string>)
    requires UniqueNames(opts) && UsedCovers(opts, values, used)
    ensures ValidateOptions(opts, values, used).Success? <==> forall i :: 0 <= i < |opts| ==> OptionAccepted(opts[i], values)
    decreases |opts|
  {
    if opts != [] {
      var e := opts[0];
      if OptionAccepted(e, values) {
        var values' := PassedOn(e, values);
        ValidateOptionsCons(opts, values, used);
        ValidateOptionsSucceedsIff(opts[1..], values', used);
        forall j | 0 < j < |opts| ensures OptionAccepted(opts[j], values') <==> OptionAccepted(opts[j], values) {
          PassedOnIgnored(opts, values, used, j, MissingOptions);
        }
        assert forall i :: 0 <= i < |opts[1..]| ==> opts[1..][i] == opts[i + 1];
      } else {
        ValidateOptionsRejects(opts, values, used);
      }
    }
  }

  /** An option missing from the command line gets exactly its configured default, unvalidated. */
  lemma {:induction false} ValidateOptionsFillsDefaults(opts: seq<Entry<OptionConfig>>, values: map<string, Value>, used: map<string, string>, i: nat)
    requires UniqueNames(opts) && UsedCovers(opts, values, used)
    requires ValidateOptions(opts, values, used).Success?
    requires i < |opts| && opts[i].name != HelpOptionName && opts[i].name !in values
    ensures ValidateOptions(opts, values, used).value[opts[i].name] == opts[i].config.defaultValue
    decreases |opts|
  {
    var e := opts[0];
    UniqueTail(opts);
    assert OptionAccepted(e, values);
    ValidateOptionsCons(opts, values, used);
    if i > 0 {
      assert opts[1..][i - 1] == opts[i];
      ValidateOptionsFillsDefaults(opts[1..], PassedOn(e, values), used, i - 1);
    }
  }

  /** A failing option post-pass reports the first option, in registration order, that is not accepted. */
  lemma {:induction false} ValidateOptionsFirstError(opts: seq<Entry<OptionConfig>>, values: map<string, Value>, used: map<string, string>)
    requires UniqueNames(opts) && UsedCovers(opts, values, used)
    requires ValidateOptions(opts, values, used).Failure?
    ensures exists i :: (0 <= i < |opts| && !OptionAccepted(opts[i], values)
      && (forall j :: 0 <= j < i ==> OptionAccepted(opts[j], values))
      && OptionErrorFor(ValidateOptions(opts, values, used).error, opts[i], values, used))
    decreases |opts|
  {
    var e := opts[0];
    var err := ValidateOptions(opts, values, used).error;
    if !OptionAccepted(e, values) {
      ValidateOptionsRejects(opts, values, used);
    } else {
      var values' := PassedOn(e, values);
      var tail := opts[1..];
      ValidateOptionsCons(opts, values, used);
      ValidateOptionsFirstError(tail, values', used);
      var i :| 0 <= i < |tail| && !OptionAccepted(tail[i], values')
        && (forall j :: 0 <= j < i ==> OptionAccepted(tail[j], values'))
        && OptionErrorFor(err, tail[i], values', used);
      var w := i + 1;
      assert opts[w] == tail[i];
      forall j | 0 <= j < w ensures OptionAccepted(opts[j], values) {
        if j > 0 {
          assert opts[j] == tail[j - 1];
          PassedOnIgnored(opts, values, used, j, err);
        }
      }
      PassedOnIgnored(opts, values, used, w, err);
      assert !OptionAccepted(opts[w], values) && OptionErrorFor(err, opts[w], values, used);
    }
  }

  /** Whether the validator (if any) accepts a positional token. */
  predicate TokenAccepted(validator: Option<Value -> bool>, token: string) {
    validator.None? || validator.value(Str(token))
  }

  /** Argument `j` is required but registered after an optional one. */
  ghost predicate RequiredFollowsOptional(args: seq<Entry<ArgumentConfig>>, j: int)
    requires 0 <= j < |args|
  {
    args[j].config.required && exists k :: 0 <= k < j && !args[k].config.required
  }

  /** Argument `j` is not multiple but registered after a multiple one. */
  ghost predicate AfterMultiple(args: seq<Entry<ArgumentConfig>>, j: int)
    requires 0 <= j < |args|
  {
    !args[j].config.multiple && exists k :: 0 <= k < j && args[k].config.multiple
  }

  /**
    * What the argument pass demands of argument `j`: its configuration passes
    * validation, it does not break the ordering rules, a required argument has
    * a token, and the validator accepts the token at position `j`.
    */
  ghost predicate ArgumentAccepted(args: seq<Entry<ArgumentConfig>>, raw: seq<string>, j: int)
    requires 0 <= j < |args|
  {
    && Arguments.Validate(args[j].config).thrown.None?
    && !RequiredFollowsOptional(args, j)
    && !AfterMultiple(args, j)
    && (j >= |raw| ==> !args[j].config.required)
    && (j < |raw| ==> TokenAccepted(args[j].config.validator, raw[j]))
  }

  /** The error the argument pass raises at the first argument that is not accepted, in the source's order of checks. */
  ghost function ArgumentError(args: seq<Entry<ArgumentConfig>>, raw: seq<string>, j: int): Error
    requires 0 <= j < |args|
  {
    if Arguments.Validate(args[j].config).thrown.Some? then ArgumentConfigError(RequiredWithDefault)
    else if RequiredFollowsOptional(args, j) then ArgumentConfigError(RequiredAfterOptional)
    else if AfterMultiple(args, j) then ArgumentConfigError(MultipleNotLast)
    else if j >= |raw| then MissingArguments
    else InvalidArgument(raw[j])
  }

  /** What argument `j` receives in the walk: its token (as a one-element list if multiple), or its default. */
  function Assigned(args: seq<Entry<ArgumentConfig>>, raw: seq<string>, j: int): Value
    requires 0 <= j < |args|
  {
    if j < |raw| then (if args[j].config.multiple then List([Str(raw[j])]) else Str(raw[j]))
    else args[j].config.defaultValue
  }

  /** Whether argument `j` has seen an optional / a multiple argument before it. */
  ghost predicate SeenFlags(args: seq<Entry<ArgumentConfig>>, i: nat, optionalSeen: bool, multipleSeen: bool)
    requires i <= |args|
  {
    && (optionalSeen <==> exists k :: 0 <= k < i && !args[k].config.required)
    && (multipleSeen <==> exists k :: 0 <= k < i && args[k].config.multiple)
  }

  /**
    * The walk of `validateArguments` from argument `i` on: argument `j` takes
    * the `j`-th positional token (the source shifts them off the front of the
    * list one by one). `optionalSeen` and `multipleSeen` are the source's
    * `$nonRequiredSet` and `$multipleSet` flags.
    */
  function Walk(args: seq<Entry<ArgumentConfig>>, raw: seq<string>, i: nat,
                optionalSeen: bool, multipleSeen: bool, acc: map<string, Value>)
    : (r: Result<map<string, Value>, Error>)
    requires i <= |args| && SeenFlags(args, i, optionalSeen, multipleSeen)
    ensures r.Success? ==> r.value.Keys == acc.Keys + Names(args[i..])
    ensures r.Success? ==> forall k :: k in acc && k !in Names(args[i..]) ==> r.value[k] == acc[k]
    decreases |args| - i
  {
    if i == |args| then Success(acc)
    else
      var a := args[i].config;
      NamesCons(args[i..]);
      assert args[i..][1..] == args[i + 1..];
      if Arguments.Validate(a).thrown.Some? then Failure(Arguments.Validate(a).thrown.value)
      else if a.required && optionalSeen then Failure(ArgumentConfigError(RequiredAfterOptional))
      else if !a.multiple && multipleSeen then Failure(ArgumentConfigError(MultipleNotLast))
      else
        var optionalSeen' := optionalSeen || !a.required;
        var multipleSeen' := multipleSeen || a.multiple;
        if i >= |raw| then
          if a.required then Failure(MissingArguments)
          else Walk(args, raw, i + 1, optionalSeen', multipleSeen', acc[args[i].name := a.defaultValue])
        else if !TokenAccepted(a.validator, raw[i]) then Failure(InvalidArgument(raw[i]))
        else
          var v := if multipleSeen' then List([Str(raw[i])]) else Str(raw[i]);
          Walk(args, raw, i + 1, optionalSeen', multipleSeen', acc[args[i].name := v])
  }

  /** Argument `i` passes the walk's checks, given the flags the walk carries to it. */
  ghost predicate PassesAt(args: seq<Entry<ArgumentConfig>>, raw: seq<string>, i: nat, optionalSeen: bool, multipleSeen: bool)
    requires i < |args|
  {
    var a := args[i].config;
    && Arguments.Validate(a).thrown.None?
    && !(a.required && optionalSeen)
    && !(!a.multiple && multipleSeen)
    && (i >= |raw| ==> !a.required)
    && (i < |raw| ==> TokenAccepted(a.validator, raw[i]))
  }

  /** With the right flags, passing the walk's checks is being accepted. */
  lemma PassesAtIff(args: seq<Entry<ArgumentConfig>>, raw: seq<string>, i: nat, optionalSeen: bool, multipleSeen: bool)
    requires i < |args| && SeenFlags(args, i, optionalSeen, multipleSeen)
    ensures PassesAt(args, raw, i, optionalSeen, multipleSeen) <==> ArgumentAccepted(args, raw, i)
  {
  }

  /** Past an argument that passes, the walk goes on with the flags updated and the argument assigned. */
  lemma WalkStep(args: seq<Entry<ArgumentConfig>>, raw: seq<string>, i: nat, optionalSeen: bool, multipleSeen: bool, acc: map<string, Value>)
    requires i < |args| && SeenFlags(args, i, optionalSeen, multipleSeen) && PassesAt(args, raw, i, optionalSeen, multipleSeen)
    ensures SeenFlags(args, i + 1, optionalSeen || !args[i].config.required, multipleSeen || args[i].config.multiple)
    ensures Walk(args, raw, i, optionalSeen, multipleSeen, acc)
         == Walk(args, raw, i + 1, optionalSeen || !args[i].config.required, multipleSeen || args[i].config.multiple,
                 acc[args[i].name := Assigned(args, raw, i)])
  {
  }

  /** A walk that fails at argument `i` reports the error for its first broken rule. */
  lemma WalkStops(args: seq<Entry<ArgumentConfig>>, raw: seq<string>, i: nat, optionalSeen: bool, multipleSeen: bool, acc: map<string, Value>)
    requires i < |args| && SeenFlags(args, i, optionalSeen, multipleSeen) && !PassesAt(args, raw, i, optionalSeen, multipleSeen)
    ensures Walk(args, raw, i, optionalSeen, multipleSeen, acc).Failure?
    ensures Walk(args, raw, i, optionalSeen, multipleSeen, acc).error == ArgumentError(args, raw, i)
  {
    var a := args[i].config;
    if Arguments.Validate(a).thrown.None? && a.required && optionalSeen {
      assert RequiredFollowsOptional(args, i);
    } else if Arguments.Validate(a).thrown.None? && !a.multiple && multipleSeen {
      assert !RequiredFollowsOptional(args, i) && AfterMultiple(args, i);
    } else if Arguments.Validate(a).thrown.None? {
      assert !RequiredFollowsOptional(args, i) && !AfterMultiple(args, i);
    }
  }

  /** The walk from argument `i` succeeds exactly when every argument from `i` on is accepted. */
  lemma {:induction false} WalkSucceedsIff(args: seq<Entry<ArgumentConfig>>, raw: seq<string>, i: nat,
                                           optionalSeen: bool, multipleSeen: bool, acc: map<string, Value>)
    requires i <= |args| && SeenFlags(args, i, optionalSeen, multipleSeen)
    ensures Walk(args, raw, i, optionalSeen, multipleSeen, acc).Success?
      <==> forall j :: i <= j < |args| ==> ArgumentAccepted(args, raw, j)
    decreases |args| - i
  {
    if i < |args| {
      PassesAtIff(args, raw, i, optionalSeen, multipleSeen);
      if PassesAt(args, raw, i, optionalSeen, multipleSeen) {
        WalkStep(args, raw, i, optionalSeen, multipleSeen, acc);
        var a := args[i].config;
        WalkSucceedsIff(args, raw, i + 1, optionalSeen || !a.required, multipleSeen || a.multiple, acc[args[i].name := Assigned(args, raw, i)]);
      } else {
        WalkStops(args, raw, i, optionalSeen, multipleSeen, acc);
      }
    }
  }

  /** A failing walk reports the first argument that is not accepted, with the error for its first broken rule. */
  lemma {:induction false} WalkFirstError(args: seq<Entry<ArgumentConfig>>, raw: seq<string>, i: nat,
                                          optionalSeen: bool, multipleSeen: bool, acc: map<string, Value>)
    requires i <= |args| && SeenFlags(args, i, optionalSeen, multipleSeen)
    requires Walk(args, raw, i, optionalSeen, multipleSeen, acc).Failure?
    ensures exists j :: (i <= j < |args| && !ArgumentAccepted(args, raw, j)
      && (forall k :: i <= k < j ==> ArgumentAccepted(args, raw, k))
      && Walk(args, raw, i, optionalSeen, multipleSeen, acc).error == ArgumentError(args, raw, j))
    decreases |args| - i
  {
    PassesAtIff(args, raw, i, optionalSeen, multipleSeen);
    if !PassesAt(args, raw, i, optionalSeen, multipleSeen) {
      WalkStops(args, raw, i, optionalSeen, multipleSeen, acc);
    } else {
      WalkStep(args, raw, i, optionalSeen, multipleSeen, acc);
      var a := args[i].config;
      WalkFirstError(args, raw, i + 1, optionalSeen || !a.required, multipleSeen || a.multiple, acc[args[i].name := Assigned(args, raw, i)]);
    }
  }

  /**
    * On success, with distinct argument names, every argument from `i` on holds
    * what `Assigned` says: its own token (wrapped in a list when multiple) or its default.
    */
  lemma {:induction false} WalkAssigns(args: seq<Entry<ArgumentConfig>>, raw: seq<string>, i: nat,
                                       optionalSeen: bool, multipleSeen: bool, acc: map<string, Value>, j: nat)
    requires i <= j < |args| && SeenFlags(args, i, optionalSeen, multipleSeen) && UniqueNames(args)
    requires Walk(args, raw, i, optionalSeen, multipleSeen, acc).Success?
    ensures Walk(args, raw, i, optionalSeen, multipleSeen, acc).value[args[j].name] == Assigned(args, raw, j)
    decreases |args| - i
  {
    if !PassesAt(args, raw, i, optionalSeen, multipleSeen) {
      WalkStops(args, raw, i, optionalSeen, multipleSeen, acc);
    }
    WalkStep(args, raw, i, optionalSeen, multipleSeen, acc);
    var a := args[i].config;
    var acc' := acc[args[i].name := Assigned(args, raw, i)];
    if j == i {
      NameNotLater(args, i);
    } else {
      WalkAssigns(args, raw, i + 1, optionalSeen || !a.required, multipleSeen || a.multiple, acc', j);
    }
  }

  /** The last registered argument, if it is multiple, takes every surplus token. */
  predicate LastIsMultiple(args: seq<Entry<ArgumentConfig>>) {
    |args| > 0 && args[|args| - 1].config.multiple
  }

  /**
    * `validateArguments`: the walk over the registered arguments, then the
    * surplus tokens, if any, are appended to a trailing multiple argument or
    * rejected.
    */
  function ValidateArguments(args: seq<Entry<ArgumentConfig>>, raw: seq<string>): (r: Result<map<string, Value>, Error>)
    requires UniqueNames(args)
    ensures r.Success? <==> (forall j :: 0 <= j < |args| ==> ArgumentAccepted(args, raw, j)) && (|raw| <= |args| || LastIsMultiple(args))
    ensures r.Success? ==> r.value.Keys == Names(args)
    ensures r.Success? ==> forall j :: 0 <= j < |args| && (j < |args| - 1 || |raw| <= |args|) ==> r.value[args[j].name] == Assigned(args, raw, j)
    ensures r.Success? && |raw| > |args| ==> r.value[args[|args| - 1].name] == List(Strs(raw[|args| - 1..]))
    ensures r.Failure? && (forall j :: 0 <= j < |args| ==> ArgumentAccepted(args, raw, j)) ==> r.error == TooManyArguments
    ensures r.Failure? && !(forall j :: 0 <= j < |args| ==> ArgumentAccepted(args, raw, j)) ==>
      exists j :: (0 <= j < |args| && !ArgumentAccepted(args, raw, j)
        && (forall k :: 0 <= k < j ==> ArgumentAccepted(args, raw, k))
        && r.error == ArgumentError(args, raw, j))
  {
    WalkSucceedsIff(args, raw, 0, false, false, map[]);
    assert args[0..] == args;
    var walk := Walk(args, raw, 0, false, false, map[]);
    if walk.Failure? then
      WalkFirstError(args, raw, 0, false, false, map[]);
      Failure(walk.error)
    else
      var placed := walk.value;
      WalkAssignsAll(args, raw);
      if |raw| <= |args| then Success(placed)
      else if LastIsMultiple(args) then
        var last := args[|args| - 1].name;
        SurplusMerged(args, raw, placed);
        Success(placed[last := List(placed[last].items + Strs(raw[|args|..]))])
      else Failure(TooManyArguments)
  }

  /**
    * Appending the surplus tokens to the last, multiple argument's list gives
    * it every token from its own position on, and leaves the others alone.
    */
  lemma SurplusMerged(args: seq<Entry<ArgumentConfig>>, raw: seq<string>, placed: map<string, Value>)
    requires UniqueNames(args) && LastIsMultiple(args) && |raw| > |args|
    requires placed.Keys == Names(args)
    requires forall j :: 0 <= j < |args| ==> args[j].name in placed && placed[args[j].name] == Assigned(args, raw, j)
    ensures var last := args[|args| - 1].name;
      && last in placed && placed[last].List?
      && var merged := placed[last := List(placed[last].items + Strs(raw[|args|..]))];
      && merged.Keys == Names(args)
      && merged[last] == List(Strs(raw[|args| - 1..]))
      && forall j :: 0 <= j < |args| - 1 ==> merged[args[j].name] == Assigned(args, raw, j)
  {
    var n := |args| - 1;
    assert placed[args[n].name] == List([Str(raw[n])]);
    StrsCons(raw, n);
    forall j | 0 <= j < n ensures args[j].name != args[n].name {
    }
  }

  /** A successful walk from the first argument assigns every argument what `Assigned` says. */
  lemma WalkAssignsAll(args: seq<Entry<ArgumentConfig>>, raw: seq<string>)
    requires UniqueNames(args) && Walk(args, raw, 0, false, false, map[]).Success?
    ensures forall j :: 0 <= j < |args| ==> Walk(args, raw, 0, false, false, map[]).value[args[j].name] == Assigned(args, raw, j)
  {
    forall j | 0 <= j < |args| ensures Walk(args, raw, 0, false, false, map[]).value[args[j].name] == Assigned(args, raw, j) {
      WalkAssigns(args, raw, 0, false, false, map[], j);
    }
  }

  /** The strings from position `k` on are the one at `k` followed by those after it. */
  lemma StrsCons(ss: seq<string>, k: nat)
    requires k < |ss|
    ensures [Str(ss[k])] + Strs(ss[k + 1..]) == Strs(ss[k..])
  {
    assert ss[k..] == [ss[k]] + ss[k + 1..];
  }

  /** The outcome of a successful parse: option values and argument values by registration name. */
  datatype Parsed = Parsed(options: map<string, Value>, arguments: map<string, Value>)

  /** The lookup tables built from the configured options only name configured options. */
  lemma TablesFit(opts: seq<Entry<OptionConfig>>)
    ensures Fits(ConfigMap(opts), Tables(Table(opts, ShortNames), Table(opts, LongNames)))
  {
  }

  /**
    * `parse`: collect the short and long names (validating every option
    * configuration), run the token loop, then the option and argument
    * post-passes.
    */
  function Parse(opts: seq<Entry<OptionConfig>>, args: seq<Entry<ArgumentConfig>>, tokens: seq<string>): (r: Result<Parsed, Error>)
    requires UniqueNames(opts) && UniqueNames(args)
    ensures (exists i :: 0 <= i < |opts| && Options.Validate(opts[i].config).thrown.Some?) ==> r == Failure(OptionConfigError(IncompatibleSettings))
    ensures r.Success? ==> r.value.options.Keys == Names(opts) - {HelpOptionName}
    ensures r.Success? ==> r.value.arguments.Keys == Names(args)
  {
    var t :- CollectShortLong(opts);
    var cfgs := ConfigMap(opts);
    TablesFit(opts);
    var s :- ProcessOptions(cfgs, t, tokens);
    assert UsedCovers(opts, s.values, s.used);
    var options :- ValidateOptions(opts, s.values, s.used);
    assert s.values.Keys <= Names(opts) - {HelpOptionName};
    var arguments :- ValidateArguments(args, s.raw);
    Success(Parsed(options, arguments))
  }
}
