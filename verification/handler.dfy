/**
  * The facade (src/Handler.php), its pure parts: one namespace shared by
  * options and arguments, the help-option settings, the script-name and
  * help-option handling of `parse`, the usage string and the result
  * accessors.
  */
module Handler {
  import opened Wrappers
  import opened Values
  import opened Errors
  import opened Text
  import Options
  import Arguments
  import Parser

  type OptionConfig = Options.OptionConfig
  type ArgumentConfig = Arguments.ArgumentConfig
  type Entry<T> = Parser.Entry<T>

  /** What a handler holds: the registrations in order, the script name and the usage and help settings. */
  datatype State = State(
    options: seq<Entry<OptionConfig>>,
    arguments: seq<Entry<ArgumentConfig>>,
    scriptName: string,
    helpShort: string,
    helpLong: string,
    terseUsage: bool)

  /** A new handler: nothing registered, script name "php-script", help as `-h` and `--help`. */
  const New := State([], [], "php-script", "h", "help", false)

  /** Whether `name` is a key of the ordered array `es` (`isset($array[$name])`). */
  function Has<T>(es: seq<Entry<T>>, name: string): (r: bool)
    ensures r <==> name in Parser.Names(es)
  {
    if es == [] then false
    else
      Parser.NamesCons(es);
      es[0].name == name || Has(es[1..], name)
  }

  /** The invariant a handler keeps: one namespace for options and arguments, valid help names. */
  ghost predicate Valid(h: State) {
    && Parser.UniqueNames(h.options) && Parser.UniqueNames(h.arguments)
    && Parser.Names(h.options) !! Parser.Names(h.arguments)
    && Options.ValidateShort(h.helpShort) && Options.ValidateLong(h.helpLong)
  }

  /** Appending an entry adds exactly its name. */
  lemma NamesAppend<T>(es: seq<Entry<T>>, e: Entry<T>)
    ensures Parser.Names(es + [e]) == Parser.Names(es) + {e.name}
  {
    assert forall x :: x in es + [e] <==> x in es || x == e;
  }

  /**
    * `addOption($name, $opt)`: refuses a name already used by an option or
    * an argument; otherwise appends the option under that name.
    */
  function AddOption(h: State, name: string, opt: OptionConfig := Options.New): (r: Result<State, Error>)
    ensures r.Failure? <==> name in Parser.Names(h.options) || name in Parser.Names(h.arguments)
    ensures r.Failure? ==> r.error == ConfigError(AlreadySet)
    ensures r.Success? ==> Parser.Names(r.value.options) == Parser.Names(h.options) + {name}
    ensures r.Success? ==> h.options <= r.value.options && r.value.options[|h.options|..] == [Parser.Entry(name, opt)]
    ensures r.Success? ==> r.value.(options := h.options) == h
  {
    if Has(h.options, name) || Has(h.arguments, name) then Failure(ConfigError(AlreadySet))
    else
      NamesAppend(h.options, Parser.Entry(name, opt));
      Success(h.(options := h.options + [Parser.Entry(name, opt)]))
  }

  /**
    * `addArgument($name, $arg)`: refuses a name already used by an option or
    * an argument; otherwise appends the argument under that name.
    */
  function AddArgument(h: State, name: string, arg: ArgumentConfig := Arguments.New): (r: Result<State, Error>)
    ensures r.Failure? <==> name in Parser.Names(h.options) || name in Parser.Names(h.arguments)
    ensures r.Failure? ==> r.error == ConfigError(AlreadySet)
    ensures r.Success? ==> Parser.Names(r.value.arguments) == Parser.Names(h.arguments) + {name}
    ensures r.Success? ==> h.arguments <= r.value.arguments && r.value.arguments[|h.arguments|..] == [Parser.Entry(name, arg)]
    ensures r.Success? ==> r.value.(arguments := h.arguments) == h
  {
    if Has(h.options, name) || Has(h.arguments, name) then Failure(ConfigError(AlreadySet))
    else
      NamesAppend(h.arguments, Parser.Entry(name, arg));
      Success(h.(arguments := h.arguments + [Parser.Entry(name, arg)]))
  }

  /** Registering an option keeps the handler invariant. */
  lemma AddOptionKeepsValid(h: State, name: string, opt: OptionConfig)
    requires Valid(h)
    ensures AddOption(h, name, opt).Success? ==> Valid(AddOption(h, name, opt).value)
  {
  }

  /** Registering an argument keeps the handler invariant. */
  lemma AddArgumentKeepsValid(h: State, name: string, arg: ArgumentConfig)
    requires Valid(h)
    ensures AddArgument(h, name, arg).Success? ==> Valid(AddArgument(h, name, arg).value)
  {
  }

  /** Options and arguments share one namespace: once a name is registered as either, neither kind can take it again. */
  lemma SharedNamespace(h: State, name: string, opt: OptionConfig, arg: ArgumentConfig)
    ensures AddOption(h, name, opt).Success? ==>
      AddArgument(AddOption(h, name, opt).value, name, arg).Failure? && AddOption(AddOption(h, name, opt).value, name, opt).Failure?
    ensures AddArgument(h, name, arg).Success? ==>
      AddOption(AddArgument(h, name, arg).value, name, opt).Failure? && AddArgument(AddArgument(h, name, arg).value, name, arg).Failure?
  {
  }

  /** `setHelpOptionLong($str)`: accepts only a valid long name. */
  function SetHelpOptionLong(h: State, s: string): (r: Result<State, Error>)
    ensures r.Success? <==> Options.ValidateLong(s)
    ensures r.Failure? ==> r.error == ConfigError(HelpLongFormat)
    ensures r.Success? ==> r.value.helpLong == s && r.value.(helpLong := h.helpLong) == h
  {
    if !Options.ValidateLong(s) then Failure(ConfigError(HelpLongFormat))
    else Success(h.(helpLong := s))
  }

  /** `setHelpOptionShort($str)`: accepts only a valid short name. */
  function SetHelpOptionShort(h: State, s: string): (r: Result<State, Error>)
    ensures r.Success? <==> Options.ValidateShort(s)
    ensures r.Failure? ==> r.error == ConfigError(HelpShortFormat)
    ensures r.Success? ==> r.value.helpShort == s && r.value.(helpShort := h.helpShort) == h
  {
    if !Options.ValidateShort(s) then Failure(ConfigError(HelpShortFormat))
    else Success(h.(helpShort := s))
  }

  /** `enableTerseUsage()`: the usage string no longer lists the options one by one. */
  function EnableTerseUsage(h: State): (r: State)
    ensures r.terseUsage && r.(terseUsage := h.terseUsage) == h
  {
    h.(terseUsage := true)
  }

  /** One registration or setting call a program can make on a handler. */
  datatype Call =
    | CallAddOption(name: string, opt: OptionConfig)
    | CallAddArgument(name: string, arg: ArgumentConfig)
    | CallHelpLong(s: string)
    | CallHelpShort(s: string)
    | CallTerseUsage

  /** The handler a call leaves: the new state, or the old one when the call threw. */
  function Kept(r: Result<State, Error>, h: State): State {
    if r.Success? then r.value else h
  }

  /** The handler after one call; a call that throws leaves it as it was. */
  function Apply(h: State, c: Call): State {
    match c
    case CallAddOption(n, o) => Kept(AddOption(h, n, o), h)
    case CallAddArgument(n, a) => Kept(AddArgument(h, n, a), h)
    case CallHelpLong(s) => Kept(SetHelpOptionLong(h, s), h)
    case CallHelpShort(s) => Kept(SetHelpOptionShort(h, s), h)
    case CallTerseUsage => EnableTerseUsage(h)
  }

  /** The handler after a sequence of calls, in order. */
  function Run(h: State, calls: seq<Call>): State
    decreases |calls|
  {
    if calls == [] then h else Run(Apply(h, calls[0]), calls[1..])
  }

  /** A new handler satisfies the invariant. */
  lemma NewIsValid()
    ensures Valid(New)
  {
    assert Options.ValidateLong("help") by {
      assert forall i :: 0 <= i < 4 ==> IsNameChar("help"[i]);
    }
  }

  /** Whatever registrations and settings a program makes, the handler invariant holds. */
  lemma {:induction false} RunKeepsValid(h: State, calls: seq<Call>)
    requires Valid(h)
    ensures Valid(Run(h, calls))
    decreases |calls|
  {
    if calls != [] {
      match calls[0] {
        case CallAddOption(n, o) => AddOptionKeepsValid(h, n, o);
        case CallAddArgument(n, a) => AddArgumentKeepsValid(h, n, a);
        case _ =>
      }
      RunKeepsValid(Apply(h, calls[0]), calls[1..]);
    }
  }

  /** The option state after a setter, or the setter's exception. */
  function Thrown(u: Updated<OptionConfig>): (r: Result<OptionConfig, Error>)
    ensures r.Success? <==> u.thrown.None?
    ensures r.Success? ==> r.value == u.config
    ensures r.Failure? ==> r.error == u.thrown.value
  {
    if u.thrown.Some? then Failure(u.thrown.value) else Success(u.config)
  }

  /**
    * The help option `parse` builds: a fresh option given the long help name
    * and then the short one, each only when set; none when neither is set.
    */
  function HelpOption(short: string, long: string): (r: Result<Option<OptionConfig>, Error>)
    ensures short == "" && long == "" ==> r == Success(None)
    ensures Options.ValidateShort(short) && Options.ValidateLong(long) ==>
      && r.Success? && r.value.Some?
      && r.value.value.short == Some(short) && r.value.value.long == Some(long)
      && Options.Consistent(r.value.value)
    ensures r.Failure? ==> r.error == OptionConfigError(ShortFormat) || r.error == OptionConfigError(LongFormat)
  {
    if short == "" && long == "" then Success(None)
    else
      var withLong :- if long != "" then Thrown(Options.Long(Options.New, long)) else Success(Options.New);
      var withShort :- if short != "" then Thrown(Options.Short(withLong, short)) else Success(withLong);
      Success(Some(withShort))
  }

  /** Stores `c` under `name`: in place when the key exists, as PHP array assignment does, else appended. */
  function Put<T>(es: seq<Entry<T>>, name: string, c: T): (r: seq<Entry<T>>)
    ensures Parser.Names(r) == Parser.Names(es) + {name}
    ensures Parser.UniqueNames(es) ==> Parser.UniqueNames(r)
    ensures exists i :: 0 <= i < |r| && r[i] == Parser.Entry(name, c)
    ensures forall i :: 0 <= i < |r| && r[i].name != name ==> i < |es| && r[i] == es[i]
    ensures name !in Parser.Names(es) ==> r == es + [Parser.Entry(name, c)]
  {
    if Has(es, name) then
      var r := seq(|es|, i requires 0 <= i < |es| => if es[i].name == name then Parser.Entry(name, c) else es[i]);
      PutInPlace(es, name, c, r);
      r
    else
      NamesAppend(es, Parser.Entry(name, c));
      es + [Parser.Entry(name, c)]
  }

  /** Overwriting the entries keyed `name` keeps the names and makes `c` the value under `name`. */
  lemma PutInPlace<T>(es: seq<Entry<T>>, name: string, c: T, r: seq<Entry<T>>)
    requires name in Parser.Names(es)
    requires |r| == |es| && forall i :: 0 <= i < |es| ==> r[i] == if es[i].name == name then Parser.Entry(name, c) else es[i]
    ensures Parser.Names(r) == Parser.Names(es) + {name}
    ensures exists i :: 0 <= i < |r| && r[i] == Parser.Entry(name, c)
  {
    forall e | e in es ensures e in r || e.name == name {
      var i :| 0 <= i < |es| && es[i] == e;
      assert r[i] == e || e.name == name;
    }
    var k :| 0 <= k < |es| && es[k].name == name;
    assert r[k] == Parser.Entry(name, c);
  }

  /** The help option, with the given short and long names, is registered under the reserved name. */
  ghost predicate HelpRegistered(opts: seq<Entry<OptionConfig>>, short: string, long: string) {
    exists i :: 0 <= i < |opts| && opts[i].name == Parser.HelpOptionName
      && opts[i].config.short == Some(short) && opts[i].config.long == Some(long)
  }

  /** What `parse` leaves behind: the handler after it, and the parser's outcome. */
  datatype Parsing = Parsing(state: State, result: Result<Parser.Parsed, Error>)

  /** The tokens `parse` hands to the parser: everything after the script name. */
  function Tokens(argv: seq<string>): seq<string> {
    if argv == [] then [] else argv[1..]
  }

  /**
    * `parse($inputArgs)`: the first token becomes the script name; the help
    * option is registered under the reserved name; the parser runs on the
    * remaining tokens.
    */
  function Parse(h: State, argv: seq<string>): (r: Parsing)
    requires Parser.UniqueNames(h.options) && Parser.UniqueNames(h.arguments)
    ensures r.state.scriptName == (if argv == [] then h.scriptName else argv[0])
    ensures r.state.(scriptName := h.scriptName, options := h.options) == h
    ensures Parser.UniqueNames(r.state.options)
    ensures forall n :: n != Parser.HelpOptionName ==> (n in Parser.Names(r.state.options) <==> n in Parser.Names(h.options))
    ensures Valid(h) ==> HelpRegistered(r.state.options, h.helpShort, h.helpLong)
    ensures Valid(h) ==> r.result == Parser.Parse(r.state.options, h.arguments, Tokens(argv))
    ensures r.result.Success? ==> r.result.value.options.Keys == Parser.Names(h.options) - {Parser.HelpOptionName}
    ensures r.result.Success? ==> r.result.value.arguments.Keys == Parser.Names(h.arguments)
  {
    var h' := h.(scriptName := if argv == [] then h.scriptName else argv[0]);
    match HelpOption(h.helpShort, h.helpLong)
    case Failure(e) => Parsing(h', Failure(e))
    case Success(None) => Parsing(h', Parser.Parse(h.options, h.arguments, Tokens(argv)))
    case Success(Some(help)) =>
      var opts := Put(h.options, Parser.HelpOptionName, help);
      Parsing(h'.(options := opts), Parser.Parse(opts, h.arguments, Tokens(argv)))
  }

  /**
    * `getOption($option, $default)`: the parsed value when the option has an
    * entry in the result (even a null one), otherwise the caller's default.
    */
  function GetOption(p: Parser.Parsed, name: string, default: Value): (r: Value)
    ensures name in p.options ==> r == p.options[name]
    ensures name !in p.options ==> r == default
  {
    if name in p.options then p.options[name] else default
  }

  /** `getArgument($argument, $default)`: the parsed value when present in the result, otherwise the default. */
  function GetArgument(p: Parser.Parsed, name: string, default: Value): (r: Value)
    ensures name in p.arguments ==> r == p.arguments[name]
    ensures name !in p.arguments ==> r == default
  {
    if name in p.arguments then p.arguments[name] else default
  }

  /**
    * After a successful parse, the default passed to `getOption` or
    * `getArgument` matters exactly for names that were never registered (and
    * for the help option, which never has a result entry).
    */
  lemma DefaultOnlyForUnregistered(h: State, argv: seq<string>, name: string, d1: Value, d2: Value)
    requires Parser.UniqueNames(h.options) && Parser.UniqueNames(h.arguments)
    requires Parse(h, argv).result.Success?
    ensures var p := Parse(h, argv).result.value;
      (name in Parser.Names(h.options) && name != Parser.HelpOptionName ==> GetOption(p, name, d1) == GetOption(p, name, d2))
      && (name !in Parser.Names(h.options) || name == Parser.HelpOptionName ==> GetOption(p, name, d1) == d1)
      && (name in Parser.Names(h.arguments) ==> GetArgument(p, name, d1) == GetArgument(p, name, d2))
      && (name !in Parser.Names(h.arguments) ==> GetArgument(p, name, d1) == d1)
  {
  }

  /** The token loop `parse` runs over the tables built from `opts`. */
  function TokenLoop(opts: seq<Entry<OptionConfig>>, tokens: seq<string>): Result<Parser.Scan, Error> {
    Parser.TablesFit(opts);
    Parser.ProcessOptions(Parser.ConfigMap(opts), Parser.Tables(Parser.Table(opts, Parser.ShortNames), Parser.Table(opts, Parser.LongNames)), tokens)
  }

  /** A parse whose token loop shows the help shows the help, once every option configuration is valid. */
  lemma LoopShowsHelp(opts: seq<Entry<OptionConfig>>, args: seq<Entry<ArgumentConfig>>, tokens: seq<string>)
    requires Parser.UniqueNames(opts) && Parser.UniqueNames(args)
    requires forall i :: 0 <= i < |opts| ==> Options.Validate(opts[i].config).thrown.None?
    requires TokenLoop(opts, tokens) == Failure(ShowHelp)
    ensures Parser.Parse(opts, args, tokens) == Failure(ShowHelp)
  {
    Parser.TablesFit(opts);
  }

  /** The help option registered last, with its names in the tables, and every configuration valid. */
  ghost predicate HelpLast(opts: seq<Entry<OptionConfig>>, short: string, long: string) {
    && |opts| > 0 && Parser.UniqueNames(opts)
    && (forall i :: 0 <= i < |opts| ==> Options.Validate(opts[i].config).thrown.None?)
    && opts[|opts| - 1].name == Parser.HelpOptionName
    && opts[|opts| - 1].config.short == Some(short) && opts[|opts| - 1].config.long == Some(long)
  }

  /** After `parse` adds the help option to a handler that has none, it is the last option. */
  lemma ParseAddsHelpLast(h: State, argv: seq<string>)
    requires Valid(h) && Parser.HelpOptionName !in Parser.Names(h.options)
    requires forall i :: 0 <= i < |h.options| ==> Options.Validate(h.options[i].config).thrown.None?
    ensures HelpLast(Parse(h, argv).state.options, h.helpShort, h.helpLong)
    ensures Parse(h, argv).result == Parser.Parse(Parse(h, argv).state.options, h.arguments, Tokens(argv))
  {
    var help := HelpOption(h.helpShort, h.helpLong).value.value;
    var opts := h.options + [Parser.Entry(Parser.HelpOptionName, help)];
    assert Parse(h, argv).state.options == opts;
    assert opts[|opts| - 1].config == help;
  }

  /** A lone `-<c>`, where `c` is the help option's short name, shows the help. */
  lemma BundleHelp(cfgs: map<string, OptionConfig>, t: Parser.Tables, short: string)
    requires Parser.Fits(cfgs, t) && Options.ValidateShort(short)
    requires short in t.shorts && t.shorts[short] == Parser.HelpOptionName
    ensures Parser.ProcessOptions(cfgs, t, ["-" + short]) == Failure(ShowHelp)
  {
    var tok := "-" + short;
    assert tok[1..] == short && [short[0]] == short;
    assert tok[..1] == "-" && tok[..2] != "--" by {
      assert tok[1] == short[0] && IsAlnum(tok[1]);
    }
    assert Parser.ApplyBundle(cfgs, t, Parser.Start, tok[1..], tok) == Failure(ShowHelp);
    assert Parser.Step(cfgs, t, Parser.Start, tok) == Failure(ShowHelp);
    assert Parser.Loop(cfgs, t, Parser.Start, [tok]) == Failure(ShowHelp);
  }

  /** A lone `--<l>`, where `l` is the help option's long name and does not start with "no", shows the help. */
  lemma LongHelp(cfgs: map<string, OptionConfig>, t: Parser.Tables, long: string)
    requires Parser.Fits(cfgs, t) && Options.ValidateLong(long) && !StartsWith(long, "no")
    requires long in t.longs && t.longs[long] == Parser.HelpOptionName
    ensures Parser.ProcessOptions(cfgs, t, ["--" + long]) == Failure(ShowHelp)
  {
    var tok := "--" + long;
    assert tok[2..] == long && tok[..2] == "--";
    assert '=' !in long by {
      assert !IsNameChar('=');
    }
    assert Parser.LongName(tok[2..]) == long;
    assert Parser.ResolveLong(cfgs, t, long) == Some(Parser.Resolved(Parser.HelpOptionName, false));
    assert Parser.Step(cfgs, t, Parser.Start, tok) == Failure(ShowHelp);
    assert Parser.Loop(cfgs, t, Parser.Start, [tok]) == Failure(ShowHelp);
  }

  /** With the help option last, its short name alone on the command line shows the help. */
  lemma ShortHelpToken(opts: seq<Entry<OptionConfig>>, short: string, long: string)
    requires HelpLast(opts, short, long) && Options.ValidateShort(short)
    ensures TokenLoop(opts, ["-" + short]) == Failure(ShowHelp)
  {
    var t := Parser.Tables(Parser.Table(opts, Parser.ShortNames), Parser.Table(opts, Parser.LongNames));
    Parser.TablesFit(opts);
    Parser.TableResolvesToLast(opts, Parser.ShortNames, |opts| - 1, short);
    BundleHelp(Parser.ConfigMap(opts), t, short);
  }

  /** With the help option last, its long name alone on the command line shows the help, unless it reads as `no<x>`. */
  lemma LongHelpToken(opts: seq<Entry<OptionConfig>>, short: string, long: string)
    requires HelpLast(opts, short, long) && Options.ValidateLong(long) && !StartsWith(long, "no")
    ensures TokenLoop(opts, ["--" + long]) == Failure(ShowHelp)
  {
    var t := Parser.Tables(Parser.Table(opts, Parser.ShortNames), Parser.Table(opts, Parser.LongNames));
    Parser.TablesFit(opts);
    Parser.TableResolvesToLast(opts, Parser.LongNames, |opts| - 1, long);
    LongHelp(Parser.ConfigMap(opts), t, long);
  }

  /** Parsing `-<short help name>` after the script name shows the help. */
  lemma HelpShortShowsHelp(h: State, script: string)
    requires Valid(h) && Parser.HelpOptionName !in Parser.Names(h.options)
    requires forall i :: 0 <= i < |h.options| ==> Options.Validate(h.options[i].config).thrown.None?
    ensures Parse(h, [script, "-" + h.helpShort]).result == Failure(ShowHelp)
  {
    var argv := [script, "-" + h.helpShort];
    ParseAddsHelpLast(h, argv);
    var opts := Parse(h, argv).state.options;
    ShortHelpToken(opts, h.helpShort, h.helpLong);
    assert Tokens(argv) == ["-" + h.helpShort];
    LoopShowsHelp(opts, h.arguments, Tokens(argv));
  }

  /**
    * Parsing `--<long help name>` after the script name shows the help,
    * unless that name reads as `--no<x>` for a negatable option `x`.
    */
  lemma HelpLongShowsHelp(h: State, script: string)
    requires Valid(h) && Parser.HelpOptionName !in Parser.Names(h.options)
    requires forall i :: 0 <= i < |h.options| ==> Options.Validate(h.options[i].config).thrown.None?
    requires !StartsWith(h.helpLong, "no")
    ensures Parse(h, [script, "--" + h.helpLong]).result == Failure(ShowHelp)
  {
    var argv := [script, "--" + h.helpLong];
    ParseAddsHelpLast(h, argv);
    var opts := Parse(h, argv).state.options;
    LongHelpToken(opts, h.helpShort, h.helpLong);
    assert Tokens(argv) == ["--" + h.helpLong];
    LoopShowsHelp(opts, h.arguments, Tokens(argv));
  }

  /** What opens an item of the usage string: `[` unless the item is required. */
  function Open(required: bool): string {
    if required then "" else "["
  }

  /** What closes an item of the usage string: `]` unless required, then `...` if it repeats. */
  function Close(required: bool, multiple: bool): string {
    (if required then "" else "]") + (if multiple then "..." else "")
  }

  /** An item bracketed unless required and followed by `...` if multiple is laid out as opener, body, closer. */
  lemma Layout(open: string, body: string, required: bool, multiple: bool, r: string)
    requires open == Open(required)
    requires var b := if !required then "[" + body + "]" else body; r == if multiple then b + "..." else b
    ensures r == open + body + Close(required, multiple)
  {
    if !required && multiple {
      assert "[" + body + "]" + "..." == "[" + body + ("]" + "...");
    }
  }

  /** The names of an option in the usage string: `-s|--long`, `-s` or `--long`. */
  function OptionNames(o: OptionConfig): string {
    match (o.short, o.long)
    case (Some(s), Some(l)) => "-" + s + "|--" + l
    case (Some(s), None) => "-" + s
    case (None, Some(l)) => "--" + l
    case (None, None) => ""
  }

  /** The placeholder of an option that takes a value: a space and its upper-cased argument name. */
  function Placeholder(o: OptionConfig): string {
    if o.argument.Some? then " " + Upper(o.argument.value) else ""
  }

  /** The names part as the source builds it: `-s`, then `|` if a long name follows, then `--long`. */
  function NamesPart(o: OptionConfig): (r: string)
    ensures r == OptionNames(o)
  {
    var opt := if o.short.Some? then "-" + o.short.value + (if o.long.Some? then "|" else "") else "";
    var opt := if o.long.Some? then opt + "--" + o.long.value else opt;
    assert o.short.Some? && o.long.Some? ==> opt == "-" + o.short.value + "|" + "--" + o.long.value;
    opt
  }

  /** Appending the placeholder as the source does gives the names followed by `Placeholder`. */
  lemma PlaceholderAppends(o: OptionConfig, names: string, opt: string)
    requires opt == if o.argument.Some? then names + " " + Upper(o.argument.value) else names
    ensures opt == names + Placeholder(o)
  {
    if o.argument.Some? {
      SpaceRegroup(names, Upper(o.argument.value));
    }
  }

  /**
    * One option in the usage string, built up as the source does: the names,
    * the placeholder, the brackets unless required, `...` if multiple. The
    * result is the layout item by item.
    */
  function RenderOption(o: OptionConfig): (r: string)
    ensures r == Open(o.required) + (OptionNames(o) + Placeholder(o)) + Close(o.required, o.multiple)
  {
    var names := NamesPart(o);
    var opt := if o.argument.Some? then names + " " + Upper(o.argument.value) else names;
    PlaceholderAppends(o, names, opt);
    var opt' := if !o.required then "[" + opt + "]" else opt;
    var r := if o.multiple then opt' + "..." else opt';
    Layout(Open(o.required), opt, o.required, o.multiple, r);
    r
  }

  /** The label of an argument in the usage string: its upper-cased name, or `ARGUMENT` when it has none. */
  function Label(a: ArgumentConfig): string {
    if a.name.Some? && a.name.value != "" then Upper(a.name.value) else "ARGUMENT"
  }

  /** One argument in the usage string, built up as the source does: the label, the brackets unless required, `...` if multiple. */
  function RenderArgument(a: ArgumentConfig): (r: string)
    ensures r == Open(a.required) + Label(a) + Close(a.required, a.multiple)
  {
    var arg := if a.name.Some? && a.name.value != "" then Upper(a.name.value) else "ARGUMENT";
    var arg' := if !a.required then "[" + arg + "]" else arg;
    var r := if a.multiple then arg' + "..." else arg';
    Layout(Open(a.required), arg, a.required, a.multiple, r);
    r
  }

  /** Every option configuration passes validation. */
  ghost predicate OptionsValid(opts: seq<Entry<OptionConfig>>) {
    forall i :: 0 <= i < |opts| ==> Options.Validate(opts[i].config).thrown.None?
  }

  /** Every argument configuration passes validation. */
  ghost predicate ArgumentsValid(args: seq<Entry<ArgumentConfig>>) {
    forall i :: 0 <= i < |args| ==> Arguments.Validate(args[i].config).thrown.None?
  }

  /** The options part of the usage string: each option rendered and followed by a space, reading each through `get`. */
  function OptionsUsage(opts: seq<Entry<OptionConfig>>): (r: Result<string, Error>)
    ensures r.Success? <==> OptionsValid(opts)
    ensures r.Failure? ==> r.error == OptionConfigError(IncompatibleSettings)
    decreases |opts|
  {
    if opts == [] then Success("")
    else if Options.Validate(opts[0].config).thrown.Some? then Failure(OptionConfigError(IncompatibleSettings))
    else
      assert forall i :: 1 <= i < |opts| ==> opts[i] == opts[1..][i - 1];
      var rest :- OptionsUsage(opts[1..]);
      Success(RenderOption(opts[0].config) + " " + rest)
  }

  /** The arguments part of the usage string: each argument rendered and followed by a space. */
  function ArgumentsUsage(args: seq<Entry<ArgumentConfig>>): (r: Result<string, Error>)
    ensures r.Success? <==> ArgumentsValid(args)
    ensures r.Failure? ==> r.error == ArgumentConfigError(RequiredWithDefault)
    decreases |args|
  {
    if args == [] then Success("")
    else if Arguments.Validate(args[0].config).thrown.Some? then Failure(ArgumentConfigError(RequiredWithDefault))
    else
      assert forall i :: 1 <= i < |args| ==> args[i] == args[1..][i - 1];
      var rest :- ArgumentsUsage(args[1..]);
      Success(RenderArgument(args[0].config) + " " + rest)
  }

  /**
    * The options part is the concatenation, in registration order, of every
    * option's rendering followed by a space: it splits along any split of
    * the registrations.
    */
  lemma {:induction false} OptionsUsageAppend(a: seq<Entry<OptionConfig>>, b: seq<Entry<OptionConfig>>)
    requires OptionsValid(a + b)
    ensures OptionsUsage(a).Success? && OptionsUsage(b).Success?
    ensures OptionsUsage(a + b) == Success(OptionsUsage(a).value + OptionsUsage(b).value)
    decreases |a|
  {
    OptionsValidSplit(a, b);
    if a == [] {
      assert a + b == b;
      assert OptionsUsage(a).value + OptionsUsage(b).value == OptionsUsage(b).value;
    } else {
      var ab := a + b;
      assert ab[1..] == a[1..] + b && ab[0] == a[0];
      OptionsUsageAppend(a[1..], b);
      var x := RenderOption(a[0].config) + " ";
      var a1, b1 := OptionsUsage(a[1..]).value, OptionsUsage(b).value;
      assert OptionsUsage(ab) == Success(x + (a1 + b1));
      assert x + (a1 + b1) == (x + a1) + b1;
    }
  }

  /** Validity of registrations splits along any split of the sequence. */
  lemma OptionsValidSplit(a: seq<Entry<OptionConfig>>, b: seq<Entry<OptionConfig>>)
    requires OptionsValid(a + b)
    ensures OptionsValid(a) && OptionsValid(b)
    ensures a != [] ==> OptionsValid((a + b)[1..])
  {
    forall i | 0 <= i < |a| ensures Options.Validate(a[i].config).thrown.None? {
      assert (a + b)[i] == a[i];
    }
    forall i | 0 <= i < |b| ensures Options.Validate(b[i].config).thrown.None? {
      assert (a + b)[|a| + i] == b[i];
    }
  }

  /** A single valid option contributes its rendering and one space. */
  lemma OptionsUsageSingle(e: Entry<OptionConfig>)
    requires Options.Validate(e.config).thrown.None?
    ensures OptionsUsage([e]) == Success(RenderOption(e.config) + " ")
  {
    assert [e][1..] == [] && [e][0] == e;
    assert OptionsUsage([e][1..]) == Success("");
    assert RenderOption(e.config) + " " + "" == RenderOption(e.config) + " ";
  }

  /** The arguments part splits along any split of the registrations, like the options part. */
  lemma {:induction false} ArgumentsUsageAppend(a: seq<Entry<ArgumentConfig>>, b: seq<Entry<ArgumentConfig>>)
    requires ArgumentsValid(a + b)
    ensures ArgumentsUsage(a).Success? && ArgumentsUsage(b).Success?
    ensures ArgumentsUsage(a + b) == Success(ArgumentsUsage(a).value + ArgumentsUsage(b).value)
    decreases |a|
  {
    ArgumentsValidSplit(a, b);
    if a == [] {
      assert a + b == b;
      assert ArgumentsUsage(a).value + ArgumentsUsage(b).value == ArgumentsUsage(b).value;
    } else {
      var ab := a + b;
      assert ab[1..] == a[1..] + b && ab[0] == a[0];
      ArgumentsUsageAppend(a[1..], b);
      var x := RenderArgument(a[0].config) + " ";
      var a1, b1 := ArgumentsUsage(a[1..]).value, ArgumentsUsage(b).value;
      assert ArgumentsUsage(ab) == Success(x + (a1 + b1));
      assert x + (a1 + b1) == (x + a1) + b1;
    }
  }

  /** Validity of registrations splits along any split of the sequence. */
  lemma ArgumentsValidSplit(a: seq<Entry<ArgumentConfig>>, b: seq<Entry<ArgumentConfig>>)
    requires ArgumentsValid(a + b)
    ensures ArgumentsValid(a) && ArgumentsValid(b)
    ensures a != [] ==> ArgumentsValid((a + b)[1..])
  {
    forall i | 0 <= i < |a| ensures Arguments.Validate(a[i].config).thrown.None? {
      assert (a + b)[i] == a[i];
    }
    forall i | 0 <= i < |b| ensures Arguments.Validate(b[i].config).thrown.None? {
      assert (a + b)[|a| + i] == b[i];
    }
  }

  /** A single valid argument contributes its rendering and one space. */
  lemma ArgumentsUsageSingle(e: Entry<ArgumentConfig>)
    requires Arguments.Validate(e.config).thrown.None?
    ensures ArgumentsUsage([e]) == Success(RenderArgument(e.config) + " ")
  {
    assert [e][1..] == [] && [e][0] == e;
    assert ArgumentsUsage([e][1..]) == Success("");
    assert RenderArgument(e.config) + " " + "" == RenderArgument(e.config) + " ";
  }

  /** The options are summarised as `[OPTION]...` only with terse usage and at least one option. */
  predicate Terse(h: State) {
    h.terseUsage && h.options != []
  }

  /**
    * `buildUsageString`: the script name, then the options (or `[OPTION]...`
    * with terse usage), then the arguments, each followed by a space, with
    * trailing whitespace trimmed. Reading a configuration validates it, so an
    * inconsistent option (unless summarised) or argument makes it throw.
    */
  function Usage(h: State): (r: Result<string, Error>)
    ensures r.Success? <==> (Terse(h) || OptionsValid(h.options)) && ArgumentsValid(h.arguments)
    ensures r.Failure? && (Terse(h) || OptionsValid(h.options)) ==> r.error == ArgumentConfigError(RequiredWithDefault)
    ensures r.Failure? && !(Terse(h) || OptionsValid(h.options)) ==> r.error == OptionConfigError(IncompatibleSettings)
  {
    var opts :- if Terse(h) then Success("[OPTION]... ") else OptionsUsage(h.options);
    var args :- ArgumentsUsage(h.arguments);
    Success(RTrim(h.scriptName + (" " + opts + args)))
  }

  /** The usage string starts with the script name (trimmed) and has no trailing whitespace. */
  lemma UsageStartsWithScriptName(h: State)
    requires Usage(h).Success?
    ensures StartsWith(Usage(h).value, RTrim(h.scriptName))
    ensures Usage(h).value == [] || !IsTrimmed(Usage(h).value[|Usage(h).value| - 1])
  {
    var opts := if Terse(h) then "[OPTION]... " else OptionsUsage(h.options).value;
    var rest := " " + opts + ArgumentsUsage(h.arguments).value;
    assert Usage(h).value == RTrim(h.scriptName + rest);
    RTrimKeepsPrefix(h.scriptName, rest);
  }

  /** A new handler's usage string is just the default script name. */
  lemma NewUsage()
    ensures Usage(New) == Success("php-script")
  {
    var s := "php-script ";
    assert IsTrimmed(s[|s| - 1]) && s[..|s| - 1] == "php-script";
    assert RTrim(s) == "php-script";
  }

  /** With terse usage, the usage string does not depend on what the options are, only that there are some. */
  lemma TerseIgnoresOptions(h: State, opts: seq<Entry<OptionConfig>>)
    requires Terse(h) && opts != []
    ensures Usage(h.(options := opts)) == Usage(h)
  {
  }

  /** Regrouping the terse usage string around the marker. */
  lemma MarkerSplits(x: string, y: string)
    ensures x + (" " + "[OPTION]... " + y) == (x + " [OPTION]...") + (" " + y)
  {
    assert " " + "[OPTION]... " == " [OPTION]..." + " ";
  }

  /** With terse usage the script name is followed by `[OPTION]...`. */
  lemma TerseUsageShowsMarker(h: State)
    requires Terse(h) && Usage(h).Success?
    ensures StartsWith(Usage(h).value, h.scriptName + " [OPTION]...")
  {
    var marker := h.scriptName + " [OPTION]...";
    var args := ArgumentsUsage(h.arguments).value;
    assert Usage(h).value == RTrim(h.scriptName + (" " + "[OPTION]... " + args));
    MarkerSplits(h.scriptName, args);
    assert marker[|marker| - 1] == '.';
    RTrimKeepsSolidPrefix(marker, " " + args);
  }

  /** Without options, the usage string is the script name and the arguments part, trimmed. */
  lemma UsageWithoutOptions(h: State)
    requires h.options == [] && ArgumentsValid(h.arguments)
    ensures Usage(h) == Success(RTrim(h.scriptName + " " + ArgumentsUsage(h.arguments).value))
  {
    assert !Terse(h) && OptionsUsage(h.options) == Success("");
    var args := ArgumentsUsage(h.arguments).value;
    assert " " + "" + args == " " + args;
    assert h.scriptName + (" " + args) == h.scriptName + " " + args;
  }

  /** Regrouping the script name, a rendering and the spaces after each. */
  lemma SpaceRegroup(a: string, x: string)
    ensures a + " " + x == a + (" " + x)
    ensures a + " " + (x + " ") == (a + " " + x) + " "
  {
  }

  /** With no options and one argument whose rendering ends in a solid character, the usage string is the script name and that rendering. */
  lemma SingleArgumentUsage(h: State, e: Entry<ArgumentConfig>)
    requires h.options == [] && h.arguments == [e] && Arguments.Validate(e.config).thrown.None?
    requires var x := RenderArgument(e.config); x != [] && !IsTrimmed(x[|x| - 1])
    ensures Usage(h) == Success(h.scriptName + " " + RenderArgument(e.config))
  {
    var x := RenderArgument(e.config);
    ArgumentsUsageSingle(e);
    UsageWithoutOptions(h);
    var line := h.scriptName + " " + x;
    SpaceRegroup(h.scriptName, x);
    RTrimDropsTail(line, " ");
  }

  /** The expected usage line, assembled. */
  lemma UnnamedLine()
    ensures "s" + " " + "[ARGUMENT]" == "s [ARGUMENT]"
  {
  }

  /** An argument registered without `name()` appears as `[ARGUMENT]`, not under its registration name. */
  lemma UnnamedArgumentUsage()
    ensures AddArgument(New.(scriptName := "s"), "arg1").Success?
    ensures Usage(AddArgument(New.(scriptName := "s"), "arg1").value) == Success("s [ARGUMENT]")
  {
    var e := Parser.Entry("arg1", Arguments.New);
    var h := AddArgument(New.(scriptName := "s"), "arg1").value;
    assert h.options == [] && h.scriptName == "s" && h.arguments == [e];
    assert Label(Arguments.New) == "ARGUMENT";
    var x := RenderArgument(Arguments.New);
    assert x == "[ARGUMENT]";
    assert Arguments.Validate(e.config).thrown.None?;
    SingleArgumentUsage(h, e);
    UnnamedLine();
  }
}
