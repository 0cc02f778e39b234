/**
  * The option configuration builder (src/Config/Option.php): a record of
  * optional fields, fluent setters that check name formats when they are
  * called, and a validating accessor that checks the cross-field invariants
  * and caches the verdict in a "validated" flag.
  */
module Options {
  import opened Wrappers
  import opened Values
  import opened Errors
  import opened Text

  /**
    * One option's configuration. `None`, `false` and `Null` stand for a field
    * that was never set (PHP `null`); the setters for `required`, `multiple`
    * and `negatable` can only ever store `true`.
    */
  datatype OptionConfig = OptionConfig(
    required: bool,
    short: Option<string>,
    long: Option<string>,
    argument: Option<string>,
    multiple: bool,
    incrementable: Option<int>,
    negatable: bool,
    description: Option<string>,
    defaultValue: Value,
    validator: Option<Value -> bool>,
    validated: bool)

  /** A freshly constructed option: every field unset, not yet validated. */
  const New: OptionConfig :=
    OptionConfig(false, None, None, None, false, None, false, None, Null, None, false)

  // The keys of the configuration array, as accepted by `get`.
  const RequiredKey := "REQUIRED"
  const ShortKey := "SHORT"
  const LongKey := "LONG"
  const ArgumentKey := "ARGUMENT"
  const MultipleKey := "MULTIPLE"
  const IncrementableKey := "INCREMENTABLE"
  const NegatableKey := "NEGATABLE"
  const DescriptionKey := "DESCRIPTION"
  const DefaultValueKey := "DEFAULT_VALUE"
  const ValidatorKey := "VALIDATOR"

  const Keys: set<string> :=
    {RequiredKey, ShortKey, LongKey, ArgumentKey, MultipleKey,
     IncrementableKey, NegatableKey, DescriptionKey, DefaultValueKey, ValidatorKey}

  /** What `get` hands back: the whole configuration, one plain field, or the validator callable. */
  datatype Setting = Whole(config: OptionConfig) | Field(value: Value) | Callable(callable: Option<Value -> bool>)

  function FlagValue(b: bool): Value {
    if b then Bool(true) else Null
  }

  function TextValue(s: Option<string>): Value {
    match s
    case Some(t) => Str(t)
    case None => Null
  }

  /** The entry stored under `key` in the configuration array, if `key` is one of its keys. */
  function Lookup(o: OptionConfig, key: string): (r: Option<Setting>)
    ensures r.Some? <==> key in Keys
  {
    if key == RequiredKey then Some(Field(FlagValue(o.required)))
    else if key == ShortKey then Some(Field(TextValue(o.short)))
    else if key == LongKey then Some(Field(TextValue(o.long)))
    else if key == ArgumentKey then Some(Field(TextValue(o.argument)))
    else if key == MultipleKey then Some(Field(FlagValue(o.multiple)))
    else if key == IncrementableKey then
      Some(Field(if o.incrementable.Some? then Int(o.incrementable.value) else Null))
    else if key == NegatableKey then Some(Field(FlagValue(o.negatable)))
    else if key == DescriptionKey then Some(Field(TextValue(o.description)))
    else if key == DefaultValueKey then Some(Field(o.defaultValue))
    else if key == ValidatorKey then Some(Callable(o.validator))
    else None
  }

  /** Every configuration entry other than the one under `key` is the same in `a` and `b`. */
  ghost predicate SameExcept(a: OptionConfig, b: OptionConfig, key: string) {
    forall k :: k in Keys && k != key ==> Lookup(a, k) == Lookup(b, k)
  }

  /** `validateShort`: exactly one ASCII letter or digit. */
  function ValidateShort(s: string): bool {
    |s| == 1 && IsAlnum(s[0])
  }

  /** `validateLong`: one or more of `[a-zA-Z0-9\-_]`. */
  function ValidateLong(s: string): bool {
    MatchesName(s)
  }

  /** The library's tests of short names: one letter or digit. */
  lemma ShortNameExamples()
    ensures ValidateShort("a") && ValidateShort("5")
    ensures !ValidateShort("aa") && !ValidateShort("_") && !ValidateShort("")
  {
  }

  /** Long names the library's tests accept, including the help name `--long`: letters, digits and dashes, at least one. */
  lemma LongNameExamples()
    ensures ValidateLong("test") && ValidateLong("t") && ValidateLong("33333") && ValidateLong("--long")
  {
  }

  /** Long names the library's tests refuse: a symbol, nothing, and (as a help name) text with spaces and a full stop. */
  lemma LongNameRejections()
    ensures !ValidateLong("*") && !ValidateLong("")
    ensures !ValidateLong("invalid long option description.")
  {
    assert !IsNameChar("invalid long option description."[7]);
  }

  /** Every valid short name is also a valid long name. */
  lemma ShortIsLong(s: string)
    requires ValidateShort(s)
    ensures ValidateLong(s)
  {
  }

  /** `short($short)`: resets the cache, then stores the name or throws if it is not one letter or digit. */
  function Short(o: OptionConfig, s: string): (r: Updated<OptionConfig>)
    ensures r.thrown.Some? <==> !ValidateShort(s)
    ensures r.thrown.Some? ==> r.thrown.value == OptionConfigError(ShortFormat)
    ensures Lookup(r.config, ShortKey) == Some(Field(if ValidateShort(s) then Str(s) else TextValue(o.short)))
    ensures SameExcept(o, r.config, ShortKey)
    ensures !r.config.validated
  {
    var o := o.(validated := false);
    if !ValidateShort(s) then Updated(o, Some(OptionConfigError(ShortFormat)))
    else Updated(o.(short := Some(s)), None)
  }

  /** `long($long)`: resets the cache, then stores the name or throws if it is not a valid long name. */
  function Long(o: OptionConfig, s: string): (r: Updated<OptionConfig>)
    ensures r.thrown.Some? <==> !ValidateLong(s)
    ensures r.thrown.Some? ==> r.thrown.value == OptionConfigError(LongFormat)
    ensures Lookup(r.config, LongKey) == Some(Field(if ValidateLong(s) then Str(s) else TextValue(o.long)))
    ensures SameExcept(o, r.config, LongKey)
    ensures !r.config.validated
  {
    var o := o.(validated := false);
    if !ValidateLong(s) then Updated(o, Some(OptionConfigError(LongFormat)))
    else Updated(o.(long := Some(s)), None)
  }

  /** `argument($name)`: resets the cache, then stores the placeholder name or throws on illegal characters. */
  function Argument(o: OptionConfig, name: string): (r: Updated<OptionConfig>)
    ensures r.thrown.Some? <==> !MatchesName(name)
    ensures r.thrown.Some? ==> r.thrown.value == OptionConfigError(ArgumentNameFormat)
    ensures Lookup(r.config, ArgumentKey) == Some(Field(if MatchesName(name) then Str(name) else TextValue(o.argument)))
    ensures SameExcept(o, r.config, ArgumentKey)
    ensures !r.config.validated
  {
    var o := o.(validated := false);
    if !MatchesName(name) then Updated(o, Some(OptionConfigError(ArgumentNameFormat)))
    else Updated(o.(argument := Some(name)), None)
  }

  /** `description($description)`: stores the text; the cached verdict is kept. */
  function Description(o: OptionConfig, d: string): (r: OptionConfig)
    ensures Lookup(r, DescriptionKey) == Some(Field(Str(d)))
    ensures SameExcept(o, r, DescriptionKey)
    ensures r.validated == o.validated
  {
    o.(description := Some(d))
  }

  /** `required()`: marks the option mandatory and resets the cache. */
  function Required(o: OptionConfig): (r: OptionConfig)
    ensures Lookup(r, RequiredKey) == Some(Field(Bool(true)))
    ensures SameExcept(o, r, RequiredKey)
    ensures !r.validated
  {
    o.(required := true, validated := false)
  }

  /** `defaultValue($value)`: stores the default and resets the cache. */
  function DefaultValue(o: OptionConfig, v: Value): (r: OptionConfig)
    ensures Lookup(r, DefaultValueKey) == Some(Field(v))
    ensures SameExcept(o, r, DefaultValueKey)
    ensures !r.validated
  {
    o.(defaultValue := v, validated := false)
  }

  /** `multiple()`: lets the option collect several values and resets the cache. */
  function Multiple(o: OptionConfig): (r: OptionConfig)
    ensures Lookup(r, MultipleKey) == Some(Field(Bool(true)))
    ensures SameExcept(o, r, MultipleKey)
    ensures !r.validated
  {
    o.(multiple := true, validated := false)
  }

  /** `negatable()`: allows the `--no<long>` form and resets the cache. */
  function Negatable(o: OptionConfig): (r: OptionConfig)
    ensures Lookup(r, NegatableKey) == Some(Field(Bool(true)))
    ensures SameExcept(o, r, NegatableKey)
    ensures !r.validated
  {
    o.(negatable := true, validated := false)
  }

  /** `incrementable($increment = 1)`: makes the option a counter with the given step and resets the cache. */
  function Incrementable(o: OptionConfig, step: int := 1): (r: OptionConfig)
    ensures Lookup(r, IncrementableKey) == Some(Field(Int(step)))
    ensures SameExcept(o, r, IncrementableKey)
    ensures !r.validated
  {
    o.(incrementable := Some(step), validated := false)
  }

  /** `validator($callable)`: stores the check run on each value; the cached verdict is kept. */
  function Validator(o: OptionConfig, f: Value -> bool): (r: OptionConfig)
    ensures Lookup(r, ValidatorKey) == Some(Callable(Some(f)))
    ensures SameExcept(o, r, ValidatorKey)
    ensures r.validated == o.validated
  {
    o.(validator := Some(f))
  }

  /** The cross-field invariants an option must satisfy before it is used. */
  ghost predicate Consistent(o: OptionConfig) {
    && (o.argument.Some? ==> o.incrementable.None? && !o.negatable)
    && (o.multiple ==> o.argument.Some?)
    && (o.negatable ==> o.long.Some?)
    && (o.required ==> o.defaultValue == Null)
    && (o.short.Some? || o.long.Some?)
  }

  /** The cache is sound: an option marked validated really satisfies the invariants. */
  ghost predicate CacheSound(o: OptionConfig) {
    o.validated ==> Consistent(o)
  }

  /**
    * `validate()`: returns at once when the cached flag is set; otherwise runs
    * every check, in the source's order, into one verdict, throws on a
    * violation and sets the flag on success.
    */
  function Validate(o: OptionConfig): (r: Updated<OptionConfig>)
    ensures r.thrown.None? <==> o.validated || Consistent(o)
    ensures r.thrown.Some? ==> r.thrown.value == OptionConfigError(IncompatibleSettings) && r.config == o
    ensures r.thrown.None? ==> r.config == o.(validated := true)
    ensures CacheSound(o) ==> CacheSound(r.config)
  {
    if o.validated then Updated(o, None)
    else
      var valid := true;
      var valid :=
        if o.argument.Some? then
          (if o.incrementable.Some? || o.negatable then false else valid)
        else
          (if o.multiple then false else valid);
      var valid := if o.negatable && o.long.None? then false else valid;
      var valid := if o.multiple && o.argument.None? then false else valid;
      var valid := if o.required && o.defaultValue != Null then false else valid;
      var valid := if o.short.None? && o.long.None? then false else valid;
      if !valid then Updated(o, Some(OptionConfigError(IncompatibleSettings)))
      else Updated(o.(validated := true), None)
  }

  /**
    * `get($param = '')`: validates, then returns the whole configuration for
    * a falsy key ("" or "0"), the entry for a known key, and throws for any
    * other key.
    */
  function Get(o: OptionConfig, key: string := ""): (r: Read<OptionConfig, Setting>)
    ensures r.result.Success? <==> (o.validated || Consistent(o)) && (!Truthy(key) || key in Keys)
    ensures r.result.Success? && !Truthy(key) ==> r.result.value == Whole(r.config)
    ensures r.result.Success? && Truthy(key) ==> Some(r.result.value) == Lookup(o, key)
    ensures r.result.Failure? ==> r.result.error.OptionConfigError?
    ensures r.config.validated <==> o.validated || Consistent(o)
    ensures SameExcept(o, r.config, "")
  {
    var v := Validate(o);
    if v.thrown.Some? then Read(v.config, Failure(v.thrown.value))
    else if !Truthy(key) then Read(v.config, Success(Whole(v.config)))
    else
      match Lookup(v.config, key)
      case Some(setting) => Read(v.config, Success(setting))
      case None => Read(v.config, Failure(OptionConfigError(UnknownOptionParam)))
  }

  /** The key "0" is false in PHP, so `get('0')` answers as `get()` does: with the whole configuration. */
  lemma ZeroKeyReadsWhole(o: OptionConfig)
    ensures Get(o, "0") == Get(o, "")
  {
  }

  /** One call a program can make on an option builder. */
  datatype Call =
    | CallShort(s: string)
    | CallLong(s: string)
    | CallArgument(name: string)
    | CallDescription(d: string)
    | CallRequired
    | CallDefaultValue(v: Value)
    | CallMultiple
    | CallNegatable
    | CallIncrementable(step: int)
    | CallValidator(f: Value -> bool)
    | CallGet(key: string)

  /** The object's state after one call, whether or not the call threw. */
  function Apply(o: OptionConfig, c: Call): OptionConfig {
    match c
    case CallShort(s) => Short(o, s).config
    case CallLong(s) => Long(o, s).config
    case CallArgument(n) => Argument(o, n).config
    case CallDescription(d) => Description(o, d)
    case CallRequired => Required(o)
    case CallDefaultValue(v) => DefaultValue(o, v)
    case CallMultiple => Multiple(o)
    case CallNegatable => Negatable(o)
    case CallIncrementable(step) => Incrementable(o, step)
    case CallValidator(f) => Validator(o, f)
    case CallGet(key) => Get(o, key).config
  }

  /** The object's state after a sequence of calls, in order. */
  function Run(o: OptionConfig, calls: seq<Call>): OptionConfig
    decreases |calls|
  {
    if calls == [] then o else Run(Apply(o, calls[0]), calls[1..])
  }

  /** No single call can leave a validated flag on an inconsistent option. */
  lemma ApplyKeepsCacheSound(o: OptionConfig, c: Call)
    requires CacheSound(o)
    ensures CacheSound(Apply(o, c))
  {
  }

  /**
    * Cache soundness: whatever calls a program makes on a fresh option, the
    * "validated" flag is only ever set on a configuration that satisfies the
    * invariants, so skipping re-validation is safe.
    */
  lemma {:induction false} RunKeepsCacheSound(o: OptionConfig, calls: seq<Call>)
    requires CacheSound(o)
    ensures CacheSound(Run(o, calls))
    decreases |calls|
  {
    if calls != [] {
      ApplyKeepsCacheSound(o, calls[0]);
      RunKeepsCacheSound(Apply(o, calls[0]), calls[1..]);
    }
  }

  /** On any option a program can build, `get` succeeds exactly when the invariants hold. */
  lemma {:induction false} BuiltOptionGetAgrees(calls: seq<Call>, key: string)
    requires !Truthy(key) || key in Keys
    ensures Get(Run(New, calls), key).result.Success? <==> Consistent(Run(New, calls))
  {
    RunKeepsCacheSound(New, calls);
  }

  /** `incrementable()` without a step stores 1. */
  lemma IncrementableDefaultsToOne(o: OptionConfig)
    ensures Incrementable(o).incrementable == Some(1)
  {
  }

  /** The examples from the library's tests: each setter's value comes back out of `get`. */
  lemma SetThenGetExamples()
    ensures Get(Short(New, "t").config, ShortKey).result == Success(Field(Str("t")))
    ensures Get(Long(New, "test").config, LongKey).result == Success(Field(Str("test")))
    ensures Get(Incrementable(Short(New, "t").config), IncrementableKey).result == Success(Field(Int(1)))
    ensures Get(Incrementable(Short(New, "t").config, 2), IncrementableKey).result == Success(Field(Int(2)))
    ensures Get(Multiple(Argument(Short(New, "t").config, "test").config), MultipleKey).result == Success(Field(Bool(true)))
    ensures Get(Negatable(Long(New, "test").config), NegatableKey).result == Success(Field(Bool(true)))
    ensures Get(Required(Short(New, "t").config), RequiredKey).result == Success(Field(Bool(true)))
    ensures Get(DefaultValue(Short(New, "t").config, Str("test")), DefaultValueKey).result == Success(Field(Str("test")))
  {
    assert MatchesName("test");
  }

  /** The library's constraint tests: each contradictory combination of settings is refused by `get`. */
  lemma ConstraintExamples()
    ensures Get(Incrementable(Argument(New, "test").config)).result.Failure?
    ensures Get(Negatable(Argument(New, "test").config)).result.Failure?
    ensures Get(Multiple(New)).result.Failure?
    ensures Get(Negatable(Short(New, "t").config)).result.Failure?
    ensures Get(DefaultValue(Required(New), Str("test"))).result.Failure?
  {
    assert MatchesName("test");
  }

  /** An option with neither a short nor a long name is refused by `get`. */
  lemma NamelessExample()
    ensures Get(New).result.Failure?
  {
  }

  /** An argument name outside the allowed characters is refused by `argument()`. */
  lemma ArgumentNameExample()
    ensures Argument(New, "*****").thrown.Some?
  {
  }

  /** Asking `get` for a field that does not exist is refused. */
  lemma UnknownFieldExample()
    ensures Get(Required(Short(New, "t").config), "******").result.Failure?
  {
  }
}
