/**
  * The positional-argument configuration builder (src/Config/Argument.php):
  * a record of optional fields, fluent setters, and a validating accessor
  * that caches its verdict in a "validated" flag.
  */
module Arguments {
  import opened Wrappers
  import opened Values
  import opened Errors
  import opened Text

  /** One argument's configuration; `false`, `None` and `Null` stand for PHP `null`. */
  datatype ArgumentConfig = ArgumentConfig(
    required: bool,
    name: Option<string>,
    multiple: bool,
    defaultValue: Value,
    validator: Option<Value -> bool>,
    validated: bool)

  /** A freshly constructed argument: every field unset, not yet validated. */
  const New: ArgumentConfig := ArgumentConfig(false, None, false, Null, None, false)

  // The keys of the configuration array, as accepted by `get`.
  const RequiredKey := "REQUIRED"
  const NameKey := "NAME"
  const MultipleKey := "MULTIPLE"
  const DefaultValueKey := "DEFAULT_VALUE"
  const ValidatorKey := "VALIDATOR"

  const Keys: set<string> := {RequiredKey, NameKey, MultipleKey, DefaultValueKey, ValidatorKey}

  /** What `get` hands back: the whole configuration, one plain field, or the validator callable. */
  datatype Setting = Whole(config: ArgumentConfig) | Field(value: Value) | Callable(callable: Option<Value -> bool>)

  /** The entry stored under `key` in the configuration array, if `key` is one of its keys. */
  function Lookup(a: ArgumentConfig, key: string): (r: Option<Setting>)
    ensures r.Some? <==> key in Keys
  {
    if key == RequiredKey then Some(Field(if a.required then Bool(true) else Null))
    else if key == NameKey then Some(Field(if a.name.Some? then Str(a.name.value) else Null))
    else if key == MultipleKey then Some(Field(if a.multiple then Bool(true) else Null))
    else if key == DefaultValueKey then Some(Field(a.defaultValue))
    else if key == ValidatorKey then Some(Callable(a.validator))
    else None
  }

  /** Every configuration entry other than the one under `key` is the same in `a` and `b`. */
  ghost predicate SameExcept(a: ArgumentConfig, b: ArgumentConfig, key: string) {
    forall k :: k in Keys && k != key ==> Lookup(a, k) == Lookup(b, k)
  }

  /** `validateName`: one or more of `[a-zA-Z0-9\-_]`. */
  function ValidateName(name: string): bool {
    MatchesName(name)
  }

  /** The examples the library's own tests check `validateName` against. */
  lemma ValidateNameExamples()
    ensures ValidateName("test") && ValidateName("t") && ValidateName("33333")
    ensures !ValidateName("*") && !ValidateName("")
  {
  }

  /** `required()`: marks the argument mandatory and resets the cache. */
  function Required(a: ArgumentConfig): (r: ArgumentConfig)
    ensures Lookup(r, RequiredKey) == Some(Field(Bool(true)))
    ensures SameExcept(a, r, RequiredKey)
    ensures !r.validated
  {
    a.(required := true, validated := false)
  }

  /**
    * `name($name)`: stores the name FIRST and only then checks it, so an
    * illegal name throws but stays stored. The cache is not reset.
    */
  function Name(a: ArgumentConfig, name: string): (r: Updated<ArgumentConfig>)
    ensures r.thrown.Some? <==> !ValidateName(name)
    ensures r.thrown.Some? ==> r.thrown.value == ArgumentConfigError(IllegalName)
    ensures Lookup(r.config, NameKey) == Some(Field(Str(name)))
    ensures SameExcept(a, r.config, NameKey)
    ensures r.config.validated == a.validated
  {
    var a := a.(name := Some(name));
    if !ValidateName(name) then Updated(a, Some(ArgumentConfigError(IllegalName)))
    else Updated(a, None)
  }

  /** `multiple()`: lets the argument take all surplus tokens and resets the cache. */
  function Multiple(a: ArgumentConfig): (r: ArgumentConfig)
    ensures Lookup(r, MultipleKey) == Some(Field(Bool(true)))
    ensures SameExcept(a, r, MultipleKey)
    ensures !r.validated
  {
    a.(multiple := true, validated := false)
  }

  /** `defaultValue($value)`: stores the default and resets the cache. */
  function DefaultValue(a: ArgumentConfig, v: Value): (r: ArgumentConfig)
    ensures Lookup(r, DefaultValueKey) == Some(Field(v))
    ensures SameExcept(a, r, DefaultValueKey)
    ensures !r.validated
  {
    a.(defaultValue := v, validated := false)
  }

  /** `validator($validator)`: stores the check run on the argument's token; the cached verdict is kept. */
  function Validator(a: ArgumentConfig, f: Value -> bool): (r: ArgumentConfig)
    ensures Lookup(r, ValidatorKey) == Some(Callable(Some(f)))
    ensures SameExcept(a, r, ValidatorKey)
    ensures r.validated == a.validated
  {
    a.(validator := Some(f))
  }

  /** The one invariant of an argument: a required argument has no default value. */
  ghost predicate Consistent(a: ArgumentConfig) {
    a.required ==> a.defaultValue == Null
  }

  /** The cache is sound: an argument marked validated really satisfies the invariant. */
  ghost predicate CacheSound(a: ArgumentConfig) {
    a.validated ==> Consistent(a)
  }

  /** `validate()`: returns at once when the cached flag is set; otherwise throws on a violation or sets the flag. */
  function Validate(a: ArgumentConfig): (r: Updated<ArgumentConfig>)
    ensures r.thrown.None? <==> a.validated || Consistent(a)
    ensures r.thrown.Some? ==> r.thrown.value == ArgumentConfigError(RequiredWithDefault) && r.config == a
    ensures r.thrown.None? ==> r.config == a.(validated := true)
    ensures CacheSound(a) ==> CacheSound(r.config)
  {
    if a.validated then Updated(a, None)
    else if a.required && a.defaultValue != Null then Updated(a, Some(ArgumentConfigError(RequiredWithDefault)))
    else Updated(a.(validated := true), None)
  }

  /**
    * `get($param = '')`: validates, then returns the whole configuration for
    * a falsy key ("" or "0"), the entry for a known key, and throws for any
    * other key.
    */
  function Get(a: ArgumentConfig, key: string := ""): (r: Read<ArgumentConfig, Setting>)
    ensures r.result.Success? <==> (a.validated || Consistent(a)) && (!Truthy(key) || key in Keys)
    ensures r.result.Success? && !Truthy(key) ==> r.result.value == Whole(r.config)
    ensures r.result.Success? && Truthy(key) ==> Some(r.result.value) == Lookup(a, key)
    ensures r.result.Failure? ==> r.result.error.ArgumentConfigError?
    ensures r.config.validated <==> a.validated || Consistent(a)
    ensures SameExcept(a, r.config, "")
  {
    var v := Validate(a);
    if v.thrown.Some? then Read(v.config, Failure(v.thrown.value))
    else if !Truthy(key) then Read(v.config, Success(Whole(v.config)))
    else
      match Lookup(v.config, key)
      case Some(setting) => Read(v.config, Success(setting))
      case None => Read(v.config, Failure(ArgumentConfigError(UnknownArgumentParam)))
  }

  /** The key "0" is false in PHP, so `get('0')` answers as `get()` does: with the whole configuration. */
  lemma ZeroKeyReadsWhole(a: ArgumentConfig)
    ensures Get(a, "0") == Get(a, "")
  {
  }

  /** One call a program can make on an argument builder. */
  datatype Call =
    | CallRequired
    | CallName(name: string)
    | CallMultiple
    | CallDefaultValue(v: Value)
    | CallValidator(f: Value -> bool)
    | CallGet(key: string)

  /** The object's state after one call, whether or not the call threw. */
  function Apply(a: ArgumentConfig, c: Call): ArgumentConfig {
    match c
    case CallRequired => Required(a)
    case CallName(n) => Name(a, n).config
    case CallMultiple => Multiple(a)
    case CallDefaultValue(v) => DefaultValue(a, v)
    case CallValidator(f) => Validator(a, f)
    case CallGet(key) => Get(a, key).config
  }

  /** The object's state after a sequence of calls, in order. */
  function Run(a: ArgumentConfig, calls: seq<Call>): ArgumentConfig
    decreases |calls|
  {
    if calls == [] then a else Run(Apply(a, calls[0]), calls[1..])
  }

  /**
    * Cache soundness: whatever calls a program makes, the "validated" flag is
    * only ever set on an argument that satisfies the invariant.
    */
  lemma {:induction false} RunKeepsCacheSound(a: ArgumentConfig, calls: seq<Call>)
    requires CacheSound(a)
    ensures CacheSound(Run(a, calls))
    decreases |calls|
  {
    if calls != [] {
      RunKeepsCacheSound(Apply(a, calls[0]), calls[1..]);
    }
  }

  /** On any argument a program can build, `get` throws exactly when required and a default are both set. */
  lemma {:induction false} BuiltArgumentGetAgrees(calls: seq<Call>, key: string)
    requires !Truthy(key) || key in Keys
    ensures var a := Run(New, calls);
      Get(a, key).result.Failure? <==> a.required && a.defaultValue != Null
  {
    RunKeepsCacheSound(New, calls);
  }

  /** The keys the examples read are all true in PHP, so `get` looks them up. */
  lemma ExampleKeysTruthy()
    ensures Truthy(NameKey) && Truthy(RequiredKey) && Truthy(MultipleKey) && Truthy(DefaultValueKey) && Truthy("invalid_arg")
  {
  }

  /** The examples from the library's tests. */
  lemma ArgumentExamples()
    ensures Get(Name(New, "test").config, NameKey).result == Success(Field(Str("test")))
    ensures Name(New, "").thrown.Some?
    ensures Get(Required(New), RequiredKey).result == Success(Field(Bool(true)))
    ensures Get(Multiple(New), MultipleKey).result == Success(Field(Bool(true)))
    ensures Get(DefaultValue(New, Str("test")), DefaultValueKey).result == Success(Field(Str("test")))
    ensures Get(New, "invalid_arg").result.Failure?
  {
    ExampleKeysTruthy();
    assert ValidateName("test");
  }
}
