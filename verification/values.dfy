/** The values a configuration holds and the parser produces. */
module Values {

  /**
    * The PHP values that flow through the library: `null`, a flag's boolean, a
    * counter's integer, a string token, or a list of values (a multiple
    * option's or argument's values, or a list-valued default).
    */
  datatype Value = Null | Bool(b: bool) | Int(i: int) | Str(s: string) | List(items: seq<Value>)

  /** The strings of `ss`, each wrapped as a `Str` value, in order. */
  function Strs(ss: seq<string>): (vs: seq<Value>)
    ensures |vs| == |ss|
    ensures forall i :: 0 <= i < |ss| ==> vs[i] == Str(ss[i])
  {
    if ss == [] then [] else [Str(ss[0])] + Strs(ss[1..])
  }
}

/**
  * The closed set of failures the library raises (one variant per exception
  * class), plus the "show help" control signal, which the source also raises
  * as an exception.
  */
module Errors {
  import opened Wrappers
  import opened Values

  /** Why an option configuration was refused. */
  datatype OptionProblem =
    | ShortFormat          // short name is not one letter or digit
    | LongFormat           // long name is not [A-Za-z0-9_-]+
    | ArgumentNameFormat   // argument name is not [A-Za-z0-9_-]+
    | IncompatibleSettings // a cross-field invariant is violated
    | UnknownOptionParam   // `get` asked for a field that does not exist

  /** Why an argument configuration was refused. */
  datatype ArgumentProblem =
    | IllegalName           // name is not [A-Za-z0-9_-]+
    | RequiredWithDefault   // required and a default value are both set
    | RequiredAfterOptional // a required argument is registered after an optional one
    | MultipleNotLast       // a 'multiple' argument is followed by another argument
    | UnknownArgumentParam  // `get` asked for a field that does not exist

  /** Why the handler refused a registration or setting. */
  datatype HandlerProblem =
    | AlreadySet      // the option/argument name is already registered
    | HelpLongFormat  // the help option's long name is not a valid long name
    | HelpShortFormat // the help option's short name is not a valid short name

  datatype Error =
      // usage errors: caused by the command line
    | UnrecognizedOption(option: string)
    | MissingOptionArgument(option: string)
    | MissingOptions
    | MissingArguments
    | TooManyArguments
    | InvalidOption(option: string, value: Value)
    | InvalidArgument(argument: string)
      // configuration errors: caused by the registering program
    | OptionConfigError(optionProblem: OptionProblem)
    | ArgumentConfigError(argumentProblem: ArgumentProblem)
    | ConfigError(handlerProblem: HandlerProblem)
      // control signal: the help option was given
    | ShowHelp
  {
    /** Errors the end user caused; presentation code reports these and exits. */
    predicate IsUsageError() {
      || UnrecognizedOption? || MissingOptionArgument? || MissingOptions?
      || MissingArguments? || TooManyArguments? || InvalidOption? || InvalidArgument?
    }

    /** Errors the registering program caused; these must propagate. */
    predicate IsConfigError() {
      OptionConfigError? || ArgumentConfigError? || ConfigError?
    }
  }

  /**
    * The state of a fluent builder after a setter call, together with the
    * exception the call threw, if any. The source mutates the object (at least
    * its "validated" flag) before it throws, so both halves are needed.
    */
  datatype Updated<+T> = Updated(config: T, thrown: Option<Error>)

  /** The state of a builder after a `get` call, and what the call returned or threw. */
  datatype Read<+T, +V> = Read(config: T, result: Result<V, Error>)
}
