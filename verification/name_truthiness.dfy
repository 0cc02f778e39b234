/**
  * `collectShortLong` (src/Parser.php:306-315) enters an option's long and
  * short name into the lookup tables only when the name is truthy in PHP,
  * and the string "0" is falsy. `validateShort` and `validateLong` accept
  * "0", so an option declared with the name "0" is accepted, yet `-0` and
  * `--0` are never recognised. This module models the lookup as written
  * and exhibits the lost option; the rest of the model uses the tables of
  * `Parser.Table`, which hold every declared name.
  */
module NameTruthiness {
  import opened Wrappers
  import opened Values
  import opened Errors
  import opened Text
  import Options
  import Parser

  type OptionConfig = Options.OptionConfig

  /** The names an option contributes to a table as written: only a truthy name. */
  function DeclaresAsWritten(name: string, field: Option<string>): (m: map<string, string>)
    ensures m.Keys <= (if field.Some? then {field.value} else {})
    ensures field.Some? && Truthy(field.value) ==> field.value in m && m[field.value] == name
  {
    if field.Some? && Truthy(field.value) then map[field.value := name] else map[]
  }

  /**
    * One lookup table as `collectShortLong` builds it, later options
    * overriding earlier ones: whatever the options, it never holds "0".
    */
  function TableAsWritten(opts: seq<Parser.Entry<OptionConfig>>, kind: Parser.NameKind): (m: map<string, string>)
    ensures forall n :: n in m ==> Truthy(n)
    decreases |opts|
  {
    if opts == [] then map[]
    else DeclaresAsWritten(opts[0].name, Parser.NameOf(opts[0].config, kind)) + TableAsWritten(opts[1..], kind)
  }

  /** An option whose only name is the short name "0". */
  const Zero: OptionConfig := Options.New.(short := Some("0"))

  /** The short name "0" is accepted by the setter, and the option passes validation. */
  lemma ZeroIsAccepted()
    ensures Options.ValidateShort("0")
    ensures Options.Short(Options.New, "0").config == Zero
    ensures Options.Validate(Zero).thrown.None?
  {
  }

  /** As written, `-0` is rejected as unrecognised although an option declares it. */
  lemma ZeroShortLost(opts: seq<Parser.Entry<OptionConfig>>)
    requires opts == [Parser.Entry("zero", Zero)]
    ensures var t := Parser.Tables(TableAsWritten(opts, Parser.ShortNames), TableAsWritten(opts, Parser.LongNames));
      Parser.Fits(Parser.ConfigMap(opts), t)
      && Parser.ProcessOptions(Parser.ConfigMap(opts), t, ["-0"]) == Failure(UnrecognizedOption("-0"))
  {
    var t := Parser.Tables(TableAsWritten(opts, Parser.ShortNames), TableAsWritten(opts, Parser.LongNames));
    var cfgs := Parser.ConfigMap(opts);
    assert opts[1..] == [];
    assert TableAsWritten(opts[1..], Parser.ShortNames) == map[];
    assert TableAsWritten(opts[1..], Parser.LongNames) == map[];
    assert DeclaresAsWritten("zero", Parser.NameOf(Zero, Parser.ShortNames)) == map[];
    assert DeclaresAsWritten("zero", Parser.NameOf(Zero, Parser.LongNames)) == map[];
    assert t.shorts == map[] && t.longs == map[];
    var tok := "-0";
    assert tok[1..] == "0" && tok[..1] == "-" && tok[..2] == tok;
    assert Parser.ApplyBundle(cfgs, t, Parser.Start, tok[1..], tok) == Failure(UnrecognizedOption(tok));
    assert Parser.Step(cfgs, t, Parser.Start, tok) == Failure(UnrecognizedOption(tok));
    assert Parser.Loop(cfgs, t, Parser.Start, [tok]) == Failure(UnrecognizedOption(tok));
  }

  /** With the corrected tables, `-0` sets the flag. */
  lemma ZeroShortFound(opts: seq<Parser.Entry<OptionConfig>>)
    requires opts == [Parser.Entry("zero", Zero)]
    ensures var t := Parser.Tables(Parser.Table(opts, Parser.ShortNames), Parser.Table(opts, Parser.LongNames));
      Parser.Fits(Parser.ConfigMap(opts), t)
      && Parser.ProcessOptions(Parser.ConfigMap(opts), t, ["-0"]).Success?
      && Parser.ProcessOptions(Parser.ConfigMap(opts), t, ["-0"]).value.values == map["zero" := Bool(true)]
  {
    var t := Parser.Tables(Parser.Table(opts, Parser.ShortNames), Parser.Table(opts, Parser.LongNames));
    var cfgs := Parser.ConfigMap(opts);
    Parser.TablesFit(opts);
    assert opts[1..] == [];
    assert t.shorts == map["0" := "zero"];
    var tok := "-0";
    assert tok[1..] == "0" && tok[..1] == "-" && tok[..2] == tok && "0"[1..] == "";
    var s1 := Parser.AddOption(Zero, Parser.Start, "zero", tok, false);
    assert Parser.ApplyBundle(cfgs, t, Parser.Start, tok[1..], tok) == Success(s1);
    assert Parser.Step(cfgs, t, Parser.Start, tok) == Success(Parser.Stepped(s1, None));
    var rest: seq<string> := [tok][1..];
    assert rest == [];
    assert Parser.Loop(cfgs, t, Parser.Start, [tok]) == Success(s1);
  }
}
