/**
  * String helpers standing in for the PHP built-ins the core relies on: the
  * ASCII character classes of its name patterns, `explode`, `strtoupper` and
  * `rtrim`.
  */
module Text {

  /** The character class `[a-zA-Z0-9]`. */
  predicate IsAlnum(c: char) {
    ('a' <= c <= 'z') || ('A' <= c <= 'Z') || ('0' <= c <= '9')
  }

  /** The character class `[a-zA-Z0-9\-_]` of long names, argument names and argument placeholders. */
  predicate IsNameChar(c: char) {
    IsAlnum(c) || c == '-' || c == '_'
  }

  /** Scans `s` left to right, as a regex engine matching `^[a-zA-Z0-9\-_]*$` would. */
  function AllNameChars(s: string): (r: bool)
    ensures r <==> forall i :: 0 <= i < |s| ==> IsNameChar(s[i])
  {
    if s == [] then true
    else IsNameChar(s[0]) && AllNameChars(s[1..])
  }

  /** The pattern `^[a-zA-Z0-9\-_]+$`: one or more name characters and nothing else. */
  function MatchesName(s: string): (r: bool)
    ensures r <==> |s| > 0 && forall i :: 0 <= i < |s| ==> IsNameChar(s[i])
  {
    s != [] && AllNameChars(s)
  }

  /** PHP truthiness of a string: every string except "" and "0" is true. */
  predicate Truthy(s: string) {
    s != "" && s != "0"
  }

  /** `p` is an initial segment of `s`. */
  predicate StartsWith(s: string, p: string) {
    |p| <= |s| && s[..|p|] == p
  }

  /** `p` is a final segment of `s`. */
  predicate EndsWith(s: string, p: string) {
    |p| <= |s| && s[|s| - |p|..] == p
  }

  /** The position of the first `c` in `s`. */
  function IndexOf(s: string, c: char): (k: nat)
    requires c in s
    ensures k < |s| && s[k] == c
    ensures c !in s[..k]
  {
    if s[0] == c then 0
    else
      assert c in s[1..] by {
        var j :| 0 <= j < |s| && s[j] == c;
        assert j > 0 && s[1..][j - 1] == c;
      }
      1 + IndexOf(s[1..], c)
  }

  /** PHP's `explode(sep, s)`: the pieces of `s` between occurrences of `sep`. */
  function Explode(s: string, sep: char): (parts: seq<string>)
    ensures |parts| >= 1
    ensures forall i :: 0 <= i < |parts| ==> sep !in parts[i]
    ensures |parts| == 1 <==> sep !in s
    ensures sep !in s ==> parts == [s]
    decreases |s|
  {
    if sep !in s then [s]
    else
      var k := IndexOf(s, sep);
      [s[..k]] + Explode(s[k + 1..], sep)
  }

  /** PHP's `implode(sep, parts)`: the pieces joined with `sep` between them. */
  function Implode(parts: seq<string>, sep: char): string
    requires |parts| >= 1
  {
    if |parts| == 1 then parts[0]
    else parts[0] + [sep] + Implode(parts[1..], sep)
  }

  /** Exploding and imploding with the same separator gives back the original string. */
  lemma {:induction false} ImplodeExplode(s: string, sep: char)
    ensures Implode(Explode(s, sep), sep) == s
    decreases |s|
  {
    if sep in s {
      var k := IndexOf(s, sep);
      var tail := s[k + 1..];
      ImplodeExplode(tail, sep);
      var parts := Explode(s, sep);
      assert parts == [s[..k]] + Explode(tail, sep);
      assert parts[1..] == Explode(tail, sep);
      assert s == s[..k] + [sep] + tail;
    }
  }

  /** The first piece is the text before the first separator. */
  lemma ExplodeHead(s: string, sep: char)
    requires sep in s
    ensures Explode(s, sep)[0] == s[..IndexOf(s, sep)]
  {
  }

  /** ASCII upper-casing of one character, as `strtoupper` does. */
  function UpperChar(c: char): char {
    if 'a' <= c <= 'z' then (c as int - 'a' as int + 'A' as int) as char else c
  }

  /** `strtoupper`: every ASCII lower-case letter replaced by its upper-case form. */
  function Upper(s: string): (r: string)
    ensures |r| == |s|
    ensures forall i :: 0 <= i < |s| ==> r[i] == UpperChar(s[i])
  {
    if s == [] then [] else [UpperChar(s[0])] + Upper(s[1..])
  }

  /** The characters `rtrim` strips by default: space, tab, newline, carriage return, NUL and vertical tab. */
  predicate IsTrimmed(c: char) {
    c == ' ' || c == '\t' || c == '\n' || c == '\r' || c == 0 as char || c == 11 as char
  }

  /**
    * `rtrim(s)`: the longest prefix of `s` that does not end in a trimmed
    * character; everything removed is a trimmed character.
    */
  function RTrim(s: string): (r: string)
    ensures |r| <= |s| && r == s[..|r|]
    ensures r == [] || !IsTrimmed(r[|r| - 1])
    ensures forall i :: |r| <= i < |s| ==> IsTrimmed(s[i])
  {
    if s == [] || !IsTrimmed(s[|s| - 1]) then s
    else RTrim(s[..|s| - 1])
  }

  /** The three properties of `RTrim` determine its result. */
  lemma RTrimUnique(s: string, r: string)
    requires |r| <= |s| && r == s[..|r|]
    requires r == [] || !IsTrimmed(r[|r| - 1])
    requires forall i :: |r| <= i < |s| ==> IsTrimmed(s[i])
    ensures RTrim(s) == r
  {
  }

  /** Appending text never cuts into what `rtrim` keeps of the original: `rtrim(a)` is a prefix of `rtrim(a + b)`. */
  lemma RTrimKeepsPrefix(a: string, b: string)
    ensures StartsWith(RTrim(a + b), RTrim(a))
  {
    var r := RTrim(a + b);
    var ra := RTrim(a);
    if |r| < |a| {
      assert r == a[..|r|];
      forall i | |r| <= i < |a|
        ensures IsTrimmed(a[i])
      {
        assert (a + b)[i] == a[i];
      }
      RTrimUnique(a, r);
    } else {
      assert a == (a + b)[..|a|];
      assert ra == a[..|ra|];
    }
  }

  /** A prefix that does not end in whitespace survives `rtrim` whatever follows it. */
  lemma RTrimKeepsSolidPrefix(a: string, b: string)
    requires a != [] && !IsTrimmed(a[|a| - 1])
    ensures StartsWith(RTrim(a + b), a)
  {
    RTrimUnique(a, a);
    RTrimKeepsPrefix(a, b);
  }

  /** `rtrim` removes exactly a tail of trimmed characters that follows a solid prefix. */
  lemma RTrimDropsTail(a: string, b: string)
    requires a != [] && !IsTrimmed(a[|a| - 1])
    requires forall i :: 0 <= i < |b| ==> IsTrimmed(b[i])
    ensures RTrim(a + b) == a
  {
    assert (a + b)[..|a|] == a;
    forall i | |a| <= i < |a + b|
      ensures IsTrimmed((a + b)[i])
    {
      assert (a + b)[i] == b[i - |a|];
    }
    RTrimUnique(a + b, a);
  }
}
