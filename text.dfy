/** The string operations of Ruby that the binding relies on: `upcase`,
    `downcase` (ASCII letters only) and `split('=', 2)`. */
module Text {
  import opened Outcomes

  predicate IsLower(c: char) { 'a' <= c <= 'z' }
  predicate IsUpper(c: char) { 'A' <= c <= 'Z' }

  function UpChar(c: char): (u: char)
    ensures !IsLower(u)
  {
    if IsLower(c) then (c as int - 32) as char else c
  }

  function DownChar(c: char): (d: char)
    ensures !IsUpper(d)
  {
    if IsUpper(c) then (c as int + 32) as char else c
  }

  /** `String#upcase`: every ASCII letter in upper case, every other character kept.
      A primitive: its contract is its definition, character by character. */
  function Upcase(s: string): (u: string)
    ensures |u| == |s|
    ensures forall i :: 0 <= i < |s| ==> u[i] == UpChar(s[i])
  {
    seq(|s|, i requires 0 <= i < |s| => UpChar(s[i]))
  }

  /** `String#downcase`, the mirror image of `Upcase`; a primitive like it. */
  function Downcase(s: string): (d: string)
    ensures |d| == |s|
    ensures forall i :: 0 <= i < |s| ==> d[i] == DownChar(s[i])
  {
    seq(|s|, i requires 0 <= i < |s| => DownChar(s[i]))
  }

  /** Position of the first `=` in `s`, if there is one. */
  function FirstEquals(s: string): (r: Option<nat>)
    ensures r.None? <==> '=' !in s
    ensures r.Some? ==> r.value < |s| && s[r.value] == '=' && '=' !in s[..r.value]
  {
    if |s| == 0 then None
    else if s[0] == '=' then Some(0)
    else
      match FirstEquals(s[1..])
      case None => None
      case Some(i) =>
        assert s[..i + 1] == [s[0]] + s[1..][..i];
        Some(i + 1)
  }

  /** `s.split('=', 2)`: no part for the empty string, the whole string when
      it has no `=`, else the text before the first `=` and everything after
      it (later `=` characters included, empty parts kept). */
  function SplitOnce(s: string): seq<string> {
    if s == "" then []
    else
      match FirstEquals(s)
      case None => [s]
      case Some(i) => [s[..i], s[i + 1..]]
  }

  /** What the parts of `split('=', 2)` are. */
  lemma SplitOnceParts(s: string)
    ensures var parts := SplitOnce(s);
      && |parts| <= 2
      && (parts == [] <==> s == "")
      && (|parts| == 1 ==> parts[0] == s && '=' !in s)
      && (|parts| == 2 ==> parts[0] + "=" + parts[1] == s && '=' !in parts[0])
  {
    match FirstEquals(s)
    case None =>
    case Some(i) =>
      assert s[..i] + "=" + s[i + 1..] == s;
  }

  /** Joining a name without `=` to any value and splitting again gives the
      two pieces back. */
  lemma {:induction false} SplitJoin(name: string, value: string)
    requires '=' !in name
    ensures SplitOnce(name + "=" + value) == [name, value]
  {
    var s := name + "=" + value;
    var parts := SplitOnce(s);
    SplitOnceParts(s);
    assert s[|name|] == '=';
    assert |parts| == 2;
    assert '=' !in s[..|parts[0]|];
    assert parts[0] == s[..|parts[0]|] == name;
    assert parts[1] == s[|name| + 1..] == value;
  }

  /** `split('=', 2).last`. */
  function AfterFirstEquals(s: string): Option<string> {
    var parts := SplitOnce(s);
    if parts == [] then None else Some(parts[|parts| - 1])
  }

  /** `split('=', 2).last` is the value part, or the whole string when it has
      no `=`, or `nil` for the empty string. */
  lemma AfterFirstEqualsParts(s: string)
    ensures AfterFirstEquals(s).None? <==> s == ""
    ensures AfterFirstEquals(s).Some? && '=' in s ==>
      exists name :: '=' !in name && s == name + "=" + AfterFirstEquals(s).value
    ensures AfterFirstEquals(s).Some? && '=' !in s ==> AfterFirstEquals(s).value == s
  {
    SplitOnceParts(s);
  }
}
