/**
 * Expansion of a replacement string by `String.prototype.replace`: the abstract operation
 * GetSubstitution of ECMAScript 2023, section 22.1.3.19.1. When the second argument of
 * `replace` is a string, its `$` patterns are expanded against the match before the
 * result is spliced in; a callback's return value is used literally instead.
 */
module Substitution {
  import opened Text

  /** What a replacement string may refer to: the matched text, the text before and
      after it, and the capture groups in order. */
  datatype MatchContext = MatchContext(matched: string, before: string, after: string, groups: seq<string>)

  predicate IsDigit(c: char) {
    '0' <= c <= '9'
  }

  function DigitValue(c: char): nat
    requires IsDigit(c)
  {
    c as int - '0' as int
  }

  /** The expansion of the replacement template `t` for the match described by `m`:
      `$$` is a dollar sign, `$&` the match, `` $` `` the text before it, `$'` the text
      after it, `$nn` or `$n` a capture group when its number exists (the two-digit form
      first), and any other `$` stands for itself. */
  function Substitute(t: string, m: MatchContext): (r: string)
    ensures '$' !in t ==> r == t
    decreases |t|
  {
    if t == [] then []
    else if t[0] != '$' || |t| == 1 then [t[0]] + Substitute(t[1..], m)
    else
      var c := t[1];
      if c == '$' then "$" + Substitute(t[2..], m)
      else if c == '&' then m.matched + Substitute(t[2..], m)
      else if c == '`' then m.before + Substitute(t[2..], m)
      else if c == '\'' then m.after + Substitute(t[2..], m)
      else if IsDigit(c) then
        var one := DigitValue(c);
        if |t| >= 3 && IsDigit(t[2]) && 1 <= 10 * one + DigitValue(t[2]) <= |m.groups| then
          m.groups[10 * one + DigitValue(t[2]) - 1] + Substitute(t[3..], m)
        else if 1 <= one <= |m.groups| then
          m.groups[one - 1] + Substitute(t[2..], m)
        else "$" + Substitute(t[1..], m)
      else "$" + Substitute(t[1..], m)
  }

  /** A template that starts with `$1` and continues with a non-digit inserts the first
      capture group and then the rest of the template, expanded. */
  lemma FirstGroupReference(rest: string, m: MatchContext)
    requires |m.groups| >= 1
    requires rest == [] || !IsDigit(rest[0])
    ensures Substitute("$1" + rest, m) == m.groups[0] + Substitute(rest, m)
  {
    var t := "$1" + rest;
    assert t[0] == '$' && t[1] == '1' && t[2..] == rest;
  }
}
