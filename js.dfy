/** The pieces of JavaScript's runtime semantics that the request handlers rely on:
    values that may be absent (`undefined`), truthiness of strings, and
    `String.prototype.trim`. */
module Js {

  /** A request field that may be missing (`undefined`). */
  datatype Option<+T> = None | Some(value: T)

  /** A string-valued field is truthy when it is present and not the empty string. */
  predicate Truthy(v: Option<string>) {
    v.Some? && v.value != []
  }

  /** `v || ''` for a string-valued field. */
  function OrEmpty(v: Option<string>): (r: string)
    ensures Truthy(v) ==> r == v.value
    ensures !Truthy(v) ==> r == []
  {
    if Truthy(v) then v.value else []
  }

  /** The ECMAScript WhiteSpace and LineTerminator code points: exactly what `trim` strips. */
  predicate IsWhitespace(c: char) {
    || c == '\t' || c == '\n' || c == '\U{000B}' || c == '\U{000C}' || c == '\r' || c == ' '
    || c == '\U{00A0}' || c == '\U{1680}' || ('\U{2000}' <= c <= '\U{200A}')
    || c == '\U{2028}' || c == '\U{2029}' || c == '\U{202F}' || c == '\U{205F}'
    || c == '\U{3000}' || c == '\U{FEFF}'
  }

  predicate AllWhitespace(s: string) {
    forall i :: 0 <= i < |s| ==> IsWhitespace(s[i])
  }

  /** Drops leading whitespace: the result is a suffix of `s`, and what was dropped is whitespace. */
  function TrimStart(s: string): (r: string)
    ensures |r| <= |s| && r == s[|s| - |r|..]
    ensures AllWhitespace(s[..|s| - |r|])
    ensures r == [] || !IsWhitespace(r[0])
  {
    if s != [] && IsWhitespace(s[0]) then TrimStart(s[1..]) else s
  }

  /** Drops trailing whitespace: the result is a prefix of `s`, and what was dropped is whitespace. */
  function TrimEnd(s: string): (r: string)
    ensures |r| <= |s| && r == s[..|r|]
    ensures AllWhitespace(s[|r|..])
    ensures r == [] || !IsWhitespace(r[|r| - 1])
  {
    if s != [] && IsWhitespace(s[|s| - 1]) then TrimEnd(s[..|s| - 1]) else s
  }

  /** `s.trim()`. */
  function Trim(s: string): (r: string)
    ensures |r| <= |s|
    ensures r == [] || (!IsWhitespace(r[0]) && !IsWhitespace(r[|r| - 1]))
  {
    TrimEnd(TrimStart(s))
  }

  /** Trimming leaves a string without surrounding whitespace as it is. */
  lemma {:induction false} TrimKeepsTrimmed(s: string)
    requires s == [] || (!IsWhitespace(s[0]) && !IsWhitespace(s[|s| - 1]))
    ensures Trim(s) == s
  {
    assert TrimStart(s) == s;
    assert TrimEnd(s) == s;
  }

  /** `trim` removes whitespace at both ends and nothing else: the result is the
      part of `s` between a whitespace prefix and a whitespace suffix. */
  lemma TrimStripsOnlyWhitespace(s: string)
    ensures var i := |s| - |TrimStart(s)|;
            var r := Trim(s);
            && i + |r| <= |s| && r == s[i..i + |r|]
            && AllWhitespace(s[..i]) && AllWhitespace(s[i + |r|..])
  {
    var t := TrimStart(s);
    var i := |s| - |t|;
    var r := TrimEnd(t);
    assert Trim(s) == r;
    assert t == s[i..] && AllWhitespace(s[..i]);
    assert r == t[..|r|] && AllWhitespace(t[|r|..]);
    PrefixOfSuffix(s, i, r);
  }

  /** A prefix `r` of the suffix of `s` from `i` is the slice of `s` from `i`, and
      what follows it in that suffix is what follows it in `s`. */
  lemma PrefixOfSuffix(s: string, i: nat, r: string)
    requires i <= |s| && |r| <= |s| - i && r == s[i..][..|r|]
    ensures r == s[i..i + |r|] && s[i + |r|..] == s[i..][|r|..]
  {
  }

  /** Trimming is idempotent. */
  lemma TrimIdempotent(s: string)
    ensures Trim(Trim(s)) == Trim(s)
  {
    TrimKeepsTrimmed(Trim(s));
  }

  /** Trimming yields the empty string exactly when the input is all whitespace. */
  lemma {:induction false} TrimEmptyIffAllWhitespace(s: string)
    ensures Trim(s) == [] <==> AllWhitespace(s)
  {
    var t := TrimStart(s);
    if t != [] {
      // t keeps a non-whitespace first character, which also survives TrimEnd
      assert AllWhitespace(t[|TrimEnd(t)|..]);
      assert t[0] == s[|s| - |t|];
    }
  }
}
