/**
  The JavaScript string operations the two scripts rely on: truthiness of a
  possibly-null string, `String.prototype.trim`, `String.prototype.toLowerCase`
  and the decimal rendering of a non-negative integer.
 */
module JsString {
  import opened JsArray

  /** JavaScript truthiness of a string that may be null: neither null nor empty. */
  predicate Truthy(s: Option<string>) {
    s.Some? && s.value != ""
  }

  /** The characters `trim` removes: ECMAScript WhiteSpace (Zs included) and LineTerminator. */
  predicate IsWhitespace(c: char) {
    || c == '\t' || c == '\n' || c == '\U{000B}' || c == '\U{000C}' || c == '\r'
    || c == ' ' || c == '\U{00A0}' || c == '\U{1680}'
    || ('\U{2000}' <= c <= '\U{200A}')
    || c == '\U{2028}' || c == '\U{2029}' || c == '\U{202F}' || c == '\U{205F}'
    || c == '\U{3000}' || c == '\U{FEFF}'
  }

  /** `s` without its leading whitespace. */
  function TrimStart(s: string): (r: string)
    ensures |r| <= |s| && r == s[|s| - |r|..]
    ensures forall k :: 0 <= k < |s| - |r| ==> IsWhitespace(s[k])
    ensures r != [] ==> !IsWhitespace(r[0])
  {
    if s != [] && IsWhitespace(s[0]) then TrimStart(s[1..]) else s
  }

  /** `s` without its trailing whitespace. */
  function TrimEnd(s: string): (r: string)
    ensures |r| <= |s| && r == s[..|r|]
    ensures forall k :: |r| <= k < |s| ==> IsWhitespace(s[k])
    ensures r != [] ==> !IsWhitespace(r[|r| - 1])
  {
    if s != [] && IsWhitespace(s[|s| - 1]) then TrimEnd(s[..|s| - 1]) else s
  }

  /** `s.trim()`; what it keeps is stated by `TrimIsSlice`. */
  function Trim(s: string): (r: string)
    ensures |r| <= |s|
  {
    TrimEnd(TrimStart(s))
  }

  /** `t` is `s` with its surrounding whitespace cut away: a slice of `s` with
      only whitespace outside it, neither starting nor ending with whitespace. */
  ghost predicate IsTrimmed(t: string, s: string) {
    && (exists i, j ::
         && 0 <= i <= j <= |s| && t == s[i..j]
         && (forall k :: 0 <= k < i ==> IsWhitespace(s[k]))
         && (forall k :: j <= k < |s| ==> IsWhitespace(s[k])))
    && (t != [] ==> !IsWhitespace(t[0]) && !IsWhitespace(t[|t| - 1]))
  }

  /** The trimmed string is `s` with exactly its surrounding whitespace cut away. */
  lemma TrimIsSlice(s: string)
    ensures IsTrimmed(Trim(s), s)
    ensures Trim(s) != [] ==> !IsWhitespace(Trim(s)[0]) && !IsWhitespace(Trim(s)[|Trim(s)| - 1])
  {
    var t := TrimStart(s);
    var r := TrimEnd(t);
    var i := |s| - |t|;
    var j := i + |r|;
    assert r == s[i..j];
    forall k | j <= k < |s|
      ensures IsWhitespace(s[k])
    {
      assert s[k] == t[k - i];
    }
    assert 0 <= i <= j <= |s| && r == s[i..j];
  }

  /** Trimming twice is trimming once. */
  lemma TrimIdempotent(s: string)
    ensures Trim(Trim(s)) == Trim(s)
  {
    var r := Trim(s);
    assert TrimStart(r) == r;
    assert TrimEnd(r) == r;
  }

  /** `toLowerCase` on one character; only the ASCII capitals A-Z are mapped. */
  function LowerChar(c: char): char {
    if 'A' <= c <= 'Z' then (c as int + 32) as char else c
  }

  /** `s.toLowerCase()`, character by character. */
  function ToLower(s: string): (r: string)
    ensures |r| == |s|
  {
    if s == [] then [] else [LowerChar(s[0])] + ToLower(s[1..])
  }

  /** Each character of the lower-cased string is the lower-cased character at the same position. */
  lemma {:induction false} ToLowerAt(s: string)
    ensures forall k :: 0 <= k < |s| ==> ToLower(s)[k] == LowerChar(s[k])
  {
    if s != [] {
      ToLowerAt(s[1..]);
    }
  }

  /** Lower-casing is idempotent, so a lower-cased key compares equal to itself lower-cased. */
  lemma {:induction false} ToLowerIdempotent(s: string)
    ensures ToLower(ToLower(s)) == ToLower(s)
  {
    if s != [] {
      ToLowerIdempotent(s[1..]);
      assert ToLower(s)[1..] == ToLower(s[1..]);
    }
  }

  /** Lower-casing a trimmed string leaves it trimmed: it maps no character to or from whitespace. */
  lemma TrimToLower(s: string)
    requires Trim(s) == s
    ensures Trim(ToLower(s)) == ToLower(s)
  {
    if s != [] {
      TrimIsSlice(s);
      ToLowerAt(s);
      var l := ToLower(s);
      assert !IsWhitespace(l[0]);
      assert TrimStart(l) == l;
      assert !IsWhitespace(l[|l| - 1]);
    }
  }

  /** The number a string of decimal digits denotes, most significant digit first. */
  function DigitsValue(s: string): nat
    requires forall k :: 0 <= k < |s| ==> '0' <= s[k] <= '9'
  {
    if s == [] then 0 else 10 * DigitsValue(s[..|s| - 1]) + (s[|s| - 1] - '0') as nat
  }

  /** Decimal digits of a non-negative integer, as `String(n)` renders it. */
  function DecimalString(n: nat): (r: string)
    ensures r != []
    ensures forall k :: 0 <= k < |r| ==> '0' <= r[k] <= '9'
    ensures |r| > 1 ==> r[0] != '0'
    ensures DigitsValue(r) == n
  {
    var d := ['0' + (n % 10) as char];
    if n < 10 then d
    else
      var p := DecimalString(n / 10);
      assert (p + d)[..|p + d| - 1] == p;
      p + d
  }
}
