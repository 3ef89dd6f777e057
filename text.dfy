/**
 * The JavaScript string primitives the validators and the account registry
 * rely on: `String.prototype.trim`, the regular-expression class `\s`,
 * one-character class tests such as `/[A-Z]/`, and `toLowerCase`.
 */
module Text {

  /**
   * ECMAScript's WhiteSpace and LineTerminator code points: the characters
   * `trim` removes and `\s` matches (Zs as of Unicode 15).
   */
  predicate IsWhitespace(c: char) {
    || c == '\t' || c == '\n' || c == '\U{000B}' || c == '\U{000C}' || c == '\r'
    || c == ' ' || c == '\U{00A0}' || c == '\U{1680}'
    || ('\U{2000}' <= c <= '\U{200A}')
    || c == '\U{2028}' || c == '\U{2029}' || c == '\U{202F}' || c == '\U{205F}'
    || c == '\U{3000}' || c == '\U{FEFF}'
  }

  predicate AllWhitespace(s: string) {
    forall i :: 0 <= i < |s| ==> IsWhitespace(s[i])
  }

  lemma WhitespaceThenSuffix(s: string, r: string)
    requires s != [] && IsWhitespace(s[0])
    requires |r| <= |s| - 1 && r == s[1..][|s| - 1 - |r|..] && AllWhitespace(s[1..][..|s| - 1 - |r|])
    ensures r == s[|s| - |r|..] && AllWhitespace(s[..|s| - |r|])
  {
  }

  lemma PrefixThenWhitespace(s: string, r: string)
    requires s != [] && IsWhitespace(s[|s| - 1])
    requires |r| <= |s| - 1 && r == s[..|s| - 1][..|r|] && AllWhitespace(s[..|s| - 1][|r|..])
    ensures r == s[..|r|] && AllWhitespace(s[|r|..])
  {
  }

  /** Drops the leading whitespace: the result is the longest suffix that does not start with whitespace. */
  function TrimStart(s: string): (r: string)
    ensures |r| <= |s| && r == s[|s| - |r|..]
    ensures AllWhitespace(s[..|s| - |r|])
    ensures r == [] || !IsWhitespace(r[0])
  {
    if s != [] && IsWhitespace(s[0]) then
      var r := TrimStart(s[1..]);
      WhitespaceThenSuffix(s, r);
      r
    else
      s
  }

  /** Drops the trailing whitespace: the result is the longest prefix that does not end with whitespace. */
  function TrimEnd(s: string): (r: string)
    ensures |r| <= |s| && r == s[..|r|]
    ensures AllWhitespace(s[|r|..])
    ensures r == [] || !IsWhitespace(r[|r| - 1])
  {
    if s != [] && IsWhitespace(s[|s| - 1]) then
      var r := TrimEnd(s[..|s| - 1]);
      PrefixThenWhitespace(s, r);
      r
    else
      s
  }

  lemma SliceOfSuffix(s: string, t: string, r: string, i: nat)
    requires i <= |s| && t == s[i..] && |r| <= |t| && r == t[..|r|]
    ensures r == s[i..i + |r|]
    ensures s[i + |r|..] == t[|r|..]
  {
  }

  /** `s.trim()`: the middle slice of `s` left when whitespace is removed from both ends. */
  function Trim(s: string): (r: string)
    ensures |TrimStart(s)| >= |r|
    ensures r == s[|s| - |TrimStart(s)|..|s| - |TrimStart(s)| + |r|]
    ensures AllWhitespace(s[..|s| - |TrimStart(s)|])
    ensures AllWhitespace(s[|s| - |TrimStart(s)| + |r|..])
    ensures r == [] || (!IsWhitespace(r[0]) && !IsWhitespace(r[|r| - 1]))
  {
    var t := TrimStart(s);
    var r := TrimEnd(t);
    SliceOfSuffix(s, t, r, |s| - |t|);
    assert r != [] ==> r[0] == t[0];
    r
  }

  /** Trimming leaves nothing exactly when the string is all whitespace. */
  lemma TrimEmptyIff(s: string)
    ensures Trim(s) == [] <==> AllWhitespace(s)
  {
  }

  lemma {:induction false} TrimStartPadded(w: string, s: string)
    requires AllWhitespace(w)
    ensures TrimStart(w + s) == TrimStart(s)
  {
    if w != [] {
      assert (w + s)[1..] == w[1..] + s;
      TrimStartPadded(w[1..], s);
    } else {
      assert w + s == s;
    }
  }

  lemma {:induction false} TrimEndPadded(s: string, w: string)
    requires AllWhitespace(w)
    ensures TrimEnd(s + w) == TrimEnd(s)
  {
    if w != [] {
      assert (s + w)[..|s + w| - 1] == s + w[..|w| - 1];
      TrimEndPadded(s, w[..|w| - 1]);
    } else {
      assert s + w == s;
    }
  }

  lemma {:induction false} TrimStartAppend(s: string, w: string)
    ensures TrimStart(s) != [] ==> TrimStart(s + w) == TrimStart(s) + w
    ensures TrimStart(s) == [] && AllWhitespace(w) ==> TrimStart(s + w) == []
  {
    if s == [] {
      assert s + w == w;
      if AllWhitespace(w) { TrimStartPadded(w, []); assert w + [] == w; }
    } else if IsWhitespace(s[0]) {
      assert (s + w)[1..] == s[1..] + w;
      TrimStartAppend(s[1..], w);
    }
  }

  /** Whitespace around a string never changes what `trim` returns. */
  lemma TrimPadded(w1: string, s: string, w2: string)
    requires AllWhitespace(w1) && AllWhitespace(w2)
    ensures Trim(w1 + s + w2) == Trim(s)
  {
    assert w1 + s + w2 == w1 + (s + w2);
    TrimStartPadded(w1, s + w2);
    TrimStartAppend(s, w2);
    if TrimStart(s) != [] {
      TrimEndPadded(TrimStart(s), w2);
    }
  }

  /** Trimming twice is trimming once. */
  lemma TrimIdempotent(s: string)
    ensures Trim(Trim(s)) == Trim(s)
  {
  }

  predicate IsAsciiUpper(c: char) { 'A' <= c <= 'Z' }
  predicate IsAsciiLower(c: char) { 'a' <= c <= 'z' }
  predicate IsDigit(c: char) { '0' <= c <= '9' }

  /** `/[lo-hi]/.test(s)`: some character of `s` lies in the range. */
  function ContainsInRange(s: string, lo: char, hi: char): (r: bool)
    ensures r <==> exists i :: 0 <= i < |s| && lo <= s[i] <= hi
  {
    if s == [] then false
    else if lo <= s[0] <= hi then true
    else
      var r := ContainsInRange(s[1..], lo, hi);
      assert forall i :: 1 <= i < |s| ==> s[i] == s[1..][i - 1];
      r
  }

  /** `s.replace(/\D/g, '')`: the digits of `s`, in order. */
  function KeepDigits(s: string): (r: string)
    ensures |r| <= |s|
    ensures forall i :: 0 <= i < |r| ==> IsDigit(r[i])
    ensures forall c :: IsDigit(c) ==> multiset(r)[c] == multiset(s)[c]
  {
    if s == [] then []
    else
      var rest := KeepDigits(s[1..]);
      assert s == [s[0]] + s[1..];
      if IsDigit(s[0]) then [s[0]] + rest else rest
  }

  lemma {:induction false} KeepDigitsAppend(a: string, b: string)
    ensures KeepDigits(a + b) == KeepDigits(a) + KeepDigits(b)
  {
    if a == [] {
      assert a + b == b;
    } else {
      assert (a + b)[1..] == a[1..] + b;
      KeepDigitsAppend(a[1..], b);
    }
  }

  /** A string with no digit contributes nothing. */
  lemma {:induction false} KeepDigitsNone(s: string)
    requires forall i :: 0 <= i < |s| ==> !IsDigit(s[i])
    ensures KeepDigits(s) == []
  {
    if s != [] { KeepDigitsNone(s[1..]); }
  }

  /** A string of digits is kept whole. */
  lemma {:induction false} KeepDigitsAll(s: string)
    requires forall i :: 0 <= i < |s| ==> IsDigit(s[i])
    ensures KeepDigits(s) == s
  {
    if s != [] { KeepDigitsAll(s[1..]); }
  }

  /** `c.toLowerCase()` on the ASCII letters; every other character is left as it is. */
  function LowerChar(c: char): (r: char)
    ensures IsAsciiUpper(c) ==> r as int == c as int + 32
    ensures !IsAsciiUpper(c) ==> r == c
  {
    if IsAsciiUpper(c) then (c as int + 32) as char else c
  }

  /** `s.toLowerCase()`, character by character. */
  function ToLower(s: string): (r: string)
    ensures |r| == |s|
    ensures forall i :: 0 <= i < |s| ==> r[i] == LowerChar(s[i])
  {
    seq(|s|, i requires 0 <= i < |s| => LowerChar(s[i]))
  }

  /** Lower-casing is idempotent, so lower-cased keys compare like the originals. */
  lemma ToLowerIdempotent(s: string)
    ensures ToLower(ToLower(s)) == ToLower(s)
  {
  }
}
