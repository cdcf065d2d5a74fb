/** JavaScript string semantics that expirypulse's route and page rely on:
    truthiness of a string, `String.prototype.trim`, ASCII `toLowerCase`, and
    `s.split(sep)[0]` for a one-character separator. */
module JsString {

  import opened Options

  /** A JavaScript string is falsy exactly when it is empty. */
  predicate Truthy(s: string) {
    s != ""
  }

  /** `null`/`undefined` (None) and "" are falsy; every other string is truthy. */
  predicate TruthyOpt(o: Option<string>) {
    o.Some? && Truthy(o.value)
  }

  /** The code points `trim` removes: ECMA-262 WhiteSpace (TAB, VT, FF, SP,
      NBSP, ZWNBSP and the other Unicode "Zs" spaces U+1680, U+2000..U+200A,
      U+202F, U+205F, U+3000) and LineTerminator (LF, CR, LS, PS). */
  predicate IsWhiteSpace(c: char) {
    c == '\t' || c == '\n' || c == '\U{000B}' || c == '\U{000C}' || c == '\r' || c == ' '
    || c == '\U{00A0}' || c == '\U{1680}' || ('\U{2000}' <= c <= '\U{200A}')
    || c == '\U{2028}' || c == '\U{2029}' || c == '\U{202F}' || c == '\U{205F}'
    || c == '\U{3000}' || c == '\U{FEFF}'
  }

  /** How many white-space characters `s` starts with. */
  function LeadingSpace(s: string): (n: nat)
    ensures n <= |s|
    ensures forall k :: 0 <= k < n ==> IsWhiteSpace(s[k])
    ensures n < |s| ==> !IsWhiteSpace(s[n])
  {
    if s != [] && IsWhiteSpace(s[0]) then 1 + LeadingSpace(s[1..]) else 0
  }

  /** The length of `s` once the white space at its end is cut off. */
  function TrailingCut(s: string): (m: nat)
    ensures m <= |s|
    ensures forall k :: m <= k < |s| ==> IsWhiteSpace(s[k])
    ensures m > 0 ==> !IsWhiteSpace(s[m - 1])
  {
    if s != [] && IsWhiteSpace(s[|s| - 1]) then TrailingCut(s[..|s| - 1]) else |s|
  }

  /** `s.trim()`: the leading white space skipped, then the trailing white
      space of the rest cut off. */
  function Trim(s: string): string {
    var i := LeadingSpace(s);
    s[i..i + TrailingCut(s[i..])]
  }

  /** `trim` leaves the infix `s[i..j]` of `s` that remains after removing
      the white space at both ends. */
  lemma TrimSpec(s: string) returns (i: nat, j: nat)
    ensures i <= j <= |s| && Trim(s) == s[i..j]
    ensures forall k :: 0 <= k < i ==> IsWhiteSpace(s[k])
    ensures forall k :: j <= k < |s| ==> IsWhiteSpace(s[k])
    ensures Trim(s) != [] ==> !IsWhiteSpace(Trim(s)[0]) && !IsWhiteSpace(Trim(s)[|Trim(s)| - 1])
  {
    i := LeadingSpace(s);
    var rest := s[i..];
    var m := TrailingCut(rest);
    j := i + m;
    forall k | j <= k < |s|
      ensures IsWhiteSpace(s[k])
    {
      assert s[k] == rest[k - i];
    }
    if m > 0 {
      assert Trim(s)[m - 1] == rest[m - 1];
    }
  }

  predicate IsUpperAscii(c: char) {
    'A' <= c <= 'Z'
  }

  /** ASCII case mapping of one character; every other character is kept. */
  function LowerChar(c: char): (r: char)
    ensures IsUpperAscii(c) ==> r as int == c as int + 32
    ensures !IsUpperAscii(c) ==> r == c
  {
    if IsUpperAscii(c) then (c as int + 32) as char else c
  }

  /** `s.toLowerCase()` restricted to the ASCII letters. */
  function ToLower(s: string): (r: string)
    ensures |r| == |s|
  {
    if s == [] then [] else [LowerChar(s[0])] + ToLower(s[1..])
  }

  /** Lower-casing maps each character on its own. */
  lemma {:induction false} ToLowerSpec(s: string)
    ensures forall k :: 0 <= k < |s| ==> ToLower(s)[k] == LowerChar(s[k])
  {
    if s != [] {
      ToLowerSpec(s[1..]);
      forall k | 0 < k < |s|
        ensures ToLower(s)[k] == LowerChar(s[k])
      {
        assert ToLower(s)[k] == ToLower(s[1..])[k - 1];
        assert s[k] == s[1..][k - 1];
      }
    }
  }

  /** `s.split(sep)[0]` for a separator of one character: everything before
      the first occurrence of `sep`, or all of `s` when it has none. */
  function SplitHead(s: string, sep: char): (r: string)
    ensures |r| <= |s| && r == s[..|r|]
    ensures sep !in r
    ensures |r| < |s| ==> s[|r|] == sep
  {
    if s == [] then []
    else if s[0] == sep then []
    else [s[0]] + SplitHead(s[1..], sep)
  }

  /** A prefix free of the separator followed by the separator is what
      `split(sep)[0]` returns. */
  lemma {:induction false} SplitHeadOfPrefix(a: string, b: string, sep: char)
    requires sep !in a
    requires b == [] || b[0] == sep
    ensures SplitHead(a + b, sep) == a
  {
    if a != [] {
      assert (a + b)[1..] == a[1..] + b;
      SplitHeadOfPrefix(a[1..], b, sep);
    } else {
      assert a + b == b;
    }
  }

  /** Lower-casing leaves a string with no upper-case ASCII letter unchanged. */
  lemma ToLowerFixes(s: string)
    requires forall k :: 0 <= k < |s| ==> !IsUpperAscii(s[k])
    ensures ToLower(s) == s
  {
    ToLowerSpec(s);
  }

  /** Trimming leaves a string without white space at its ends unchanged. */
  lemma TrimFixes(s: string)
    requires s != [] ==> !IsWhiteSpace(s[0]) && !IsWhiteSpace(s[|s| - 1])
    ensures Trim(s) == s
  {
    assert LeadingSpace(s) == 0;
    assert s[0..] == s;
    assert TrailingCut(s) == |s|;
  }
}
