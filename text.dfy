/** Character classes and string operations that the Ruby and JavaScript code rely on:
    Ruby's whitespace `split(' ')` and `blank?`, JavaScript's `trim()`, `join` and the
    decimal rendering of integers (`Integer#to_s`, template literals). */
module Text {
  import opened Wrappers

  /** The six ASCII whitespace characters that Ruby's `split(' ')` separates words on. */
  predicate IsAsciiSpace(c: char) {
    c == ' ' || c == '\t' || c == '\n' || c == '\U{B}' || c == '\U{C}' || c == '\r'
  }

  /** Space separators shared by Unicode's White_Space property and ECMAScript's WhiteSpace. */
  predicate IsUnicodeSpaceSeparator(c: char) {
    c == '\U{A0}' || c == '\U{1680}' || ('\U{2000}' <= c <= '\U{200A}') ||
    c == '\U{202F}' || c == '\U{205F}' || c == '\U{3000}' || c == '\U{2028}' || c == '\U{2029}'
  }

  /** `[[:space:]]` in Ruby's regular expressions (Unicode White_Space), the class behind `blank?`. */
  predicate IsRubySpace(c: char) {
    IsAsciiSpace(c) || c == '\U{85}' || IsUnicodeSpaceSeparator(c)
  }

  /** WhiteSpace and LineTerminator in ECMAScript, the characters `String.prototype.trim` removes. */
  predicate IsJsSpace(c: char) {
    IsAsciiSpace(c) || c == '\U{FEFF}' || IsUnicodeSpaceSeparator(c)
  }

  /** ActiveSupport's `blank?` on a string: empty or only whitespace. `present?` is its negation. */
  predicate IsBlank(s: string) {
    forall i :: 0 <= i < |s| ==> IsRubySpace(s[i])
  }

  // ---------------------------------------------------------------- JavaScript trim

  function TrimStart(s: string): (r: string)
    ensures |r| <= |s|
    ensures forall i :: 0 <= i < |r| ==> r[i] == s[|s| - |r| + i]
    ensures r != [] ==> !IsJsSpace(r[0])
    ensures forall i :: 0 <= i < |s| - |r| ==> IsJsSpace(s[i])
  {
    if s != [] && IsJsSpace(s[0]) then TrimStart(s[1..]) else s
  }

  function TrimEnd(s: string): (r: string)
    ensures |r| <= |s|
    ensures forall i :: 0 <= i < |r| ==> r[i] == s[i]
    ensures r != [] ==> !IsJsSpace(r[|r| - 1])
    ensures forall i :: |r| <= i < |s| ==> IsJsSpace(s[i])
  {
    if s != [] && IsJsSpace(s[|s| - 1]) then TrimEnd(s[..|s| - 1]) else s
  }

  /** `s.trim()`: `s` without its leading and trailing whitespace. */
  function Trim(s: string): string {
    TrimEnd(TrimStart(s))
  }

  /** Trimming removes the leading part only when something is left to trim at the end too:
      a string that starts with a non-whitespace character survives the trailing trim. */
  lemma TrimEndKeepsFirst(a: string)
    requires a != [] && !IsJsSpace(a[0])
    ensures TrimEnd(a) != [] && TrimEnd(a)[0] == a[0]
  {
  }

  /** The trimmed string is empty exactly when the input is nothing but whitespace. */
  lemma TrimEmptyIff(s: string)
    ensures Trim(s) == [] <==> forall i :: 0 <= i < |s| ==> IsJsSpace(s[i])
  {
    var a := TrimStart(s);
    if a != [] {
      TrimEndKeepsFirst(a);
      assert !IsJsSpace(s[|s| - |a|]);
    }
  }

  /** A trimmed string has no whitespace at either end, and is a contiguous part of the input:
      it starts where the leading whitespace ends. */
  lemma TrimShape(s: string)
    ensures var r := Trim(s);
      && (r != [] ==> !IsJsSpace(r[0]) && !IsJsSpace(r[|r| - 1]))
      && (forall i :: 0 <= i < |r| ==> r[i] == s[|s| - |TrimStart(s)| + i])
  {
    var a := TrimStart(s);
    if a != [] {
      TrimEndKeepsFirst(a);
    }
  }

  /** Trimming is idempotent. */
  lemma TrimIdempotent(s: string)
    ensures Trim(Trim(s)) == Trim(s)
  {
    var r := Trim(s);
    TrimShape(s);
    if r != [] {
      assert TrimStart(r) == r;
      assert TrimEnd(r) == r;
    }
  }

  // ---------------------------------------------------------------- Ruby split(' ')

  /** The longest prefix of `s` that contains no ASCII whitespace. */
  function WordPrefix(s: string): (w: string)
    ensures |w| <= |s| && w == s[..|w|]
    ensures forall i :: 0 <= i < |w| ==> !IsAsciiSpace(w[i])
    ensures |w| < |s| ==> IsAsciiSpace(s[|w|])
  {
    if s == [] || IsAsciiSpace(s[0]) then [] else [s[0]] + WordPrefix(s[1..])
  }

  /** `s.split(' ')`: the maximal runs of non-whitespace characters, in order. */
  function Words(s: string): (ws: seq<string>)
    ensures forall k :: 0 <= k < |ws| ==> ws[k] != [] && NoAsciiSpace(ws[k])
    decreases |s|
  {
    if s == [] then []
    else if IsAsciiSpace(s[0]) then Words(s[1..])
    else
      var w := WordPrefix(s);
      [w] + Words(s[|w|..])
  }

  predicate NoAsciiSpace(s: string) {
    forall i :: 0 <= i < |s| ==> !IsAsciiSpace(s[i])
  }

  /** `s.split(' ').last`: the last whitespace-separated word, or nil when there is none. */
  function LastWord(s: string): (r: Option<string>)
    ensures r.Some? ==> r.value != [] && NoAsciiSpace(r.value)
  {
    var ws := Words(s);
    if ws == [] then None else Some(ws[|ws| - 1])
  }

  /** A string has no words exactly when it is all ASCII whitespace. */
  lemma {:induction false} WordsEmptyIff(s: string)
    ensures Words(s) == [] <==> forall i :: 0 <= i < |s| ==> IsAsciiSpace(s[i])
    decreases |s|
  {
    if s != [] && IsAsciiSpace(s[0]) {
      WordsEmptyIff(s[1..]);
      assert forall i :: 0 < i < |s| ==> s[i] == s[1..][i - 1];
    }
  }

  /** A word without whitespace is a single word. */
  lemma {:induction false} WordsOfWord(t: string)
    requires t != [] && NoAsciiSpace(t)
    ensures Words(t) == [t]
  {
    WordPrefixOfWord(t);
    assert t[|t|..] == [];
  }

  lemma {:induction false} WordPrefixOfWord(t: string)
    requires NoAsciiSpace(t)
    ensures WordPrefix(t) == t
  {
    if t != [] {
      WordPrefixOfWord(t[1..]);
    }
  }

  /** A word's prefix is unaffected by what follows the whitespace that ends it. */
  lemma {:induction false} WordPrefixBeforeSpace(p: string, q: string)
    requires q != [] && IsAsciiSpace(q[0])
    ensures WordPrefix(p + q) == WordPrefix(p)
  {
    if p != [] {
      assert (p + q)[0] == p[0];
      assert (p + q)[1..] == p[1..] + q;
      WordPrefixBeforeSpace(p[1..], q);
    } else {
      assert p + q == q;
    }
  }

  /** Appending a space and a word adds exactly that word at the end. */
  lemma {:induction false} WordsAppendWord(p: string, t: string)
    requires t != [] && NoAsciiSpace(t)
    ensures Words(p + [' '] + t) == Words(p) + [t]
    decreases |p|
  {
    var s := p + [' '] + t;
    if p == [] {
      assert s == [' '] + t && s[1..] == t;
      WordsOfWord(t);
    } else if IsAsciiSpace(p[0]) {
      assert s[1..] == p[1..] + [' '] + t;
      WordsAppendWord(p[1..], t);
    } else {
      assert s == p + ([' '] + t);
      WordPrefixBeforeSpace(p, [' '] + t);
      var w := WordPrefix(p);
      assert s[|w|..] == p[|w|..] + [' '] + t;
      WordsAppendWord(p[|w|..], t);
    }
  }

  /** The last word of `p + " " + t` is `t` whatever `p` is. */
  lemma LastWordAfterSpace(p: string, t: string)
    requires t != [] && NoAsciiSpace(t)
    ensures LastWord(p + [' '] + t) == Some(t)
  {
    WordsAppendWord(p, t);
  }

  // ---------------------------------------------------------------- join and decimals

  /** `parts.join(sep)`. */
  function Join(parts: seq<string>, sep: string): string {
    if parts == [] then ""
    else if |parts| == 1 then parts[0]
    else parts[0] + sep + Join(parts[1..], sep)
  }

  predicate IsDigit(c: char) {
    '0' <= c <= '9'
  }

  function DigitChar(d: nat): (c: char)
    requires d < 10
    ensures IsDigit(c)
  {
    (('0' as int) + d) as char
  }

  function DigitValue(c: char): (d: nat)
    requires IsDigit(c)
    ensures d < 10
  {
    (c as int) - ('0' as int)
  }

  /** Decimal digits of `n`, most significant first, without leading zeros. */
  function NatToString(n: nat): (s: string)
    ensures s != [] && forall i :: 0 <= i < |s| ==> IsDigit(s[i])
    ensures s[0] == '0' ==> n == 0
  {
    if n < 10 then [DigitChar(n)] else NatToString(n / 10) + [DigitChar(n % 10)]
  }

  /** `Integer#to_s`: the decimal rendering, with a leading '-' for negative numbers. */
  function IntToString(n: int): string {
    if n < 0 then "-" + NatToString(-n) else NatToString(n)
  }

  function DigitsValue(s: string): nat
    requires s != [] && forall i :: 0 <= i < |s| ==> IsDigit(s[i])
  {
    if |s| == 1 then DigitValue(s[0])
    else DigitsValue(s[..|s| - 1]) * 10 + DigitValue(s[|s| - 1])
  }

  /** Reads an optional '-' followed by one or more decimal digits. */
  function ParseInt(s: string): Option<int> {
    if s != [] && s[0] == '-' then
      var t := s[1..];
      if t != [] && forall i :: 0 <= i < |t| ==> IsDigit(t[i]) then Some(-(DigitsValue(t) as int)) else None
    else if s != [] && forall i :: 0 <= i < |s| ==> IsDigit(s[i]) then Some(DigitsValue(s) as int)
    else None
  }

  lemma {:induction false} DigitsRoundTrip(n: nat)
    ensures DigitsValue(NatToString(n)) == n
  {
    if n >= 10 {
      var s := NatToString(n);
      assert s[..|s| - 1] == NatToString(n / 10);
      DigitsRoundTrip(n / 10);
    }
  }

  /** Reading back the decimal rendering of an integer gives that integer. */
  lemma IntToStringRoundTrip(n: int)
    ensures ParseInt(IntToString(n)) == Some(n)
  {
    var s := IntToString(n);
    if n < 0 {
      assert s[1..] == NatToString(-n);
      DigitsRoundTrip(-n);
    } else {
      DigitsRoundTrip(n);
    }
  }
}
