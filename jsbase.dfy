/** Values and string helpers shared by every module: optional values, the
    outcome of a JavaScript call that may throw, bytes, and the number and
    character formatting that JavaScript's `toString`, `parseInt` and regular
    expression character classes perform. */
module JsBase {

  datatype Option<+T> = None | Some(value: T)

  /** The outcome of a JavaScript operation: it returned a value, or it threw
      (a `TypeError` from reading a property of `undefined`, for instance). */
  datatype Outcome<+T> = Normal(value: T) | Thrown

  /** An element of a `Uint8Array`. */
  type byte = b: int | 0 <= b < 256

  // ---------------------------------------------------------------------------
  // Number formatting: `n.toString(base)` for a non-negative integer.

  const HexDigits: string := "0123456789abcdef"

  function DigitChar(d: nat): (c: char)
    requires d < 16
    ensures DigitValue(c) == d
  {
    HexDigits[d]
  }

  /** The value of a digit character as `parseInt(_, 16)` reads it, case-insensitively;
      -1 for a character that is not a hexadecimal digit. */
  function DigitValue(c: char): (v: int)
    ensures -1 <= v < 16
    ensures v >= 0 <==> IsHexDigit(c)
  {
    if '0' <= c <= '9' then c as int - '0' as int
    else if 'a' <= c <= 'f' then c as int - 'a' as int + 10
    else if 'A' <= c <= 'F' then c as int - 'A' as int + 10
    else -1
  }

  predicate IsHexDigit(c: char) {
    '0' <= c <= '9' || 'a' <= c <= 'f' || 'A' <= c <= 'F'
  }

  predicate IsDecimalDigit(c: char) {
    '0' <= c <= '9'
  }

  /** Every character of `s` is a digit of the given base. */
  predicate Digits(s: string, base: nat) {
    forall i :: 0 <= i < |s| ==> 0 <= DigitValue(s[i]) < base
  }

  /** `n.toString(base)`: the shortest digit string, lower-case letters. */
  function ToBase(n: nat, base: nat): (r: string)
    requires 2 <= base <= 16
    ensures |r| >= 1 && Digits(r, base)
    decreases n
  {
    if n < base then [DigitChar(n)] else ToBase(n / base, base) + [DigitChar(n % base)]
  }

  /** Reads a digit string in the given base; the inverse of `ToBase`. */
  function ParseBase(s: string, base: nat): nat
    requires 2 <= base <= 16
    requires Digits(s, base)
  {
    if s == [] then 0
    else ParseBase(s[..|s| - 1], base) * base + DigitValue(s[|s| - 1])
  }

  function ToHex(n: nat): string { ToBase(n, 16) }

  function ToDecimal(n: nat): string { ToBase(n, 10) }

  lemma ParseSnoc(t: string, c: char, base: nat)
    requires 2 <= base <= 16
    requires Digits(t, base) && 0 <= DigitValue(c) < base
    ensures ParseBase(t + [c], base) == ParseBase(t, base) * base + DigitValue(c)
  {
    assert (t + [c])[..|t|] == t;
  }

  lemma DivMod(n: nat, base: nat)
    requires 2 <= base <= 16
    ensures (n / base) * base + n % base == n
    ensures n >= base ==> n / base < n
  {
  }

  /** Formatting a number and reading it back gives the number. */
  lemma {:induction false} ParseToBase(n: nat, base: nat)
    requires 2 <= base <= 16
    ensures ParseBase(ToBase(n, base), base) == n
  {
    if n < base {
      ParseSnoc([], DigitChar(n), base);
      assert [] + [DigitChar(n)] == ToBase(n, base);
    } else {
      var q, d := n / base, n % base;
      DivMod(n, base);
      var t := ToBase(q, base);
      assert ToBase(n, base) == t + [DigitChar(d)];
      ParseToBase(q, base);
      ParseSnoc(t, DigitChar(d), base);
      assert ParseBase(ToBase(n, base), base) == q * base + d;
    }
  }

  // ---------------------------------------------------------------------------
  // Strings.

  lemma Associative<T>(a: seq<T>, b: seq<T>, c: seq<T>)
    ensures a + b + c == a + (b + c)
  {
  }

  predicate StartsWith(s: string, prefix: string) {
    |prefix| <= |s| && s[..|prefix|] == prefix
  }

  predicate EndsWith(s: string, suffix: string) {
    |suffix| <= |s| && s[|s| - |suffix|..] == suffix
  }

  predicate OccursAt(s: string, p: string, i: nat) {
    i + |p| <= |s| && s[i..i + |p|] == p
  }

  /** `s.includes(p)`. */
  predicate Contains(s: string, p: string) {
    exists i: nat | i <= |s| :: OccursAt(s, p, i)
  }

  /** `s.indexOf(p)`: the first position at or after `from` where `p` occurs, or -1. */
  function IndexOf(s: string, p: string, from: nat): (r: int)
    ensures r == -1 || (from <= r && OccursAt(s, p, r))
    ensures r == -1 ==> forall i: nat :: from <= i ==> !OccursAt(s, p, i)
    ensures r >= 0 ==> forall i: nat :: from <= i < r ==> !OccursAt(s, p, i)
    decreases |s| - from
  {
    if from + |p| > |s| then -1
    else if s[from..from + |p|] == p then from
    else IndexOf(s, p, from + 1)
  }

  /** Character class `\s` of JavaScript regular expressions. */
  predicate IsRegexSpace(c: char) {
    c == ' ' || c == '\t' || c == '\n' || c == '\r' || c == '\U{000B}' || c == '\U{000C}'
    || c == '\U{00A0}' || c == '\U{1680}' || ('\U{2000}' <= c <= '\U{200A}')
    || c == '\U{2028}' || c == '\U{2029}' || c == '\U{202F}' || c == '\U{205F}'
    || c == '\U{3000}' || c == '\U{FEFF}'
  }

  /** Character class `\w` of JavaScript regular expressions (without the `u` flag). */
  predicate IsWordChar(c: char) {
    'a' <= c <= 'z' || 'A' <= c <= 'Z' || '0' <= c <= '9' || c == '_'
  }

  /** The characters JavaScript's `.` does not match. */
  predicate IsLineTerminator(c: char) {
    c == '\n' || c == '\r' || c == '\U{2028}' || c == '\U{2029}'
  }

  /** The length of the run of characters of `s` starting at `i` that satisfy `p`. */
  function RunLength(s: string, i: nat, p: char -> bool): (n: nat)
    requires i <= |s|
    ensures i + n <= |s|
    decreases |s| - i
  {
    if i < |s| && p(s[i]) then 1 + RunLength(s, i + 1, p) else 0
  }

  /** The run is the longest one: every character in it satisfies `p`, and the
      character after it, if any, does not. */
  lemma {:induction false} RunLengthMaximal(s: string, i: nat, p: char -> bool)
    requires i <= |s|
    ensures forall k :: i <= k < i + RunLength(s, i, p) ==> p(s[k])
    ensures i + RunLength(s, i, p) < |s| ==> !p(s[i + RunLength(s, i, p)])
    decreases |s| - i
  {
    if i < |s| && p(s[i]) {
      RunLengthMaximal(s, i + 1, p);
    }
  }
}
