/**
 * JavaScript strings as both plugins see them: sequences of UTF-16 code
 * units. Positions handed to and received from the editor (line positions,
 * highlight ranges, replaceRange) count code units, so every string of the
 * model is a sequence of code units, and the built-in string operations the
 * plugins use (trim, substring, indexOf, replace with a global pattern,
 * String(number)) are written out here with JavaScript's semantics.
 */
module JsText {

  datatype Option<+T> = None | Some(value: T)

  /** One UTF-16 code unit. */
  type CodeUnit = c: int | 0 <= c < 0x1_0000

  type JsString = seq<CodeUnit>

  /** The code units of a string literal of this model (all of them lie in the Basic Multilingual Plane). */
  function Str(s: string): (r: JsString)
    ensures |r| == |s|
  {
    seq(|s|, i requires 0 <= i < |s| => if s[i] as int < 0x1_0000 then s[i] as int else 0xFFFD)
  }

  /** `\s` and `String.prototype.trim`: the WhiteSpace and LineTerminator code points of ECMAScript. */
  predicate IsSpace(c: CodeUnit) {
    c == 0x09 || c == 0x0A || c == 0x0B || c == 0x0C || c == 0x0D || c == 0x20 || c == 0xA0
    || c == 0x1680 || (0x2000 <= c <= 0x200A) || c == 0x2028 || c == 0x2029 || c == 0x202F
    || c == 0x205F || c == 0x3000 || c == 0xFEFF
  }

  /** The code units that `.` in a regular expression does not match. */
  predicate IsLineTerminator(c: CodeUnit) {
    c == 0x0A || c == 0x0D || c == 0x2028 || c == 0x2029
  }

  predicate IsDigit(c: CodeUnit) { '0' as int <= c <= '9' as int }
  predicate IsUpper(c: CodeUnit) { 'A' as int <= c <= 'Z' as int }
  predicate IsLower(c: CodeUnit) { 'a' as int <= c <= 'z' as int }

  /** The characters `\w` and `\b` treat as word characters (no `u` flag). */
  predicate IsWordChar(c: CodeUnit) { IsDigit(c) || IsUpper(c) || IsLower(c) || c == '_' as int }

  function ToUpperAscii(c: CodeUnit): CodeUnit { if IsLower(c) then c - 32 else c }
  function ToLowerAscii(c: CodeUnit): CodeUnit { if IsUpper(c) then c + 32 else c }

  function UpperAscii(s: JsString): (r: JsString)
    ensures |r| == |s| && forall k :: 0 <= k < |s| ==> r[k] == ToUpperAscii(s[k])
  {
    seq(|s|, k requires 0 <= k < |s| => ToUpperAscii(s[k]))
  }

  function LowerAscii(s: JsString): (r: JsString)
    ensures |r| == |s| && forall k :: 0 <= k < |s| ==> r[k] == ToLowerAscii(s[k])
  {
    seq(|s|, k requires 0 <= k < |s| => ToLowerAscii(s[k]))
  }

  predicate StartsWith(s: JsString, p: JsString) { |p| <= |s| && s[..|p|] == p }

  /** `t` occurs in `s` at offset `k`. */
  predicate OccursAt(s: JsString, t: JsString, k: int) {
    0 <= k && k + |t| <= |s| && s[k..k + |t|] == t
  }

  predicate AllSpaces(s: JsString) { forall k :: 0 <= k < |s| ==> IsSpace(s[k]) }

  /** No value appears twice in the list. */
  predicate NoDuplicates<T(==)>(xs: seq<T>) {
    forall i, j :: 0 <= i < j < |xs| ==> xs[i] != xs[j]
  }

  // ---------------------------------------------------------------------
  // Whitespace runs and trim
  // ---------------------------------------------------------------------

  /** Where a greedy `\s*` starting at `i` stops. */
  function SkipSpaces(s: JsString, i: nat): (j: nat)
    requires i <= |s|
    ensures i <= j <= |s|
    ensures forall k :: i <= k < j ==> IsSpace(s[k])
    ensures j == |s| || !IsSpace(s[j])
    decreases |s| - i
  {
    if i < |s| && IsSpace(s[i]) then SkipSpaces(s, i + 1) else i
  }

  /** A run of spaces that ends at a non-space (or at the end) is exactly what SkipSpaces skips. */
  lemma SkipSpacesUnique(s: JsString, i: nat, j: nat)
    requires i <= j <= |s|
    requires forall k :: i <= k < j ==> IsSpace(s[k])
    requires j == |s| || !IsSpace(s[j])
    ensures SkipSpaces(s, i) == j
  {
  }

  /** The length of `s` without its trailing spaces. */
  function SpaceFreeEnd(s: JsString): (n: nat)
    ensures n <= |s|
    ensures forall k :: n <= k < |s| ==> IsSpace(s[k])
    ensures n == 0 || !IsSpace(s[n - 1])
  {
    if s == [] || !IsSpace(s[|s| - 1]) then |s| else SpaceFreeEnd(s[..|s| - 1])
  }

  /** `String.prototype.trim`. */
  function Trim(s: JsString): (r: JsString)
    ensures r == [] || (!IsSpace(r[0]) && !IsSpace(r[|r| - 1]))
    ensures |r| <= |s|
  {
    var a := SkipSpaces(s, 0);
    var b := SpaceFreeEnd(s);
    if b <= a then [] else s[a..b]
  }

  predicate IsTrimmed(s: JsString) { s == [] || (!IsSpace(s[0]) && !IsSpace(s[|s| - 1])) }

  /** Trimming removes exactly the leading and trailing spaces. */
  lemma TrimSplit(s: JsString)
    ensures exists a, b :: 0 <= a <= b <= |s| && Trim(s) == s[a..b]
                           && AllSpaces(s[..a]) && AllSpaces(s[b..])
  {
    var a := SkipSpaces(s, 0);
    var b := SpaceFreeEnd(s);
    if b <= a {
      assert AllSpaces(s[..|s|]);
      assert Trim(s) == s[|s|..|s|];
      assert s[..|s|] == s;
    } else {
      assert Trim(s) == s[a..b];
      assert AllSpaces(s[..a]) && AllSpaces(s[b..]);
    }
  }

  /** A string without surrounding spaces is its own trim. */
  lemma TrimOfTrimmed(s: JsString)
    requires IsTrimmed(s)
    ensures Trim(s) == s
  {
    if s != [] {
      SkipSpacesUnique(s, 0, 0);
      assert SpaceFreeEnd(s) == |s|;
      assert s[0..|s|] == s;
    }
  }

  lemma SpaceFreeEndUnique(t: JsString, n: nat)
    requires n <= |t|
    requires forall k :: n <= k < |t| ==> IsSpace(t[k])
    requires n == 0 || !IsSpace(t[n - 1])
    ensures SpaceFreeEnd(t) == n
    decreases |t|
  {
    if t != [] && IsSpace(t[|t| - 1]) {
      SpaceFreeEndUnique(t[..|t| - 1], n);
    }
  }

  // ---------------------------------------------------------------------
  // Numbers as decimal strings
  // ---------------------------------------------------------------------

  /** `String(n)` for a non-negative integer below 10^21 (the only numbers the plugins print). */
  function Decimal(n: nat): (r: JsString)
    ensures |r| >= 1
    ensures forall k :: 0 <= k < |r| ==> IsDigit(r[k])
    decreases n
  {
    if n < 10 then ['0' as int + n] else Decimal(n / 10) + ['0' as int + n % 10]
  }

  predicate AllDigits(s: JsString) { forall k :: 0 <= k < |s| ==> IsDigit(s[k]) }

  /** The value of a string of decimal digits. */
  function DigitsValue(s: JsString): nat
    requires AllDigits(s)
  {
    if s == [] then 0 else DigitsValue(s[..|s| - 1]) * 10 + (s[|s| - 1] - '0' as int)
  }

  /** Reading back a printed number gives the number. */
  lemma {:induction false} DecimalValue(n: nat)
    ensures DigitsValue(Decimal(n)) == n
    decreases n
  {
    if n >= 10 {
      DecimalValue(n / 10);
      var d := Decimal(n);
      assert d[..|d| - 1] == Decimal(n / 10);
    }
  }

  // ---------------------------------------------------------------------
  // substring, indexOf, global replace
  // ---------------------------------------------------------------------

  function Clamp(x: int, n: nat): (r: nat)
    ensures r <= n
  {
    if x < 0 then 0 else if x > n then n else x
  }

  /** `s.substring(a, b)`: both ends clamped to the string, swapped when a > b. */
  function Substring(s: JsString, a: int, b: int): (r: JsString)
    ensures |r| <= |s|
    ensures 0 <= a <= b <= |s| ==> r == s[a..b]
  {
    var x, y := Clamp(a, |s|), Clamp(b, |s|);
    if x <= y then s[x..y] else s[y..x]
  }

  /** `s.indexOf(t)`: the first offset at which `t` occurs, or -1 (IndexOfFirst). */
  function IndexOf(s: JsString, t: JsString): (r: int)
    ensures -1 <= r && (r >= 0 ==> OccursAt(s, t, r))
  {
    IndexFrom(s, t, 0)
  }

  function IndexFrom(s: JsString, t: JsString, i: nat): (r: int)
    ensures r == -1 || (i <= r && OccursAt(s, t, r))
    decreases |s| - i
  {
    if i + |t| > |s| then -1
    else if s[i..i + |t|] == t then i
    else IndexFrom(s, t, i + 1)
  }

  /** The search from `i` finds the first occurrence at `i` or later, and -1 only when there is none. */
  lemma {:induction false} IndexFromFirst(s: JsString, t: JsString, i: nat)
    ensures IndexFrom(s, t, i) >= 0 ==> forall k :: i <= k < IndexFrom(s, t, i) ==> !OccursAt(s, t, k)
    ensures IndexFrom(s, t, i) == -1 ==> forall k :: i <= k ==> !OccursAt(s, t, k)
    decreases |s| - i
  {
    if i + |t| <= |s| && s[i..i + |t|] != t {
      IndexFromFirst(s, t, i + 1);
    }
  }

  /** `indexOf` finds the first occurrence, and -1 only when `t` does not occur. */
  lemma IndexOfFirst(s: JsString, t: JsString)
    ensures IndexOf(s, t) >= 0 ==> OccursAt(s, t, IndexOf(s, t)) && forall k :: 0 <= k < IndexOf(s, t) ==> !OccursAt(s, t, k)
    ensures IndexOf(s, t) == -1 ==> forall k :: 0 <= k ==> !OccursAt(s, t, k)
  {
    IndexFromFirst(s, t, 0);
  }

  /** `s.replace(/c/g, r)` for a single code unit `c` and a replacement without `$` patterns. */
  function ReplaceAll(s: JsString, c: CodeUnit, r: JsString): (t: JsString)
    ensures c !in s ==> t == s
    ensures c !in r ==> c !in t
  {
    if s == [] then []
    else
      assert s == [s[0]] + s[1..];
      (if s[0] == c then r else [s[0]]) + ReplaceAll(s[1..], c, r)
  }

  /** A global replace works on each part of a string on its own. */
  lemma {:induction false} ReplaceAllAppend(s: JsString, t: JsString, c: CodeUnit, r: JsString)
    ensures ReplaceAll(s + t, c, r) == ReplaceAll(s, c, r) + ReplaceAll(t, c, r)
  {
    if s != [] {
      var u := s[1..];
      var h := if s[0] == c then r else [s[0]];
      assert (s + t)[0] == s[0];
      assert (s + t)[1..] == u + t;
      ReplaceAllAppend(u, t, c, r);
      assert ReplaceAll(s + t, c, r) == h + (ReplaceAll(u, c, r) + ReplaceAll(t, c, r));
      assert ReplaceAll(s, c, r) == h + ReplaceAll(u, c, r);
    } else {
      assert s + t == t;
    }
  }

}
