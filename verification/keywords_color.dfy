/**
 * getContrastColor of the Keywords plugin: the text colour, black or
 * white, shown on a tag of a given background colour. The colour string
 * loses its first `#`; its characters 0-1, 2-3 and 4-5 are read with
 * `parseInt(…, 16)`; the colour is black when the weighted brightness
 * `(299 r + 587 g + 114 b) / 1000` exceeds 128. The three JavaScript
 * built-ins involved are written out: `String.prototype.replace` with a
 * string pattern, `String.prototype.substr` and `parseInt` with radix 16,
 * whose NaN is None here (every comparison with NaN is false).
 */
module KeywordsColor {
  import opened JsText
  import opened KeywordsScan

  /** `'#000'` and `'#fff'`. */
  const BLACK: JsString := [0x23, 0x30, 0x30, 0x30]
  const WHITE: JsString := [0x23, 0x66, 0x66, 0x66]

  predicate IsHexDigit(c: CodeUnit) {
    IsDigit(c) || 'a' as int <= c <= 'f' as int || 'A' as int <= c <= 'F' as int
  }

  function HexDigitValue(c: CodeUnit): (v: nat)
    requires IsHexDigit(c)
    ensures v < 16
  {
    if IsDigit(c) then c - '0' as int
    else if c >= 'a' as int then c - 'a' as int + 10
    else c - 'A' as int + 10
  }

  /** The value of a run of hex digits, most significant first. */
  function HexValue(s: JsString): nat
    requires forall k :: 0 <= k < |s| ==> IsHexDigit(s[k])
  {
    if s == [] then 0 else 16 * HexValue(s[..|s| - 1]) + HexDigitValue(s[|s| - 1])
  }

  /** Where the run of hex digits that starts at `i` ends. */
  function HexRunEnd(s: JsString, i: nat): (j: nat)
    requires i <= |s|
    ensures i <= j <= |s|
    ensures forall k :: i <= k < j ==> IsHexDigit(s[k])
    ensures j == |s| || !IsHexDigit(s[j])
    decreases |s| - i
  {
    if i < |s| && IsHexDigit(s[i]) then HexRunEnd(s, i + 1) else i
  }

  /**
   * `parseInt(s, 16)`: leading white space is skipped, one `-` or `+` is
   * read as the sign, a `0x` or `0X` after it is dropped, and the longest
   * run of hex digits that follows is the value; without one the result
   * is NaN (None).
   */
  function ParseInt16(s: JsString): Option<int> {
    var t := s[SkipSpaces(s, 0)..];
    var sign := if t != [] && t[0] == '-' as int then -1 else 1;
    var u := if t != [] && (t[0] == '-' as int || t[0] == '+' as int) then t[1..] else t;
    var v := if |u| >= 2 && u[0] == '0' as int && (u[1] == 'x' as int || u[1] == 'X' as int) then u[2..] else u;
    var e := HexRunEnd(v, 0);
    if e == 0 then None else Some(sign * HexValue(v[..e]))
  }

  /** `s.substr(start, len)` for a start and a length that are not negative: what there is of the `len` code units from `start`. */
  function Substr(s: JsString, start: nat, len: nat): (r: JsString)
    ensures |r| <= len
    ensures start + len <= |s| ==> r == s[start..start + len]
    ensures |s| <= start ==> r == []
  {
    if start >= |s| then [] else s[start..if start + len <= |s| then start + len else |s|]
  }

  /** `s.replace('#', '')`: the first `#` is removed, and nothing else. */
  function WithoutFirstHash(s: JsString): (r: JsString)
    ensures HASH !in s ==> r == s
    ensures s != [] && s[0] == HASH ==> r == s[1..]
  {
    var i := IndexOf(s, [HASH]);
    IndexOfFirst(s, [HASH]);
    if i < 0 then s
    else
      assert s[i..i + 1] == [HASH];
      assert s != [] && s[0] == HASH ==> s[0..1] == [HASH];
      s[..i] + s[i + 1..]
  }

  /** getContrastColor. */
  function GetContrastColor(hex: JsString): (c: JsString)
    ensures c == BLACK || c == WHITE
  {
    ContrastOfDigits(WithoutFirstHash(hex))
  }

  /** getContrastColor after its `replace`: the components read from characters 0-1, 2-3 and 4-5. */
  function ContrastOfDigits(h: JsString): (c: JsString)
    ensures c == BLACK || c == WHITE
  {
    var r := ParseInt16(Substr(h, 0, 2));
    var g := ParseInt16(Substr(h, 2, 2));
    var b := ParseInt16(Substr(h, 4, 2));
    if r.Some? && g.Some? && b.Some? && r.value * 299 + g.value * 587 + b.value * 114 > 128000 then BLACK else WHITE
  }

  // ---------------------------------------------------------------------
  // What it computes for well-formed colours
  // ---------------------------------------------------------------------

  predicate HexDigits(s: JsString) {
    forall k :: 0 <= k < |s| ==> IsHexDigit(s[k])
  }

  /** Two hex digits read as their value. */
  lemma ParsePair(d: JsString)
    requires |d| == 2 && HexDigits(d)
    ensures ParseInt16(d) == Some(16 * HexDigitValue(d[0]) + HexDigitValue(d[1]))
  {
    assert !IsSpace(d[0]) && d[0] != '-' as int && d[0] != '+' as int && d[1] != 'x' as int && d[1] != 'X' as int;
    assert SkipSpaces(d, 0) == 0;
    assert d[0..] == d;
    assert HexRunEnd(d, 0) == 2 by {
      assert HexRunEnd(d, 2) == 2;
    }
    assert HexValue(d[..2]) == 16 * HexDigitValue(d[0]) + HexDigitValue(d[1]) by {
      assert d[..2] == d && d[..1] == [d[0]] && [d[0]][..0] == [];
      assert HexValue([d[0]]) == HexDigitValue(d[0]);
    }
  }

  /** Characters `i` and `i + 1` of a colour, when both are hex digits, read as their value. */
  lemma Component(h: JsString, i: nat)
    requires i + 2 <= |h| && IsHexDigit(h[i]) && IsHexDigit(h[i + 1])
    ensures ParseInt16(Substr(h, i, 2)) == Some(16 * HexDigitValue(h[i]) + HexDigitValue(h[i + 1]))
  {
    ParsePair(h[i..i + 2]);
  }

  /** The lower-case hex digit of a value below 16. */
  function HexDigitChar(n: nat): (c: CodeUnit)
    requires n < 16
    ensures IsHexDigit(c) && HexDigitValue(c) == n
  {
    if n < 10 then '0' as int + n else 'a' as int + n - 10
  }

  /** A component written as `toString(16).padStart(2, "0")` writes it for a value below 256. */
  function HexPair(n: nat): (s: JsString)
    requires n < 256
  {
    [HexDigitChar(n / 16), HexDigitChar(n % 16)]
  }

  /** Reading a written component gives its value back. */
  lemma HexPairRoundTrip(n: nat)
    requires n < 256
    ensures ParseInt16(HexPair(n)) == Some(n)
  {
    ParsePair(HexPair(n));
  }

  /** The three components of six hex digits. */
  function Red(d: JsString): nat requires |d| == 6 && HexDigits(d) { 16 * HexDigitValue(d[0]) + HexDigitValue(d[1]) }
  function Green(d: JsString): nat requires |d| == 6 && HexDigits(d) { 16 * HexDigitValue(d[2]) + HexDigitValue(d[3]) }
  function Blue(d: JsString): nat requires |d| == 6 && HexDigits(d) { 16 * HexDigitValue(d[4]) + HexDigitValue(d[5]) }

  /**
   * For a colour of six hex digits, with or without its `#`, the text is
   * black exactly when 299 r + 587 g + 114 b exceeds 128000, and white
   * otherwise. (In the plugin the brightness is a double; the sum is an
   * integer below 256000, so dividing it by 1000 and comparing with 128
   * decides the same as comparing the sum with 128000.)
   */
  lemma ContrastOfHexColor(d: JsString)
    requires |d| == 6 && HexDigits(d)
    ensures GetContrastColor([HASH] + d) == GetContrastColor(d)
            == if 299 * Red(d) + 587 * Green(d) + 114 * Blue(d) > 128000 then BLACK else WHITE
  {
    HashIgnored(d);
    Component(d, 0);
    Component(d, 2);
    Component(d, 4);
  }

  /** Six hex digits hold no `#`, so the one in front is the one `replace` removes. */
  lemma HashIgnored(d: JsString)
    requires HexDigits(d)
    ensures WithoutFirstHash([HASH] + d) == d == WithoutFirstHash(d)
  {
    assert HASH !in d by {
      forall k | 0 <= k < |d|
        ensures d[k] != HASH
      {
        assert IsHexDigit(d[k]);
      }
    }
    assert ([HASH] + d)[1..] == d;
  }

  /**
   * A three-digit colour such as `#fff` has no blue component at
   * characters 4-5: `parseInt('', 16)` is NaN, so its text is always
   * white, whatever the colour.
   */
  lemma ShortColorIsWhite(d: JsString)
    requires |d| == 3 && HexDigits(d)
    ensures GetContrastColor([HASH] + d) == WHITE
  {
    assert ([HASH] + d)[1..] == d;
    assert Substr(d, 4, 2) == [];
    assert SkipSpaces([], 0) == 0;
    assert HexRunEnd([], 0) == 0;
  }
}
