/**
 * The cue line grammar of the cue manager (QMan.js): the two regular
 * expressions
 *
 *   bare:    ^(!?)([A-Z][A-Z0-9]*)\s*(?:\((?:cue\s+)?(\d+)\))?\s*:\s*(.*)$
 *   wrapped: ^\[\[\s*(!?)([A-Z][A-Z0-9]*)\s*(?:\((?:cue\s+)?(\d+)\))?\s*:\s*(.*)\s*\]\]$
 *
 * written out as deterministic matchers, and the line rewrites built on
 * them (renumbering, wrapping in `[[ ]]`, unwrapping).
 *
 * Each matcher returns the match the backtracking engine finds first:
 * - the type run, the digit run and the `\s+` after `cue` are maximal,
 *   because giving a character back leaves a letter, digit or space where
 *   the pattern needs `(`, `)`, `:` or a digit;
 * - the optional number group is taken whenever it is complete, since
 *   skipping it leaves `(` where `:` is needed;
 * - after the colon, `\s*` is greedy and `(.*)` runs to the end, so the bare
 *   form fails exactly when a line terminator follows; in the wrapped form
 *   `(.*)` stops at the first line terminator and the match survives only
 *   if everything from there to the closing `]]` is white space.
 *
 * The matchers consume the line from the front: every stage takes the text
 * still unread and hands on what it leaves.
 */
module QManGrammar {
  import opened JsText

  /** What the patterns capture: the `!` prefix, the type, the number digits and the text after the colon. */
  datatype CueMatch = CueMatch(bang: bool, ctype: JsString, number: Option<JsString>, desc: JsString)

  /** The part of a cue line up to its text. */
  datatype Head = Head(bang: bool, ctype: JsString, number: Option<JsString>)

  const BANG: CodeUnit := '!' as int
  const COLON: CodeUnit := ':' as int
  const LPAREN: CodeUnit := '(' as int
  const RPAREN: CodeUnit := ')' as int
  const LBRACKET: CodeUnit := '[' as int
  const RBRACKET: CodeUnit := ']' as int
  const SPACE: CodeUnit := ' ' as int
  const OPEN: JsString := [LBRACKET, LBRACKET]
  const CLOSE: JsString := [RBRACKET, RBRACKET]

  predicate IsTypeTail(c: CodeUnit) { IsUpper(c) || IsDigit(c) }

  /** `[A-Z][A-Z0-9]*`. */
  predicate IsCueType(t: JsString) {
    |t| >= 1 && IsUpper(t[0]) && forall k :: 1 <= k < |t| ==> IsTypeTail(t[k])
  }

  predicate NoTerminator(s: JsString) { forall k :: 0 <= k < |s| ==> !IsLineTerminator(s[k]) }

  /** Where a maximal `[A-Z0-9]*` run starting at `i` ends. */
  function TypeRunEnd(s: JsString, i: nat): (j: nat)
    requires i <= |s|
    ensures i <= j <= |s|
    ensures forall k :: i <= k < j ==> IsTypeTail(s[k])
    ensures j == |s| || !IsTypeTail(s[j])
    decreases |s| - i
  {
    if i < |s| && IsTypeTail(s[i]) then TypeRunEnd(s, i + 1) else i
  }

  /** Where a maximal `\d*` run starting at `i` ends. */
  function DigitRunEnd(s: JsString, i: nat): (j: nat)
    requires i <= |s|
    ensures i <= j <= |s|
    ensures forall k :: i <= k < j ==> IsDigit(s[k])
    ensures j == |s| || !IsDigit(s[j])
    decreases |s| - i
  {
    if i < |s| && IsDigit(s[i]) then DigitRunEnd(s, i + 1) else i
  }

  /** The first line terminator at or after `i`, or the end. */
  function TerminatorFrom(s: JsString, i: nat): (j: nat)
    requires i <= |s|
    ensures i <= j <= |s|
    ensures forall k :: i <= k < j ==> !IsLineTerminator(s[k])
    ensures j == |s| || IsLineTerminator(s[j])
    decreases |s| - i
  {
    if i < |s| && !IsLineTerminator(s[i]) then TerminatorFrom(s, i + 1) else i
  }

  /** What a greedy `\s*` leaves (the text itself when it does not start with a space). */
  function Spaces(s: JsString): (r: JsString)
    ensures |r| <= |s|
    ensures r == [] || !IsSpace(r[0])
  {
    if s != [] && IsSpace(s[0]) then s[SkipSpaces(s, 1)..] else s
  }

  /** `(?:cue\s+)?`: what is left once the optional word `cue` and its spaces are taken. */
  function CueWord(s: JsString): (r: JsString)
    ensures |r| <= |s|
  {
    if |s| > 3 && s[0] == 'c' as int && s[1] == 'u' as int && s[2] == 'e' as int && IsSpace(s[3])
    then Spaces(s[3..]) else s
  }

  /** `(\d+)\)`: the digits and what follows `)`. */
  function DigitsClose(s: JsString): (r: Option<(JsString, JsString)>)
    ensures r.Some? ==> |r.value.0| >= 1 && AllDigits(r.value.0) && |r.value.1| < |s|
  {
    var d := DigitRunEnd(s, 0);
    if 0 < d < |s| && s[d] == RPAREN then Some((s[..d], s[d + 1..])) else None
  }

  /** `\((?:cue\s+)?(\d+)\)` at the front of `s`: the digits and what follows `)`. */
  function CueGroup(s: JsString): (r: Option<(JsString, JsString)>)
    ensures r.Some? ==> |r.value.0| >= 1 && AllDigits(r.value.0) && |r.value.1| < |s|
  {
    if s != [] && s[0] == LPAREN then DigitsClose(CueWord(s[1..])) else None
  }

  /** `\s*(?:\((?:cue\s+)?(\d+)\))?\s*:\s*` after the type: the number and the text left. */
  function AfterType(s: JsString): (r: Option<(Option<JsString>, JsString)>)
    ensures r.Some? ==> |r.value.1| < |s|
    ensures r.Some? ==> r.value.1 == [] || !IsSpace(r.value.1[0])
    ensures r.Some? && r.value.0.Some? ==> |r.value.0.value| >= 1 && AllDigits(r.value.0.value)
  {
    var s3 := Spaces(s);
    var g := CueGroup(s3);
    var s4 := if g.Some? then Spaces(g.value.1) else s3;
    if s4 != [] && s4[0] == COLON then
      Some((if g.Some? then Some(g.value.0) else None, Spaces(s4[1..])))
    else None
  }

  /** `([A-Z][A-Z0-9]*)` and the rest of the head at the front of `s`: the type, the number and the text left. */
  function TypedHead(s: JsString): (r: Option<(JsString, Option<JsString>, JsString)>)
    ensures r.Some? ==> IsCueType(r.value.0)
    ensures r.Some? ==> |r.value.2| < |s|
    ensures r.Some? ==> r.value.2 == [] || !IsSpace(r.value.2[0])
    ensures r.Some? && r.value.1.Some? ==> |r.value.1.value| >= 1 && AllDigits(r.value.1.value)
  {
    if s != [] && IsUpper(s[0]) then
      var k := TypeRunEnd(s, 1);
      match AfterType(s[k..])
      case None => None
      case Some((number, rest)) => Some((s[..k], number, rest))
    else None
  }

  /** `(!?)([A-Z][A-Z0-9]*)\s*(?:\((?:cue\s+)?(\d+)\))?\s*:\s*` at the front of `s`, and the text left. */
  function MatchHead(s: JsString): (r: Option<(Head, JsString)>)
    ensures r.Some? ==> s != [] && (s[0] == BANG || IsUpper(s[0]))
    ensures r.Some? ==> IsCueType(r.value.0.ctype)
    ensures r.Some? ==> |r.value.1| < |s|
    ensures r.Some? ==> r.value.1 == [] || !IsSpace(r.value.1[0])
    ensures r.Some? && r.value.0.number.Some? ==> |r.value.0.number.value| >= 1 && AllDigits(r.value.0.number.value)
  {
    var bang := s != [] && s[0] == BANG;
    match TypedHead(if bang then s[1..] else s)
    case None => None
    case Some((t, number, rest)) => Some((Head(bang, t, number), rest))
  }

  /** The bare pattern on a whole line. */
  function MatchBare(s: JsString): (r: Option<CueMatch>)
    ensures r.Some? ==> IsCueType(r.value.ctype) && NoTerminator(r.value.desc)
    ensures r.Some? ==> r.value.desc == [] || !IsSpace(r.value.desc[0])
    ensures r.Some? ==> |r.value.desc| < |s|
  {
    match MatchHead(s)
    case None => None
    case Some((h, rest)) =>
      if TerminatorFrom(rest, 0) == |rest| then Some(CueMatch(h.bang, h.ctype, h.number, rest)) else None
  }

  /**
   * `(.*)\s*\]\]$` on the text after the head of a wrapped line (which ends
   * with `]]`): the captured text.
   */
  function NoteText(rest: JsString): (r: Option<JsString>)
    ensures r.Some? ==> NoTerminator(r.value) && |r.value| <= |rest| - 2
    ensures r.Some? ==> r.value == rest[..|r.value|]
  {
    var e := TerminatorFrom(rest, 0);
    if |rest| < 2 then None
    else if e == |rest| then Some(rest[..|rest| - 2])
    else if e <= |rest| - 2 && AllSpaces(rest[e..|rest| - 2]) then Some(rest[..e])
    else None
  }

  /** `^\[\[` and `\]\]$`: the line starts with `[[` and ends with `]]`, the two pairs apart. */
  predicate Framed(s: JsString) {
    |s| >= 4 && s[0] == LBRACKET && s[1] == LBRACKET && s[|s| - 2] == RBRACKET && s[|s| - 1] == RBRACKET
  }

  /** The wrapped pattern on a whole line. */
  function MatchNote(s: JsString): (r: Option<CueMatch>)
    ensures r.Some? ==> IsCueType(r.value.ctype) && NoTerminator(r.value.desc)
    ensures r.Some? ==> r.value.desc == [] || !IsSpace(r.value.desc[0])
    ensures r.Some? ==> Framed(s)
  {
    if Framed(s) then
      match MatchHead(Spaces(s[2..]))
      case None => None
      case Some((h, rest)) =>
        match NoteText(rest)
        case None => None
        case Some(desc) => Some(CueMatch(h.bang, h.ctype, h.number, desc))
    else None
  }

  /** A line is a cue when the bare pattern matches, or else the wrapped one; the flag says which. */
  function ParseCueLine(s: JsString): (r: Option<(CueMatch, bool)>)
    ensures r.Some? ==> IsCueType(r.value.0.ctype) && NoTerminator(r.value.0.desc)
  {
    match MatchBare(s)
    case Some(m) => Some((m, false))
    case None =>
      match MatchNote(s)
      case Some(m) => Some((m, true))
      case None => None
  }

  /** A head never starts with `[`. */
  lemma HeadNotAtBracket(s: JsString)
    requires s != [] && s[0] == LBRACKET
    ensures MatchHead(s).None?
  {
  }

  /** The two patterns never both match: the bare one cannot start with `[`. */
  lemma BareAndWrappedExclusive(s: JsString)
    ensures !(MatchBare(s).Some? && MatchNote(s).Some?)
  {
    if MatchNote(s).Some? {
      HeadNotAtBracket(s);
    }
  }

  /**
   * The type check of the scan and of the wrap loop (the type equals its
   * upper-case form and has no lower-case letter) always passes on a
   * matched type.
   */
  lemma MatchedTypeIsUpper(t: JsString)
    requires IsCueType(t)
    ensures UpperAscii(t) == t
    ensures forall k :: 0 <= k < |t| ==> !IsLower(t[k])
  {
    assert forall k :: 0 <= k < |t| ==> IsTypeTail(t[k]);
  }

  // ---------------------------------------------------------------------
  // Rewrites
  // ---------------------------------------------------------------------

  const CUE_WORD: JsString := ['c' as int, 'u' as int, 'e' as int, SPACE]

  /** `" (cue " + digits + "): " + tail`. */
  function NumberText(digits: JsString, tail: JsString): JsString {
    [SPACE] + ([LPAREN] + (CUE_WORD + (digits + ([RPAREN] + ([COLON] + ([SPACE] + tail))))))
  }

  /** `forceAction + cueType + " (cue " + digits + "): " + tail`. */
  function CueLine(bang: bool, t: JsString, digits: JsString, tail: JsString): (r: JsString)
    ensures r == CuePrefix(bang, t, digits) + tail
  {
    var r := (if bang then [BANG] else []) + (t + NumberText(digits, tail));
    assert r == CuePrefix(bang, t, digits) + tail;
    r
  }

  /** Everything of a renumbered line before its text. */
  function CuePrefix(bang: bool, t: JsString, digits: JsString): JsString {
    (if bang then [BANG] else []) + t + [SPACE, LPAREN] + CUE_WORD + digits + [RPAREN, COLON, SPACE]
  }

  /** The line the renumbering writes for a cue that matched as `m` (wrapped or not), numbered `n`. */
  function RenumberLine(m: CueMatch, wrapped: bool, n: nat): (r: JsString)
    ensures wrapped ==> |r| >= 4 && r[..2] == OPEN && r[|r| - 2..] == CLOSE
  {
    if wrapped then OPEN + CueLine(m.bang, m.ctype, Decimal(n), m.desc + CLOSE)
    else CueLine(m.bang, m.ctype, Decimal(n), m.desc)
  }

  /** `"[[" + lineString + "]]"`. */
  function Wrap(s: JsString): (r: JsString)
    ensures |r| == |s| + 4 && IsTrimmed(r)
  {
    OPEN + s + CLOSE
  }

  /** `lineString.substring(2, lineString.length - 2).trim()`. */
  function Unwrap(s: JsString): (r: JsString)
    ensures IsTrimmed(r) && (|s| >= 4 ==> |r| <= |s| - 4)
  {
    Trim(Substring(s, 2, |s| - 2))
  }

  /** Unwrapping a wrapped line gives back the line. */
  lemma UnwrapWrap(s: JsString)
    requires IsTrimmed(s)
    ensures Unwrap(Wrap(s)) == s
  {
    assert Substring(Wrap(s), 2, |Wrap(s)| - 2) == s;
    TrimOfTrimmed(s);
  }

  // ---------------------------------------------------------------------
  // Re-parsing a rewritten line
  // ---------------------------------------------------------------------

  lemma SpacesNone(s: JsString)
    requires s == [] || !IsSpace(s[0])
    ensures Spaces(s) == s
  {
  }

  lemma SpacesOne(c: CodeUnit, s: JsString)
    requires IsSpace(c) && (s == [] || !IsSpace(s[0]))
    ensures Spaces([c] + s) == s
  {
    SkipSpacesUnique([c] + s, 1, 1);
  }

  lemma TypeRunEndUnique(s: JsString, i: nat, j: nat)
    requires i <= j <= |s|
    requires forall k :: i <= k < j ==> IsTypeTail(s[k])
    requires j == |s| || !IsTypeTail(s[j])
    ensures TypeRunEnd(s, i) == j
    decreases j - i
  {
    if i < j {
      TypeRunEndUnique(s, i + 1, j);
    }
  }

  lemma DigitRunEndUnique(s: JsString, i: nat, j: nat)
    requires i <= j <= |s|
    requires forall k :: i <= k < j ==> IsDigit(s[k])
    requires j == |s| || !IsDigit(s[j])
    ensures DigitRunEnd(s, i) == j
    decreases j - i
  {
    if i < j {
      DigitRunEndUnique(s, i + 1, j);
    }
  }

  lemma TerminatorFromUnique(s: JsString, i: nat, j: nat)
    requires i <= j <= |s|
    requires forall k :: i <= k < j ==> !IsLineTerminator(s[k])
    requires j == |s| || IsLineTerminator(s[j])
    ensures TerminatorFrom(s, i) == j
    decreases j - i
  {
    if i < j {
      TerminatorFromUnique(s, i + 1, j);
    }
  }

  lemma CueWordParses(rest: JsString)
    requires rest == [] || !IsSpace(rest[0])
    ensures CueWord(CUE_WORD + rest) == rest
  {
    assert (CUE_WORD + rest)[3..] == [SPACE] + rest;
    SpacesOne(SPACE, rest);
  }

  lemma DigitsCloseParses(digits: JsString, tail: JsString)
    requires |digits| >= 1 && AllDigits(digits)
    ensures DigitsClose(digits + ([RPAREN] + tail)) == Some((digits, tail))
  {
    var s := digits + ([RPAREN] + tail);
    DigitRunEndUnique(s, 0, |digits|);
    assert s[..|digits|] == digits;
    assert s[|digits| + 1..] == tail;
  }

  /** The number group as the renumbering writes it. */
  lemma {:induction false} GroupParses(digits: JsString, tail: JsString)
    requires |digits| >= 1 && AllDigits(digits)
    ensures CueGroup([LPAREN] + (CUE_WORD + (digits + ([RPAREN] + tail)))) == Some((digits, tail))
  {
    var rest := digits + ([RPAREN] + tail);
    assert ([LPAREN] + (CUE_WORD + rest))[1..] == CUE_WORD + rest;
    CueWordParses(rest);
    DigitsCloseParses(digits, tail);
  }

  /** Everything between the type and the text, as the renumbering writes it. */
  lemma {:induction false} AfterTypeParses(digits: JsString, tail: JsString)
    requires |digits| >= 1 && AllDigits(digits)
    requires tail == [] || !IsSpace(tail[0])
    ensures AfterType(NumberText(digits, tail)) == Some((Some(digits), tail))
  {
    var after := [COLON] + ([SPACE] + tail);
    var group := [LPAREN] + (CUE_WORD + (digits + ([RPAREN] + after)));
    SpacesOne(SPACE, group);
    GroupParses(digits, after);
    SpacesNone(after);
    assert after[1..] == [SPACE] + tail;
    SpacesOne(SPACE, tail);
  }

  lemma {:induction false} TypedParses(t: JsString, digits: JsString, tail: JsString)
    requires IsCueType(t) && |digits| >= 1 && AllDigits(digits)
    requires tail == [] || !IsSpace(tail[0])
    ensures TypedHead(t + NumberText(digits, tail)) == Some((t, Some(digits), tail))
  {
    var x2 := NumberText(digits, tail);
    var s := t + x2;
    assert s[0] == t[0];
    assert forall k :: 1 <= k < |t| ==> s[k] == t[k];
    TypeRunEndUnique(s, 1, |t|);
    assert s[..|t|] == t && s[|t|..] == x2;
    AfterTypeParses(digits, tail);
  }

  /** A line written by the renumbering matches the head pattern, leaving exactly its text. */
  lemma {:induction false} CueLineParses(bang: bool, t: JsString, digits: JsString, tail: JsString)
    requires IsCueType(t) && |digits| >= 1 && AllDigits(digits)
    requires tail == [] || !IsSpace(tail[0])
    ensures MatchHead(CueLine(bang, t, digits, tail)) == Some((Head(bang, t, Some(digits)), tail))
  {
    var s1 := t + NumberText(digits, tail);
    var s := CueLine(bang, t, digits, tail);
    if bang {
      assert s == [BANG] + s1;
      assert s[1..] == s1;
    } else {
      assert s == s1;
      assert s[0] != BANG;
    }
    TypedParses(t, digits, tail);
  }

  lemma NoteTextOf(desc: JsString)
    requires NoTerminator(desc)
    ensures NoteText(desc + CLOSE) == Some(desc)
  {
    var rest := desc + CLOSE;
    TerminatorFromUnique(rest, 0, |rest|);
    assert rest[..|rest| - 2] == desc;
  }

  lemma MatchNoteOf(x: JsString, inner: JsString, h: Head, rest: JsString, desc: JsString)
    requires Framed(x) && Spaces(x[2..]) == inner
    requires MatchHead(inner) == Some((h, rest)) && NoteText(rest) == Some(desc)
    ensures MatchNote(x) == Some(CueMatch(h.bang, h.ctype, h.number, desc))
  {
  }

  /** The text a renumbered line ends with can be extended: the line grows by the same text. */
  lemma CueLineAppend(bang: bool, t: JsString, digits: JsString, tail: JsString, q: JsString)
    ensures CueLine(bang, t, digits, tail + q) == CueLine(bang, t, digits, tail) + q
  {
    var p := CuePrefix(bang, t, digits);
    assert p + (tail + q) == p + tail + q;
  }

  /** A renumbered wrapped line is the renumbered bare line, wrapped. */
  lemma RenumberWrapped(m: CueMatch, n: nat)
    ensures RenumberLine(m, true, n) == Wrap(CueLine(m.bang, m.ctype, Decimal(n), m.desc))
  {
    CueLineAppend(m.bang, m.ctype, Decimal(n), m.desc, CLOSE);
  }

  /** A bare line written by the renumbering matches the bare pattern with its text. */
  lemma BareCueLineParses(bang: bool, t: JsString, digits: JsString, desc: JsString)
    requires IsCueType(t) && |digits| >= 1 && AllDigits(digits)
    requires NoTerminator(desc) && (desc == [] || !IsSpace(desc[0]))
    ensures MatchBare(CueLine(bang, t, digits, desc)) == Some(CueMatch(bang, t, Some(digits), desc))
  {
    CueLineParses(bang, t, digits, desc);
    TerminatorFromUnique(desc, 0, |desc|);
  }

  /** Renumbering rewrites only the number: the new line parses back, in the same form, with the new number. */
  lemma {:induction false} RenumberReparse(m: CueMatch, wrapped: bool, n: nat)
    requires IsCueType(m.ctype) && NoTerminator(m.desc)
    requires m.desc == [] || !IsSpace(m.desc[0])
    ensures ParseCueLine(RenumberLine(m, wrapped, n)) == Some((m.(number := Some(Decimal(n))), wrapped))
  {
    var d := Decimal(n);
    BareCueLineParses(m.bang, m.ctype, d, m.desc);
    if wrapped {
      RenumberWrapped(m, n);
      WrapReparse(CueLine(m.bang, m.ctype, d, m.desc));
    }
  }

  // ---------------------------------------------------------------------
  // Re-parsing a wrapped line
  // ---------------------------------------------------------------------

  /** Text appended after a `\s*` run that stops before the end (or does not start with a space) is left over. */
  lemma SpacesAppend(s: JsString, q: JsString)
    requires Spaces(s) != [] || q == [] || !IsSpace(q[0])
    ensures Spaces(s + q) == Spaces(s) + q
  {
    if s != [] && IsSpace(s[0]) {
      var j := SkipSpaces(s, 1);
      assert forall k :: 0 <= k < j ==> (s + q)[k] == s[k];
      if j < |s| {
        assert (s + q)[j] == s[j];
      } else if q != [] {
        assert (s + q)[j] == q[0];
      }
      SkipSpacesUnique(s + q, 1, j);
      assert (s + q)[j..] == s[j..] + q;
    } else if s != [] {
      assert (s + q)[0] == s[0];
    } else {
      assert s + q == q;
    }
  }

  lemma DigitsCloseAppend(s: JsString, q: JsString)
    requires DigitsClose(s).Some?
    ensures DigitsClose(s + q) == Some((DigitsClose(s).value.0, DigitsClose(s).value.1 + q))
  {
    var d := DigitRunEnd(s, 0);
    assert forall k :: 0 <= k <= d ==> (s + q)[k] == s[k];
    DigitRunEndUnique(s + q, 0, d);
    assert (s + q)[..d] == s[..d];
    assert (s + q)[d + 1..] == s[d + 1..] + q;
  }

  lemma {:induction false} CueGroupAppend(s: JsString, q: JsString)
    requires CueGroup(s).Some?
    ensures CueGroup(s + q) == Some((CueGroup(s).value.0, CueGroup(s).value.1 + q))
  {
    var u := s[1..];
    assert (s + q)[0] == LPAREN;
    assert (s + q)[1..] == u + q;
    var w := CueWord(u);
    if |u| > 3 && u[0] == 'c' as int && u[1] == 'u' as int && u[2] == 'e' as int && IsSpace(u[3]) {
      assert (u + q)[..4] == u[..4];
      assert (u + q)[3..] == u[3..] + q;
      SpacesAppend(u[3..], q);
    } else if |u| > 3 {
      assert (u + q)[..4] == u[..4];
    } else {
      assert IsDigit(w[0]);
    }
    assert CueWord(u + q) == w + q;
    DigitsCloseAppend(w, q);
  }

  /** What follows the optional number group, for `s + q`. */
  lemma BeforeColonAppend(s: JsString, q: JsString)
    requires AfterType(s).Some?
    ensures CueGroup(Spaces(s + q)) == (if CueGroup(Spaces(s)).Some? then
              Some((CueGroup(Spaces(s)).value.0, CueGroup(Spaces(s)).value.1 + q)) else None)
  {
    var s3 := Spaces(s);
    assert s3 != [];
    SpacesAppend(s, q);
    if CueGroup(s3).Some? {
      CueGroupAppend(s3, q);
    } else {
      assert (s3 + q)[0] == s3[0] == COLON;
    }
  }

  lemma AfterColonAppend(s4: JsString, q: JsString)
    requires s4 != [] && s4[0] == COLON
    requires q == [] || !IsSpace(q[0])
    ensures (s4 + q)[0] == COLON && Spaces((s4 + q)[1..]) == Spaces(s4[1..]) + q
  {
    assert (s4 + q)[1..] == s4[1..] + q;
    SpacesAppend(s4[1..], q);
  }

  lemma {:induction false} AfterTypeAppend(s: JsString, q: JsString)
    requires AfterType(s).Some?
    requires q == [] || !IsSpace(q[0])
    ensures AfterType(s + q) == Some((AfterType(s).value.0, AfterType(s).value.1 + q))
  {
    var s3 := Spaces(s);
    var g := CueGroup(s3);
    var s4 := if g.Some? then Spaces(g.value.1) else s3;
    assert Spaces(s + q) == s3 + q by {
      assert s3 != [];
      SpacesAppend(s, q);
    }
    BeforeColonAppend(s, q);
    var s4' := if g.Some? then Spaces(g.value.1 + q) else s3 + q;
    assert s4' == s4 + q by {
      if g.Some? {
        SpacesAppend(g.value.1, q);
      }
    }
    AfterColonAppend(s4, q);
    AfterTypeOf(s + q, s4 + q);
  }

  /** AfterType, read off from where its colon is. */
  lemma AfterTypeOf(x: JsString, s4: JsString)
    requires s4 == (if CueGroup(Spaces(x)).Some? then Spaces(CueGroup(Spaces(x)).value.1) else Spaces(x))
    requires s4 != [] && s4[0] == COLON
    ensures AfterType(x) == Some((if CueGroup(Spaces(x)).Some? then Some(CueGroup(Spaces(x)).value.0) else None,
                                  Spaces(s4[1..])))
  {
  }

  lemma {:induction false} TypedHeadAppend(s: JsString, q: JsString)
    requires TypedHead(s).Some?
    requires q == [] || !IsSpace(q[0])
    ensures TypedHead(s + q) == Some((TypedHead(s).value.0, TypedHead(s).value.1, TypedHead(s).value.2 + q))
  {
    var k := TypeRunEnd(s, 1);
    assert AfterType(s[k..]).Some?;
    TypeRunAppend(s, q, 1);
    SliceAppend(s, q, k);
    assert (s + q)[0] == s[0];
    AfterTypeAppend(s[k..], q);
  }

  /** The type run of `s + q` is that of `s` when the run stops inside `s`. */
  lemma TypeRunAppend(s: JsString, q: JsString, i: nat)
    requires i <= |s| && TypeRunEnd(s, i) < |s|
    ensures TypeRunEnd(s + q, i) == TypeRunEnd(s, i)
    decreases |s| - i
  {
    assert (s + q)[i] == s[i];
    if IsTypeTail(s[i]) {
      TypeRunAppend(s, q, i + 1);
    }
  }

  /** Cutting `s + q` inside `s`. */
  lemma SliceAppend(s: JsString, q: JsString, k: nat)
    requires k <= |s|
    ensures (s + q)[..k] == s[..k] && (s + q)[k..] == s[k..] + q
  {
  }

  /** Text appended after a matched head (not starting with a space) is added to the text the head leaves. */
  lemma {:induction false} MatchHeadAppend(s: JsString, q: JsString)
    requires MatchHead(s).Some?
    requires q == [] || !IsSpace(q[0])
    ensures MatchHead(s + q) == Some((MatchHead(s).value.0, MatchHead(s).value.1 + q))
  {
    assert (s + q)[0] == s[0];
    if s[0] == BANG {
      SliceAppend(s, q, 1);
      TypedHeadAppend(s[1..], q);
    } else {
      TypedHeadAppend(s, q);
    }
  }

  /** Where the brackets of a wrapped line are. */
  lemma WrapFrame(s: JsString)
    ensures var x := Wrap(s);
      Framed(x) && x[2..] == s + CLOSE
  {
    var x := Wrap(s);
    assert x == OPEN + (s + CLOSE);
  }

  /** Wrapping a bare cue line gives a line that matches the wrapped pattern with the same captures. */
  lemma {:induction false} WrapReparse(s: JsString)
    requires MatchBare(s).Some?
    ensures ParseCueLine(Wrap(s)) == Some((MatchBare(s).value, true))
  {
    var m := MatchBare(s).value;
    var h := MatchHead(s).value.0;
    var rest := MatchHead(s).value.1;
    assert rest == m.desc;
    var inner := s + CLOSE;
    var x := Wrap(s);
    WrapFrame(s);
    HeadNotAtBracket(x);
    assert Spaces(inner) == inner by {
      assert inner[0] == s[0];
    }
    MatchHeadAppend(s, CLOSE);
    NoteTextOf(rest);
    MatchNoteOf(x, inner, h, rest + CLOSE, rest);
  }
}
