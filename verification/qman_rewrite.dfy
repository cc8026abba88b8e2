/**
 * The two document rewrites of the cue manager (QMan.js), line by line:
 * the text renumbering writes for a cue line, the text the hide/show
 * change writes, the range each replacement covers and the line ending it
 * keeps, and the edits each rewrite makes, stated on the text as it was
 * before the first edit. The loops that make the edits one after the other
 * are methods of QManSession.CueManager.
 */
module QManRewrite {
  import opened JsText
  import opened JsValues
  import opened QManPrefs
  import opened QManGrammar
  import opened QManScan
  import opened TextEdits
  import opened HostDocument

  // ---------------------------------------------------------------------
  // The range a line replacement covers
  // ---------------------------------------------------------------------

  /** `lines.findIndex(l => l.position === p)`, or None where it gives -1. */
  function FindLine(lines: seq<Line>, p: int): (r: Option<nat>)
    ensures r.Some? ==> r.value < |lines| && lines[r.value].position == p
    ensures r.Some? ==> forall k :: 0 <= k < r.value ==> lines[k].position != p
    ensures r.None? ==> forall k :: 0 <= k < |lines| ==> lines[k].position != p
  {
    if lines == [] then None
    else if lines[0].position == p then Some(0)
    else
      match FindLine(lines[1..], p)
      case None => None
      case Some(k) => Some(k + 1)
  }

  /**
   * The length a replacement covers: the line's range length when it is
   * non-zero, else the distance to the start of the next line, else (on the
   * last line) the length of the line's string.
   */
  function LineLength(lines: seq<Line>, j: nat): int
    requires j < |lines|
  {
    var line := lines[j];
    if line.rangeLength != 0 then line.rangeLength
    else
      match FindLine(lines, line.position)
      case Some(idx) => if idx < |lines| - 1 then lines[idx + 1].position - line.position else |line.text|
      case None => |line.text|
  }

  function Min(a: int, b: int): int { if a <= b then a else b }

  /**
   * The line ending kept after the new text: what the document holds
   * between the end of the line's string and the end of the covered range,
   * or nothing when the string reaches the end of the document.
   */
  function LineEnding(text: JsString, pos: int, rawLength: nat, len: int): JsString {
    var start := pos + rawLength;
    if start < |text| then Substring(text, start, Min(pos + len, |text|)) else []
  }

  /** The line's string fits in the range it covers. */
  predicate RawWithin(lines: seq<Line>) {
    forall j :: 0 <= j < |lines| ==> |lines[j].text| <= LineLength(lines, j)
  }

  /**
   * The lines lie in order inside the text: each range starts at a
   * non-negative position, holds the line's string, and ends before the
   * next line starts and inside the text.
   */
  predicate LaidOut(text: JsString, lines: seq<Line>) {
    RawWithin(lines)
    && forall j :: 0 <= j < |lines| ==>
         0 <= lines[j].position && lines[j].position + LineLength(lines, j) <= |text|
         && (j + 1 < |lines| ==> lines[j].position + LineLength(lines, j) <= lines[j + 1].position)
  }

  /**
   * A replacement of the kind both rewrites make swaps the line's string
   * for the new text and keeps everything else of the covered range, which
   * is the line break.
   */
  lemma ReplaceLine(text: JsString, pos: int, raw: JsString, len: int, newLine: JsString)
    requires 0 <= pos && |raw| <= len && pos + len <= |text|
    ensures Splice(text, pos, len, newLine + LineEnding(text, pos, |raw|, len))
            == text[..pos] + newLine + text[pos + |raw|..]
  {
    var ending := LineEnding(text, pos, |raw|, len);
    assert ending == text[pos + |raw|..pos + len];
    assert text[pos + |raw|..] == ending + text[pos + len..];
  }

  /**
   * The ending read from a text that agrees with the original up to the end
   * of the covered range is the original ending.
   */
  lemma EndingOnPrefix(cur: JsString, text: JsString, pos: int, rawLength: nat, len: int)
    requires 0 <= pos && rawLength <= len && pos + len <= |text| && pos + len <= |cur|
    requires cur[..pos + len] == text[..pos + len]
    ensures LineEnding(cur, pos, rawLength, len) == LineEnding(text, pos, rawLength, len)
  {
    var start := pos + rawLength;
    if start < |text| {
      PrefixesAgree(cur, text, pos + len, start, pos + len);
    }
  }

  /**
   * The ending read from a text whose tail from `pos + g` is the original
   * tail from `pos` (the edits before the line made it `g` longer) is the
   * original ending.
   */
  lemma EndingShifted(cur: JsString, text: JsString, pos: int, g: int, rawLength: nat, len: int)
    requires 0 <= pos <= |text| && 0 <= pos + g && rawLength <= len && |cur| == |text| + g
    requires cur[pos + g..] == text[pos..]
    ensures LineEnding(cur, pos + g, rawLength, len) == LineEnding(text, pos, rawLength, len)
  {
    var start := pos + rawLength;
    if start < |text| {
      var end := Min(pos + len, |text|);
      assert Min(pos + g + len, |cur|) == end + g;
      SlicesAgree(cur, text, pos + g, pos, rawLength, end - pos);
    }
  }

  // ---------------------------------------------------------------------
  // Renumbering
  // ---------------------------------------------------------------------

  /** The text renumbering writes for a line's string as cue number `n`, or None when the trimmed string matches neither pattern. */
  function RenumberText(raw: JsString, n: nat): (r: Option<JsString>)
    ensures r.Some? <==> ParseCueLine(Trim(raw)).Some?
  {
    match ParseCueLine(Trim(raw))
    case None => None
    case Some((m, wrapped)) => Some(RenumberLine(m, wrapped, n))
  }

  /**
   * A renumbered line parses as the same cue (same `!`, type, text and
   * wrapping) with the number `n`, whose digits read back as `n`.
   */
  lemma RenumberTextReparse(raw: JsString, n: nat)
    requires RenumberText(raw, n).Some?
    ensures ParseCueLine(Trim(raw)).Some?
    ensures var (m, wrapped) := ParseCueLine(Trim(raw)).value;
            ParseCueLine(RenumberText(raw, n).value) == Some((m.(number := Some(Decimal(n))), wrapped))
    ensures DigitsValue(Decimal(n)) == n
  {
    var (m, wrapped) := ParseCueLine(Trim(raw)).value;
    if wrapped {
      assert MatchNote(Trim(raw)) == Some(m);
    } else {
      assert MatchBare(Trim(raw)) == Some(m);
    }
    RenumberReparse(m, wrapped, n);
    DecimalValue(n);
  }

  /**
   * The edit that gives line `j` the new text `newLine` (when there is
   * one): the line's range, from its start, replaced by the new text and the
   * original line ending.
   */
  function LineEdit(text: JsString, lines: seq<Line>, j: nat, newLine: Option<JsString>): (r: Option<Edit<CodeUnit>>)
    requires j < |lines|
    ensures r.Some? <==> newLine.Some?
    ensures r.Some? ==> r.value.pos == lines[j].position && r.value.len == LineLength(lines, j)
                        && StartsWith(r.value.repl, newLine.value)
  {
    match newLine
    case None => None
    case Some(l) =>
      var len := LineLength(lines, j);
      var e := Edit(lines[j].position, len, l + LineEnding(text, lines[j].position, |lines[j].text|, len));
      assert e.repl[..|l|] == l;
      Some(e)
  }

  /** The edit renumbering makes for cue `c` as number `n`, on the text before any edit. */
  function RenumberEdit(text: JsString, lines: seq<Line>, c: Cue, n: nat): Option<Edit<CodeUnit>> {
    match FindLine(lines, c.lineIndex)
    case None => None
    case Some(j) => LineEdit(text, lines, j, RenumberText(lines[j].text, n))
  }

  /** The edits of renumbering `cues` as 1, 2, 3, ... */
  function RenumberEdits(text: JsString, lines: seq<Line>, cues: seq<Cue>): (es: seq<Option<Edit<CodeUnit>>>)
    ensures |es| == |cues|
  {
    Tabulate(|cues|, (k: nat) => if k < |cues| then RenumberEdit(text, lines, cues[k], k + 1) else None)
  }

  /** Cue i (counting from 0) gets the number i + 1. */
  lemma RenumberEditsAt(text: JsString, lines: seq<Line>, cues: seq<Cue>, i: nat)
    requires i < |cues|
    ensures RenumberEdits(text, lines, cues)[i] == RenumberEdit(text, lines, cues[i], i + 1)
  {
    TabulateAt(|cues|, (k: nat) => if k < |cues| then RenumberEdit(text, lines, cues[k], k + 1) else None, i);
  }

  /**
   * A renumbering edit replaces the range of the line that starts at the
   * cue's position by a line that parses as the same cue numbered `n`,
   * followed by the original line ending.
   */
  lemma RenumberEditShape(text: JsString, lines: seq<Line>, c: Cue, n: nat, e: Edit<CodeUnit>)
    requires RenumberEdit(text, lines, c, n) == Some(e)
    ensures FindLine(lines, c.lineIndex).Some? && e.pos == c.lineIndex
    ensures var j := FindLine(lines, c.lineIndex).value;
            var ending := LineEnding(text, c.lineIndex, |lines[j].text|, LineLength(lines, j));
            && e.len == LineLength(lines, j)
            && |ending| <= |e.repl| && e.repl[|e.repl| - |ending|..] == ending
            && ParseCueLine(Trim(lines[j].text)).Some?
            && var (m, wrapped) := ParseCueLine(Trim(lines[j].text)).value;
               ParseCueLine(e.repl[..|e.repl| - |ending|]) == Some((m.(number := Some(Decimal(n))), wrapped))
  {
    var j := FindLine(lines, c.lineIndex).value;
    var ending := LineEnding(text, c.lineIndex, |lines[j].text|, LineLength(lines, j));
    var newLine := RenumberText(lines[j].text, n).value;
    assert e.repl == newLine + ending;
    assert e.repl[..|e.repl| - |ending|] == newLine;
    assert e.repl[|e.repl| - |ending|..] == ending;
    RenumberTextReparse(lines[j].text, n);
  }

  // ---------------------------------------------------------------------
  // Wrapping and unwrapping on a change of the hide flags
  // ---------------------------------------------------------------------

  /**
   * The text the hide/show change writes for a line's string, or None when
   * the line stays as it is: an empty line, no cue, a type whose hide value
   * is the same (`!==` on `p && p.hide`), a cue to hide that is already
   * wrapped or a cue to show that is not.
   */
  function WrapText(raw: JsString, oldPrefs: map<JsString, JsValue>, newPrefs: map<JsString, JsValue>): (r: Option<JsString>)
    ensures r.Some? ==>
              ParseCueLine(Trim(raw)).Some?
              && var (m, wrapped) := ParseCueLine(Trim(raw)).value;
                 !StrictEq(HideOf(oldPrefs, m.ctype), HideOf(newPrefs, m.ctype))
                 && Truthy(HideOf(newPrefs, m.ctype)) != wrapped
  {
    var s := Trim(raw);
    if s == [] then None
    else
      match ParseCueLine(s)
      case None => None
      case Some((m, wrapped)) =>
        var oldHide := HideOf(oldPrefs, m.ctype);
        var newHide := HideOf(newPrefs, m.ctype);
        if !PassesTypeCheck(m.ctype) || StrictEq(oldHide, newHide) then None
        else if Truthy(newHide) && !wrapped then Some(Wrap(s))
        else if !Truthy(newHide) && wrapped then Some(Unwrap(s))
        else None
  }

  /**
   * Exactly the cue lines whose type's hide value changed and whose wrapping
   * disagrees with the new value are rewritten: a bare cue to hide is
   * wrapped, a wrapped cue to show is unwrapped.
   */
  lemma WrapTextSpec(raw: JsString, oldPrefs: map<JsString, JsValue>, newPrefs: map<JsString, JsValue>)
    ensures WrapText(raw, oldPrefs, newPrefs).Some? <==>
              ParseCueLine(Trim(raw)).Some?
              && var (m, wrapped) := ParseCueLine(Trim(raw)).value;
                 !StrictEq(HideOf(oldPrefs, m.ctype), HideOf(newPrefs, m.ctype))
                 && Truthy(HideOf(newPrefs, m.ctype)) != wrapped
    ensures WrapText(raw, oldPrefs, newPrefs).Some? ==>
              WrapText(raw, oldPrefs, newPrefs).value
              == if ParseCueLine(Trim(raw)).value.1 then Unwrap(Trim(raw)) else Wrap(Trim(raw))
  {
    var s := Trim(raw);
    if ParseCueLine(s).Some? {
      var (m, wrapped) := ParseCueLine(s).value;
      if wrapped {
        assert MatchNote(s) == Some(m);
      } else {
        assert MatchBare(s) == Some(m);
      }
      MatchedTypeIsUpper(m.ctype);
    }
  }

  /** A wrapped line parses as the same cue, now wrapped. */
  lemma WrapTextReparse(raw: JsString, oldPrefs: map<JsString, JsValue>, newPrefs: map<JsString, JsValue>)
    requires WrapText(raw, oldPrefs, newPrefs).Some?
    requires !ParseCueLine(Trim(raw)).value.1
    ensures ParseCueLine(WrapText(raw, oldPrefs, newPrefs).value) == Some((ParseCueLine(Trim(raw)).value.0, true))
  {
    var s := Trim(raw);
    assert MatchBare(s).Some?;
    WrapReparse(s);
  }

  /**
   * The scan takes a wrapped line (one the editor does not flag as a
   * heading) for the same cue with `isWrapped` set.
   */
  lemma WrappedLineIsCue(raw: JsString, oldPrefs: map<JsString, JsValue>, newPrefs: map<JsString, JsValue>, position: int, rangeLength: nat)
    requires WrapText(raw, oldPrefs, newPrefs).Some?
    requires !ParseCueLine(Trim(raw)).value.1
    ensures Classify(Line(position, WrapText(raw, oldPrefs, newPrefs).value, false, rangeLength))
            == Cued(ParseCueLine(Trim(raw)).value.0, true)
  {
    var s := Trim(raw);
    var w := Wrap(s);
    WrappedText(raw, oldPrefs, newPrefs);
    BracketNotHeading(w);
    MatchedTypeIsUpper(ParseCueLine(s).value.0.ctype);
    assert ClassifyText(w) == Cued(ParseCueLine(s).value.0, true);
  }

  /** What the hide change writes for a bare cue line: the trimmed line in `[[ ]]`, itself trimmed, parsing as the same cue wrapped. */
  lemma WrappedText(raw: JsString, oldPrefs: map<JsString, JsValue>, newPrefs: map<JsString, JsValue>)
    requires WrapText(raw, oldPrefs, newPrefs).Some?
    requires !ParseCueLine(Trim(raw)).value.1
    ensures var w := WrapText(raw, oldPrefs, newPrefs).value;
            w == Wrap(Trim(raw)) && Trim(w) == w && w[0] == LBRACKET
            && ParseCueLine(w) == Some((ParseCueLine(Trim(raw)).value.0, true))
  {
    var w := Wrap(Trim(raw));
    WrapTextSpec(raw, oldPrefs, newPrefs);
    WrapTextReparse(raw, oldPrefs, newPrefs);
    assert w[0] == LBRACKET && w[|w| - 1] == RBRACKET;
    TrimOfTrimmed(w);
  }

  /** A line that starts with `[` is no Fountain heading. */
  lemma BracketNotHeading(w: JsString)
    requires w != [] && w[0] == LBRACKET
    ensures !IsFountainHeading(w)
  {
    var u := HeadingUpper(w);
    assert u[0] == LBRACKET;
    assert Str("INT.")[0] == 'I' as int && Str("EXT.")[0] == 'E' as int && Str("INT/EXT")[0] == 'I' as int;
    assert Str("EXT/INT")[0] == 'E' as int && Str("I/E")[0] == 'I' as int;
  }

  /**
   * Hiding a type and then showing it again gives every wrapped line back
   * as it was (trimmed).
   */
  lemma WrapThenUnwrap(raw: JsString, oldPrefs: map<JsString, JsValue>, newPrefs: map<JsString, JsValue>)
    requires WrapText(raw, oldPrefs, newPrefs).Some?
    requires !ParseCueLine(Trim(raw)).value.1
    requires !Truthy(HideOf(oldPrefs, ParseCueLine(Trim(raw)).value.0.ctype))
    ensures WrapText(WrapText(raw, oldPrefs, newPrefs).value, newPrefs, oldPrefs) == Some(Trim(raw))
  {
    var s := Trim(raw);
    var m := ParseCueLine(s).value.0;
    WrappedText(raw, oldPrefs, newPrefs);
    WrapTextSpec(raw, oldPrefs, newPrefs);
    UnwrapWrap(s);
    MatchedTypeIsUpper(m.ctype);
    StrictEqSymmetric(HideOf(newPrefs, m.ctype), HideOf(oldPrefs, m.ctype));
    WrapTextOfCue(Wrap(s), newPrefs, oldPrefs, m, true);
  }

  /** WrapText on a trimmed line that parses as cue `m` of a type that passes the type check. */
  lemma WrapTextOfCue(x: JsString, oldPrefs: map<JsString, JsValue>, newPrefs: map<JsString, JsValue>, m: CueMatch, wrapped: bool)
    requires x != [] && Trim(x) == x && ParseCueLine(x) == Some((m, wrapped)) && PassesTypeCheck(m.ctype)
    ensures var oldHide, newHide := HideOf(oldPrefs, m.ctype), HideOf(newPrefs, m.ctype);
            WrapText(x, oldPrefs, newPrefs)
            == if StrictEq(oldHide, newHide) then None
               else if Truthy(newHide) && !wrapped then Some(Wrap(x))
               else if !Truthy(newHide) && wrapped then Some(Unwrap(x))
               else None
  {
  }

  /** The edit the hide/show change makes on line `j`, on the text before any edit. */
  function WrapEdit(text: JsString, lines: seq<Line>, j: nat, oldPrefs: map<JsString, JsValue>, newPrefs: map<JsString, JsValue>): Option<Edit<CodeUnit>>
    requires j < |lines|
  {
    LineEdit(text, lines, j, WrapText(lines[j].text, oldPrefs, newPrefs))
  }

  /** The edits of the hide/show change, one per line. */
  function WrapEdits(text: JsString, lines: seq<Line>, oldPrefs: map<JsString, JsValue>, newPrefs: map<JsString, JsValue>): (es: seq<Option<Edit<CodeUnit>>>)
    ensures |es| == |lines|
  {
    Tabulate(|lines|, (k: nat) => if k < |lines| then WrapEdit(text, lines, k, oldPrefs, newPrefs) else None)
  }

  /** Line j gets the edit WrapEdit describes. */
  lemma WrapEditsAt(text: JsString, lines: seq<Line>, oldPrefs: map<JsString, JsValue>, newPrefs: map<JsString, JsValue>, j: nat)
    requires j < |lines|
    ensures WrapEdits(text, lines, oldPrefs, newPrefs)[j] == WrapEdit(text, lines, j, oldPrefs, newPrefs)
  {
    TabulateAt(|lines|, (k: nat) => if k < |lines| then WrapEdit(text, lines, k, oldPrefs, newPrefs) else None, j);
  }

  /** Each line's edit, if any, covers that line's range. */
  predicate OnLines(lines: seq<Line>, es: seq<Option<Edit<CodeUnit>>>) {
    |es| == |lines|
    && forall j :: 0 <= j < |lines| && es[j].Some? ==>
         es[j].value.pos == lines[j].position && es[j].value.len == LineLength(lines, j)
  }

  /** Edits on the ranges of lines that lie in order inside the text fit. */
  lemma {:induction false} LaidOutFits(text: JsString, lines: seq<Line>, es: seq<Option<Edit<CodeUnit>>>, i: nat, from: nat)
    requires LaidOut(text, lines) && OnLines(lines, es) && i <= |lines|
    requires from <= (if i < |lines| then lines[i].position else |text|)
    ensures Fits(|text|, es, i, |es|, from)
    decreases |lines| - i
  {
    if i < |lines| {
      var next := lines[i].position + LineLength(lines, i);
      assert 0 <= next;
      if i + 1 < |lines| {
        assert next <= lines[i + 1].position;
      }
      match es[i]
      case None => LaidOutFits(text, lines, es, i + 1, from);
      case Some(e) => LaidOutFits(text, lines, es, i + 1, next);
    }
  }

  /** The hide/show edits on lines that lie in order inside the text fit. */
  lemma WrapEditsFit(text: JsString, lines: seq<Line>, oldPrefs: map<JsString, JsValue>, newPrefs: map<JsString, JsValue>)
    requires LaidOut(text, lines)
    ensures Fits(|text|, WrapEdits(text, lines, oldPrefs, newPrefs), 0, |lines|, 0)
  {
    var es := WrapEdits(text, lines, oldPrefs, newPrefs);
    forall j | 0 <= j < |lines|
      ensures es[j] == WrapEdit(text, lines, j, oldPrefs, newPrefs)
    {
      WrapEditsAt(text, lines, oldPrefs, newPrefs, j);
    }
    assert OnLines(lines, es);
    LaidOutFits(text, lines, es, 0, 0);
  }

  /** On lines laid out in order, a later line never starts before an earlier one. */
  lemma {:induction false} LaidOutAscending(text: JsString, lines: seq<Line>, a: nat, b: nat)
    requires LaidOut(text, lines) && a <= b < |lines|
    ensures lines[a].position <= lines[b].position
    decreases b - a
  {
    if a < b {
      assert 0 <= |lines[a].text| <= LineLength(lines, a);
      LaidOutAscending(text, lines, a + 1, b);
    }
  }

  /** The cues sit, in order, on the lines `ix` (strictly ascending indices), each at its line's position. */
  predicate OnAscendingLines(lines: seq<Line>, cues: seq<Cue>, ix: seq<nat>) {
    |ix| == |cues| && StrictlyIncreasing(ix)
    && forall k :: 0 <= k < |ix| ==> ix[k] < |lines| && cues[k].lineIndex == lines[ix[k]].position
  }

  /** Where cue k's line starts, or the end of the text past the last cue. */
  function CueStart(text: JsString, lines: seq<Line>, ix: seq<nat>, k: nat): int {
    if k < |ix| && ix[k] < |lines| then lines[ix[k]].position else |text|
  }

  /**
   * The renumber edits of cues that sit in order on lines laid out in
   * order fit: the line renumbering finds for a cue is the first with the
   * cue's position, never after the cue's own line, so its range ends
   * before the next cue's line starts.
   */
  lemma RenumberEditsFitOn(text: JsString, lines: seq<Line>, cues: seq<Cue>, ix: seq<nat>)
    requires LaidOut(text, lines) && OnAscendingLines(lines, cues, ix)
    ensures Fits(|text|, RenumberEdits(text, lines, cues), 0, |cues|, 0)
  {
    var es := RenumberEdits(text, lines, cues);
    var start := (k: nat) => CueStart(text, lines, ix, k);
    forall k | 0 <= k <= |es|
      ensures 0 <= start(k) <= |text|
    {
      if k < |es| {
        assert 0 <= |lines[ix[k]].text| <= LineLength(lines, ix[k]);
      }
    }
    forall k | 0 <= k < |es|
      ensures start(k) <= start(k + 1)
    {
      CueLineInText(text, lines, cues, ix, k);
    }
    forall k | 0 <= k < |es| && es[k].Some?
      ensures es[k].value.pos == start(k) && 0 <= es[k].value.len && es[k].value.pos + es[k].value.len <= start(k + 1)
    {
      RenumberEditsAt(text, lines, cues, k);
      RenumberEditBounds(text, lines, cues, ix, k, es[k].value);
    }
    FitsByStarts(|text|, es, start, 0, 0);
  }

  /** A cue's line starts inside the text, and no later than the next cue's line. */
  lemma CueLineInText(text: JsString, lines: seq<Line>, cues: seq<Cue>, ix: seq<nat>, i: nat)
    requires LaidOut(text, lines) && OnAscendingLines(lines, cues, ix) && i < |cues|
    ensures lines[ix[i]].position <= (if i + 1 < |cues| then lines[ix[i + 1]].position else |text|)
  {
    assert 0 <= |lines[ix[i]].text| <= LineLength(lines, ix[i]);
    if i + 1 < |cues| {
      assert ix[i] < ix[i + 1];
      LaidOutAscending(text, lines, ix[i], ix[i + 1]);
    }
  }

  /** The renumber edit of cue i lies at the cue's position, inside the text and before the next cue's line. */
  lemma RenumberEditBounds(text: JsString, lines: seq<Line>, cues: seq<Cue>, ix: seq<nat>, i: nat, e: Edit<CodeUnit>)
    requires LaidOut(text, lines) && OnAscendingLines(lines, cues, ix) && i < |cues|
    requires RenumberEdit(text, lines, cues[i], i + 1) == Some(e)
    ensures e.pos == lines[ix[i]].position && 0 <= e.len
    ensures e.pos + e.len <= (if i + 1 < |cues| then lines[ix[i + 1]].position else |text|)
  {
    RenumberEditShape(text, lines, cues[i], i + 1, e);
    var j := FindLine(lines, cues[i].lineIndex).value;
    assert j <= ix[i];
    assert 0 <= |lines[j].text| <= LineLength(lines, j);
    if i + 1 < |cues| {
      assert ix[i] < ix[i + 1];
      LaidOutAscending(text, lines, j + 1, ix[i + 1]);
    }
  }

  // ---------------------------------------------------------------------
  // One step of each rewrite loop
  // ---------------------------------------------------------------------

  /**
   * Edits made from the last item to the first (as renumbering does): with
   * the edits after `i` made, the text still holds the original up to the
   * end of edit i's range, so a line ending read there (for a line string
   * of length `r` inside the range) is the original one, and replacing the
   * range gives the text with the edits from `i` on made.
   */
  lemma InFrontStep(text: JsString, es: seq<Option<Edit<CodeUnit>>>, i: nat, cur: JsString, r: nat, e: Edit<CodeUnit>)
    requires i < |es| && es[i] == Some(e) && r <= e.len
    requires Fits(|text|, es, 0, |es|, 0) && Fits(|text|, es, i + 1, |es|, 0)
    requires cur == Apply(text, es, i + 1, |es|, 0)
    ensures Fits(|text|, es, i, |es|, 0)
    ensures 0 <= e.pos && 0 <= e.len && e.pos + e.len <= |cur|
    ensures LineEnding(cur, e.pos, r, e.len) == LineEnding(text, e.pos, r, e.len)
    ensures Splice(cur, e.pos, e.len, e.repl) == Apply(text, es, i, |es|, 0)
  {
    FitsSuffix(|text|, es, 0, i, |es|, 0);
    ApplySome(text, es, i, |es|, 0);
    SpliceInFront(text, es, i, |es|);
    FitsBounds(|text|, es, i + 1, |es|, e.pos + e.len);
    ApplyKeepsPrefix(text, es, i + 1, |es|, e.pos + e.len);
    EndingOnPrefix(cur, text, e.pos, r, e.len);
  }

  /** An item without an edit changes nothing, whichever way the edits are made. */
  lemma InFrontSkip(text: JsString, es: seq<Option<Edit<CodeUnit>>>, i: nat, cur: JsString)
    requires i < |es| && es[i].None?
    requires Fits(|text|, es, 0, |es|, 0) && Fits(|text|, es, i + 1, |es|, 0)
    requires cur == Apply(text, es, i + 1, |es|, 0)
    ensures Fits(|text|, es, i, |es|, 0) && cur == Apply(text, es, i, |es|, 0)
  {
    FitsSuffix(|text|, es, 0, i, |es|, 0);
    ApplyNone(text, es, i, |es|, 0);
  }

  /**
   * Edits made from the first item to the last (as the hide/show change
   * does): with the edits before `j` made, the text from edit j's position
   * on is the original one moved by the growth `g` so far, so a line ending
   * read at the moved position is the original one, and replacing the moved
   * range gives the text with the edits up to `j` made.
   */
  lemma BehindStep(text: JsString, es: seq<Option<Edit<CodeUnit>>>, j: nat, cur: JsString, g: int, r: nat, e: Edit<CodeUnit>)
    requires j < |es| && es[j] == Some(e) && r <= e.len
    requires Fits(|text|, es, 0, |es|, 0) && Fits(|text|, es, 0, j, 0)
    requires cur == Apply(text, es, 0, j, 0) && g == Growth(es, 0, j)
    ensures Fits(|text|, es, 0, j + 1, 0)
    ensures 0 <= e.pos + g && 0 <= e.len && e.pos + g + e.len <= |cur|
    ensures LineEnding(cur, e.pos + g, r, e.len) == LineEnding(text, e.pos, r, e.len)
    ensures Splice(cur, e.pos + g, e.len, e.repl) == Apply(text, es, 0, j + 1, 0)
    ensures g + |e.repl| - e.len == Growth(es, 0, j + 1)
  {
    FitsPrefix(|text|, es, 0, j + 1, |es|, 0);
    SpliceBehind(text, es, j, e);
    EndGrowthSnoc(|text|, es, 0, j, 0, e);
    ApplyTail(text, es, j);
    var end := End(es, 0, j, 0);
    SuffixesAgree(cur, text, end + g, end, e.pos - end);
    EndingShifted(cur, text, e.pos, g, r, e.len);
  }

  /** An item without an edit changes neither the text nor the growth. */
  lemma BehindSkip(text: JsString, es: seq<Option<Edit<CodeUnit>>>, j: nat, cur: JsString, g: int)
    requires j < |es| && es[j].None?
    requires Fits(|text|, es, 0, |es|, 0) && Fits(|text|, es, 0, j, 0)
    requires cur == Apply(text, es, 0, j, 0) && g == Growth(es, 0, j)
    ensures Fits(|text|, es, 0, j + 1, 0)
    ensures cur == Apply(text, es, 0, j + 1, 0) && g == Growth(es, 0, j + 1)
  {
    FitsPrefix(|text|, es, 0, j + 1, |es|, 0);
    ApplyBehindNone(text, es, 0, j, 0);
  }
}
