/**
 * The QLab export of the cue manager (QMan.js, exportToAppleScript): a
 * script that makes one QLab cue per selected cue and sets its number,
 * name and notes. The QLab cue type comes from getQLabCueType: `Fade` when
 * the lower-cased cue text has a stop or fade word, else a fixed table of
 * cue types. Values are written into AppleScript string literals with `\`
 * and `"` escaped; a reader of those literals is written out below and
 * shown to recover each cue's values.
 */
module QManAppleScript {
  import opened JsText
  import opened QManEscape
  import opened QManGrammar
  import opened QManPrefs
  import opened QManScan
  import opened QManSession
  import opened QManExport
  import opened HostDocument

  // ---------------------------------------------------------------------
  // getQLabCueType
  // ---------------------------------------------------------------------

  const QLAB_FADE: JsString := Str("Fade")
  const QLAB_AUDIO: JsString := Str("Audio")
  const QLAB_VIDEO: JsString := Str("Video")
  const QLAB_LIGHT: JsString := Str("Light")
  const QLAB_MEMO: JsString := Str("Memo")

  /**
   * The type table of getQLabCueType. It is a plain object, but a cue type
   * is upper case and every property name an object inherits has a
   * lower-case letter, so a lookup finds exactly these five keys.
   */
  function TableType(t: JsString): Option<JsString> {
    if t == SOUND || t == MUSIC then Some(QLAB_AUDIO)
    else if t == VIDEO || t == PROJECTION then Some(QLAB_VIDEO)
    else if t == LIGHT then Some(QLAB_LIGHT)
    else None
  }

  const STOP: JsString := Str("stop")
  const FADE_STEM: JsString := Str("fade")
  const IN: JsString := Str("in")
  const OUT: JsString := Str("out")

  /** The words of `stop|fade(?:-?in|-?out)?|fadein|fadeout|crossfade`. */
  const FADE_WORDS: seq<JsString> :=
    [STOP, FADE_STEM, Str("fadein"), Str("fade-in"), Str("fadeout"), Str("fade-out"), Str("crossfade")]

  /** `\b` at offset `p`: a word character on exactly one side. */
  predicate Boundary(t: JsString, p: nat)
    requires p <= |t|
  {
    (p > 0 && IsWordChar(t[p - 1])) != (p < |t| && IsWordChar(t[p]))
  }

  /**
   * Where `fade\s+` followed by `w` ends, when it starts at `p`. The
   * greedy `\s+` gives back no space: `w` starts with a letter, so only
   * the whole run of spaces can be followed by it.
   */
  function SpacedEnd(t: JsString, p: nat, w: JsString): (r: Option<nat>)
    requires p <= |t|
    ensures r.Some? ==> r.value <= |t|
  {
    if OccursAt(t, FADE_STEM, p) then
      var k := SkipSpaces(t, p + |FADE_STEM|);
      if k > p + |FADE_STEM| && OccursAt(t, w, k) then Some(k + |w|) else None
    else None
  }

  /** The regular expression of getQLabCueType matches at `p`: `\b`, one of its alternatives, `\b`. */
  predicate FadeMatchAt(t: JsString, p: nat)
    requires p <= |t|
  {
    Boundary(t, p) &&
    ((exists i :: 0 <= i < |FADE_WORDS| && OccursAt(t, FADE_WORDS[i], p) && Boundary(t, p + |FADE_WORDS[i]|))
     || (SpacedEnd(t, p, IN).Some? && Boundary(t, SpacedEnd(t, p, IN).value))
     || (SpacedEnd(t, p, OUT).Some? && Boundary(t, SpacedEnd(t, p, OUT).value)))
  }

  /** `.test(t)` of that expression. */
  predicate HasFadeWord(t: JsString) {
    exists p :: 0 <= p <= |t| && FadeMatchAt(t, p)
  }

  /** getQLabCueType for a cue. */
  function QLabCueType(c: Cue): (r: JsString)
    ensures r in {QLAB_FADE, QLAB_AUDIO, QLAB_VIDEO, QLAB_LIGHT, QLAB_MEMO}
  {
    var cueText := LowerAscii(c.name);
    if cueText != [] && HasFadeWord(cueText) then QLAB_FADE
    else if TableType(c.ctype).Some? then TableType(c.ctype).value
    else QLAB_MEMO
  }

  lemma FadeWordsShape()
    ensures forall i :: 0 <= i < |FADE_WORDS| ==>
              |FADE_WORDS[i]| >= 4 && IsWordChar(FADE_WORDS[i][0]) && IsWordChar(FADE_WORDS[i][|FADE_WORDS[i]| - 1])
  {
  }

  /** `fade` starts with a word character; `in` and `out` start and end with one. */
  lemma StemShape(w: JsString)
    requires w == IN || w == OUT
    ensures |FADE_STEM| == 4 && IsWordChar(FADE_STEM[0])
    ensures w != [] && IsWordChar(w[0]) && IsWordChar(w[|w| - 1])
  {
  }

  lemma OccursBetween(a: JsString, w: JsString, b: JsString)
    ensures OccursAt(a + w + b, w, |a|)
  {
    assert (a + w + b)[|a|..|a| + |w|] == w;
  }

  /** `\b` before a word that starts with a word character and follows a non-word character. */
  lemma BoundaryBefore(a: JsString, w: JsString, b: JsString)
    requires w != [] && IsWordChar(w[0])
    requires a == [] || !IsWordChar(a[|a| - 1])
    ensures Boundary(a + w + b, |a|)
  {
    var t := a + w + b;
    assert t[|a|] == w[0];
    assert |a| > 0 ==> t[|a| - 1] == a[|a| - 1];
  }

  /** `\b` after a word that ends with a word character and is followed by a non-word character. */
  lemma BoundaryAfter(a: JsString, w: JsString, b: JsString)
    requires w != [] && IsWordChar(w[|w| - 1])
    requires b == [] || !IsWordChar(b[0])
    ensures Boundary(a + w + b, |a| + |w|)
  {
    var t := a + w + b;
    assert t[|a| + |w| - 1] == w[|w| - 1];
    assert |a| + |w| < |t| ==> t[|a| + |w|] == b[0];
  }

  /** The words of the expression are found wherever they stand as a word of their own. */
  lemma FadeWordStandsAlone(a: JsString, i: nat, b: JsString)
    requires i < |FADE_WORDS|
    requires a == [] || !IsWordChar(a[|a| - 1])
    requires b == [] || !IsWordChar(b[0])
    ensures HasFadeWord(a + FADE_WORDS[i] + b)
  {
    var w := FADE_WORDS[i];
    var t := a + w + b;
    assert w != [] && IsWordChar(w[0]) && IsWordChar(w[|w| - 1]) by {
      FadeWordsShape();
    }
    OccursBetween(a, w, b);
    BoundaryBefore(a, w, b);
    BoundaryAfter(a, w, b);
    assert OccursAt(t, FADE_WORDS[i], |a|) && Boundary(t, |a| + |FADE_WORDS[i]|);
    assert FadeMatchAt(t, |a|);
  }

  /** A run of spaces followed by a non-space is skipped whole. */
  lemma SkipRun(x: JsString, spaces: JsString, y: JsString, z: JsString)
    requires AllSpaces(spaces) && y != [] && !IsSpace(y[0])
    ensures SkipSpaces(x + spaces + y + z, |x|) == |x| + |spaces|
  {
    var t := x + spaces + y + z;
    forall j | |x| <= j < |x| + |spaces|
      ensures IsSpace(t[j])
    {
      assert t[j] == spaces[j - |x|];
    }
    assert t[|x| + |spaces|] == y[0];
    SkipSpacesUnique(t, |x|, |x| + |spaces|);
  }

  /** A word at the end of a text, after a non-word character. */
  lemma AtEnd(a: JsString, w: JsString)
    requires w != [] && IsWordChar(w[0])
    requires a == [] || !IsWordChar(a[|a| - 1])
    ensures OccursAt(a + w, w, |a|) && Boundary(a + w, |a|)
  {
    assert (a + w)[|a|..] == w;
    assert (a + w)[|a|] == w[0];
    assert |a| > 0 ==> (a + w)[|a| - 1] == a[|a| - 1];
  }

  /** What follows a word and the boundary before it does not change them. */
  lemma Extend(u: JsString, y: JsString, w: JsString, p: nat)
    requires w != [] && p + |w| <= |u|
    requires OccursAt(u, w, p) && Boundary(u, p)
    ensures OccursAt(u + y, w, p) && Boundary(u + y, p)
  {
    var x, z := (u + y)[p..p + |w|], u[p..p + |w|];
    forall k | 0 <= k < |w|
      ensures x[k] == z[k]
    {
      assert (u + y)[p + k] == u[p + k];
    }
    assert (u + y)[p] == u[p];
    assert p > 0 ==> (u + y)[p - 1] == u[p - 1];
  }

  /** `fade`, spaces and `in` or `out` between two boundaries is a match. */
  lemma SpacedMatch(t: JsString, p: nat, w: JsString, k: nat)
    requires w == IN || w == OUT
    requires p + |FADE_STEM| < k && k + |w| <= |t|
    requires OccursAt(t, FADE_STEM, p) && Boundary(t, p)
    requires SkipSpaces(t, p + |FADE_STEM|) == k && OccursAt(t, w, k) && Boundary(t, k + |w|)
    ensures HasFadeWord(t)
  {
    assert SpacedEnd(t, p, w) == Some(k + |w|);
    assert FadeMatchAt(t, p);
  }

  /** A word, a run of spaces and a second word, standing between non-word characters. */
  lemma SpacedJoin(a: JsString, f: JsString, spaces: JsString, w: JsString, b: JsString)
    requires f != [] && IsWordChar(f[0]) && w != [] && IsWordChar(w[0]) && IsWordChar(w[|w| - 1])
    requires a == [] || !IsWordChar(a[|a| - 1])
    requires AllSpaces(spaces)
    requires b == [] || !IsWordChar(b[0])
    ensures var t, k := a + f + spaces + w + b, |a| + |f| + |spaces|;
            OccursAt(t, f, |a|) && Boundary(t, |a|) && SkipSpaces(t, |a| + |f|) == k
            && OccursAt(t, w, k) && Boundary(t, k + |w|)
  {
    AtEnd(a, f);
    Extend(a + f, spaces, f, |a|);
    Extend(a + f + spaces, w, f, |a|);
    Extend(a + f + spaces + w, b, f, |a|);
    SkipRun(a + f, spaces, w, b);
    OccursBetween(a + f + spaces, w, b);
    BoundaryAfter(a + f + spaces, w, b);
  }

  /** So are `fade` and `in` or `out` with spaces between them. */
  lemma SpacedFadeStandsAlone(a: JsString, spaces: JsString, w: JsString, b: JsString)
    requires w == IN || w == OUT
    requires a == [] || !IsWordChar(a[|a| - 1])
    requires spaces != [] && AllSpaces(spaces)
    requires b == [] || !IsWordChar(b[0])
    ensures HasFadeWord(a + FADE_STEM + spaces + w + b)
  {
    StemShape(w);
    SpacedJoin(a, FADE_STEM, spaces, w, b);
    SpacedMatch(a + FADE_STEM + spaces + w + b, |a|, w, |a| + |FADE_STEM| + |spaces|);
  }

  lemma OccursInside(t: JsString, w: JsString, p: nat, i: nat, j: nat)
    requires OccursAt(t, w, p) && i <= j <= |w|
    ensures OccursAt(t, w[i..j], p + i)
  {
    var x, y := t[p + i..p + j], w[i..j];
    forall k | 0 <= k < j - i
      ensures x[k] == y[k]
    {
      assert t[p..p + |w|][i + k] == w[i + k];
    }
  }

  lemma FadeWordsHaveStem()
    ensures forall i :: 0 <= i < |FADE_WORDS| ==>
              FADE_WORDS[i][..4] == STOP || FADE_WORDS[i][..4] == FADE_STEM
              || (|FADE_WORDS[i]| >= 9 && FADE_WORDS[i][5..9] == FADE_STEM)
  {
    assert Str("crossfade")[5..9] == FADE_STEM;
  }

  /** A text with neither `stop` nor `fade` in it never selects the Fade type. */
  lemma NoStemNoFade(t: JsString)
    requires forall p :: !OccursAt(t, STOP, p) && !OccursAt(t, FADE_STEM, p)
    ensures !HasFadeWord(t)
  {
    if HasFadeWord(t) {
      var p :| 0 <= p <= |t| && FadeMatchAt(t, p);
      if exists i :: 0 <= i < |FADE_WORDS| && OccursAt(t, FADE_WORDS[i], p) {
        var i :| 0 <= i < |FADE_WORDS| && OccursAt(t, FADE_WORDS[i], p);
        FadeWordsShape();
        FadeWordsHaveStem();
        var w := FADE_WORDS[i];
        if w[..4] == STOP || w[..4] == FADE_STEM {
          OccursInside(t, w, p, 0, 4);
        } else {
          OccursInside(t, w, p, 5, 9);
        }
      }
      assert false;
    }
  }

  /** The five QLab types are five different words. */
  lemma QLabTypesDistinct()
    ensures QLAB_FADE != QLAB_AUDIO && QLAB_FADE != QLAB_VIDEO && QLAB_FADE != QLAB_LIGHT && QLAB_FADE != QLAB_MEMO
    ensures QLAB_AUDIO != QLAB_VIDEO && QLAB_AUDIO != QLAB_LIGHT && QLAB_AUDIO != QLAB_MEMO
    ensures QLAB_VIDEO != QLAB_LIGHT && QLAB_VIDEO != QLAB_MEMO && QLAB_LIGHT != QLAB_MEMO
  {
    assert QLAB_FADE[0] == 'F' as int && QLAB_AUDIO[0] == 'A' as int && QLAB_VIDEO[0] == 'V' as int;
    assert QLAB_LIGHT[0] == 'L' as int && QLAB_MEMO[0] == 'M' as int;
  }

  /** The five cue types of the table are five different words. */
  lemma TableKeysDistinct()
    ensures SOUND != MUSIC && SOUND != VIDEO && SOUND != PROJECTION && SOUND != LIGHT
    ensures MUSIC != VIDEO && MUSIC != PROJECTION && MUSIC != LIGHT
    ensures VIDEO != PROJECTION && VIDEO != LIGHT && PROJECTION != LIGHT
  {
    assert SOUND[0] == 'S' as int && MUSIC[0] == 'M' as int && VIDEO[0] == 'V' as int;
    assert PROJECTION[0] == 'P' as int && LIGHT[0] == 'L' as int;
  }

  /**
   * The QLab type of a cue: Fade exactly when its lower-cased text has a
   * stop or fade word; otherwise Audio for sound and music cues, Video for
   * video and projection cues, Light for light cues and Memo for the rest.
   */
  lemma QLabCueTypeSpec(c: Cue)
    ensures QLabCueType(c) == QLAB_FADE <==> HasFadeWord(LowerAscii(c.name))
    ensures QLabCueType(c) == QLAB_AUDIO <==> !HasFadeWord(LowerAscii(c.name)) && (c.ctype == SOUND || c.ctype == MUSIC)
    ensures QLabCueType(c) == QLAB_VIDEO <==> !HasFadeWord(LowerAscii(c.name)) && (c.ctype == VIDEO || c.ctype == PROJECTION)
    ensures QLabCueType(c) == QLAB_LIGHT <==> !HasFadeWord(LowerAscii(c.name)) && c.ctype == LIGHT
    ensures QLabCueType(c) == QLAB_MEMO <==> !HasFadeWord(LowerAscii(c.name)) && c.ctype !in {SOUND, MUSIC, VIDEO, PROJECTION, LIGHT}
  {
    var t := LowerAscii(c.name);
    QLabTypesDistinct();
    TableKeysDistinct();
    if HasFadeWord(t) {
      FadeNeedsText(t);
    }
  }

  /** A match needs at least the four code units of its shortest word. */
  lemma FadeNeedsText(t: JsString)
    requires HasFadeWord(t)
    ensures t != []
  {
    var p :| 0 <= p <= |t| && FadeMatchAt(t, p);
    FadeWordsShape();
  }

  // ---------------------------------------------------------------------
  // String literals
  // ---------------------------------------------------------------------

  /** `String(x).replace(/\\/g, "\\\\").replace(/"/g, '\\"')`. */
  function AsEscaped(s: JsString): (r: JsString)
    ensures BACKSLASH !in s && DQUOTE !in s ==> r == s
  {
    ReplaceAll(ReplaceAll(s, BACKSLASH, [BACKSLASH, BACKSLASH]), DQUOTE, [BACKSLASH, DQUOTE])
  }

  lemma AsEscapedAppend(s: JsString, t: JsString)
    ensures AsEscaped(s + t) == AsEscaped(s) + AsEscaped(t)
  {
    var s1, t1 := ReplaceAll(s, BACKSLASH, [BACKSLASH, BACKSLASH]), ReplaceAll(t, BACKSLASH, [BACKSLASH, BACKSLASH]);
    ReplaceAllAppend(s, t, BACKSLASH, [BACKSLASH, BACKSLASH]);
    ReplaceAllAppend(s1, t1, DQUOTE, [BACKSLASH, DQUOTE]);
  }

  lemma AsEscapedUnit(c: CodeUnit)
    ensures AsEscaped([c]) == if c == BACKSLASH then [BACKSLASH, BACKSLASH] else if c == DQUOTE then [BACKSLASH, DQUOTE] else [c]
  {
    var s1 := ReplaceAll([c], BACKSLASH, [BACKSLASH, BACKSLASH]);
    assert s1 == if c == BACKSLASH then [BACKSLASH, BACKSLASH] else [c];
  }

  /** A string without `\` or `"` is written as it is. */
  lemma AsEscapedPlain(s: JsString)
    requires BACKSLASH !in s && DQUOTE !in s
    ensures AsEscaped(s) == s
  {
  }

  /**
   * An AppleScript string literal after its opening quote: its text, with
   * the escapes `\\`, `\"`, `\n`, `\r` and `\t` read, and what follows the
   * closing quote; None when the closing quote is missing or an escape is
   * unknown.
   */
  function ScanLiteral(s: JsString): (r: Option<(JsString, JsString)>)
    ensures r.Some? ==> |r.value.1| < |s|
    decreases |s|
  {
    if s == [] then None
    else if s[0] == DQUOTE then Some(([], s[1..]))
    else if s[0] == BACKSLASH then
      if |s| < 2 then None
      else
        var e := s[1];
        var c: Option<CodeUnit> :=
          if e == BACKSLASH || e == DQUOTE then Some(e)
          else if e == 'n' as int then Some(LF)
          else if e == 'r' as int then Some(CR)
          else if e == 't' as int then Some(TAB)
          else None;
        match (c, ScanLiteral(s[2..]))
        case (Some(u), Some((f, rest))) => Some(([u] + f, rest))
        case _ => None
    else
      match ScanLiteral(s[1..])
      case Some((f, rest)) => Some(([s[0]] + f, rest))
      case None => None
  }

  /** One escaped code unit in front of a literal that reads as `f`. */
  lemma ScanUnit(c: CodeUnit, t: JsString, f: JsString, rest: JsString)
    requires ScanLiteral(t) == Some((f, rest))
    ensures ScanLiteral(AsEscaped([c]) + t) == Some(([c] + f, rest))
  {
    AsEscapedUnit(c);
    var h := AsEscaped([c]);
    assert (h + t)[|h|..] == t;
  }

  /** An escaped value between quotes reads back as the value. */
  lemma {:induction false} LiteralRoundTrip(x: JsString, rest: JsString)
    ensures ScanLiteral(AsEscaped(x) + [DQUOTE] + rest) == Some((x, rest))
  {
    if x == [] {
      assert AsEscaped(x) + [DQUOTE] + rest == [DQUOTE] + rest;
      assert ([DQUOTE] + rest)[1..] == rest;
    } else {
      var t := AsEscaped(x[1..]) + [DQUOTE] + rest;
      LiteralRoundTrip(x[1..], rest);
      ScanUnit(x[0], t, x[1..], rest);
      EscapedCons(x, rest);
      assert [x[0]] + x[1..] == x;
    }
  }

  /** Escaping a non-empty value escapes its first unit, then the rest. */
  lemma EscapedCons(x: JsString, rest: JsString)
    requires x != []
    ensures AsEscaped(x) + [DQUOTE] + rest == AsEscaped([x[0]]) + (AsEscaped(x[1..]) + [DQUOTE] + rest)
  {
    assert x == [x[0]] + x[1..];
    AsEscapedAppend([x[0]], x[1..]);
  }

  // ---------------------------------------------------------------------
  // The script
  // ---------------------------------------------------------------------

  const QUOTE_LF: JsString := [DQUOTE, LF]
  const MAKE_TYPE: JsString := Str("\t\tmake type \"")
  const SET_NUMBER: JsString := Str("\t\tset q number of last item of (selected as list) to \"")
  const SET_NAME: JsString := Str("\t\tset q name of last item of (selected as list) to \"")
  const SET_NOTES: JsString := Str("\t\tset notes of last item of (selected as list) to \"")

  /** The notes as QLab should store them: the cue's type and, when it has one, its scene. */
  function NotesText(c: Cue): JsString {
    Str("Type: ") + c.ctype + (if c.scene != [] then Str(" | Scene: ") + c.scene else [])
  }

  /** The notes literal as written: the scene is escaped, the type is not. */
  function Notes(c: Cue): (r: JsString)
    ensures StartsWith(r, Str("Type: ") + c.ctype) && (c.scene == [] ==> r == NotesText(c))
  {
    Str("Type: ") + c.ctype + (if c.scene != [] then Str(" | Scene: ") + AsEscaped(c.scene) else [])
  }

  /** The four statements written for a cue. */
  function CueBlock(c: Cue): JsString {
    MAKE_TYPE + QLabCueType(c) + QUOTE_LF
    + SET_NUMBER + AsEscaped(c.number) + QUOTE_LF
    + SET_NAME + AsEscaped(c.name) + QUOTE_LF
    + SET_NOTES + Notes(c) + QUOTE_LF
  }

  function ScriptHead(filterType: JsString, generated: JsString): JsString {
    Str("-- QMan to QLab Import Script\n")
    + Str("-- Generated: ") + generated + Str("\n")
    + Str("-- Cue Type Filter: ") + filterType + Str("\n\n")
    + Str("tell application \"QLab\"\n")
    + Str("\tactivate\n")
    + Str("\ttell front workspace\n")
    + Str("\t\t-- Create cues\n")
  }

  function ScriptTail(n: nat): JsString {
    Str("\tend tell\n")
    + Str("end tell\n\n")
    + Str("-- Import complete: ") + Decimal(n) + Str(" cues created\n")
    + Str("display notification \"") + Decimal(n) + Str(" cues imported to QLab\" with title \"QMan Export\"")
  }

  /** The script written for a selection of cues; `generated` is the local time the host prints. */
  function ScriptText(cues: seq<Cue>, filterType: JsString, generated: JsString): (r: JsString)
    ensures Unframe(r, ScriptHead(filterType, generated), ScriptTail(|cues|)) == Some(Rows(cues, CueBlock))
  {
    UnframeFramed(ScriptHead(filterType, generated), Rows(cues, CueBlock), ScriptTail(|cues|));
    ScriptHead(filterType, generated) + Rows(cues, CueBlock) + ScriptTail(|cues|)
  }

  /** exportToAppleScript, up to the file dialog: the alerts, or the script written to the chosen file. */
  method ExportToAppleScript(collectedCues: seq<Cue>, filterType: JsString, generated: JsString) returns (r: Export)
    ensures ExportedAs(collectedCues, filterType, r,
                       ScriptText(CuesOnTab(collectedCues, filterType), filterType, generated))
  {
    if collectedCues == [] {
      return NoCues;
    }
    var cuesToExport := CuesOnTab(collectedCues, filterType);
    if cuesToExport == [] {
      return NoneInFilter;
    }
    var scriptContent := AppendRows(ScriptHead(filterType, generated), cuesToExport, CueBlock);
    scriptContent := scriptContent + ScriptTail(|cuesToExport|);
    return Written(scriptContent);
  }

  // ---------------------------------------------------------------------
  // The statements read back
  // ---------------------------------------------------------------------

  /** One statement: its fixed text up to the opening quote, the literal, and the line break. */
  function ParseStatement(s: JsString, lead: JsString): (r: Option<(JsString, JsString)>)
    ensures r.Some? ==> |r.value.1| < |s|
  {
    match Expect(s, lead)
    case None => None
    case Some(s0) =>
      match ScanLiteral(s0)
      case None => None
      case Some((x, s1)) =>
        match Expect(s1, [LF])
        case None => None
        case Some(rest) => Some((x, rest))
  }

  /** The four statements of a cue: its QLab type, number, name and notes. */
  function ParseBlock(s: JsString): (r: Option<(seq<JsString>, JsString)>)
    ensures r.Some? ==> |r.value.1| < |s|
  {
    match ParseStatement(s, MAKE_TYPE)
    case None => None
    case Some((qtype, s1)) =>
      match ParseStatement(s1, SET_NUMBER)
      case None => None
      case Some((number, s2)) =>
        match ParseStatement(s2, SET_NAME)
        case None => None
        case Some((name, s3)) =>
          match ParseStatement(s3, SET_NOTES)
          case None => None
          case Some((notes, rest)) => Some(([qtype, number, name, notes], rest))
  }

  function ParseBlocks(s: JsString): Option<seq<seq<JsString>>>
    decreases |s|
  {
    if s == [] then Some([])
    else
      match ParseBlock(s)
      case None => None
      case Some((rec, rest)) =>
        match ParseBlocks(rest)
        case Some(recs) => Some([rec] + recs)
        case None => None
  }

  /** What QLab is told about a cue: its QLab type, number, name and notes. */
  function QLabRecord(c: Cue): seq<JsString> {
    [QLabCueType(c), c.number, c.name, NotesText(c)]
  }

  function QLabRecords(cues: seq<Cue>): (r: seq<seq<JsString>>)
    ensures |r| == |cues| && forall k :: 0 <= k < |cues| ==> r[k] == QLabRecord(cues[k])
  {
    if cues == [] then [] else [QLabRecord(cues[0])] + QLabRecords(cues[1..])
  }

  lemma StatementRoundTrip(lead: JsString, x: JsString, rest: JsString)
    ensures ParseStatement(lead + AsEscaped(x) + QUOTE_LF + rest, lead) == Some((x, rest))
  {
    var s0 := AsEscaped(x) + [DQUOTE] + ([LF] + rest);
    assert lead + AsEscaped(x) + QUOTE_LF + rest == lead + s0;
    ExpectPrefix(lead, s0);
    LiteralRoundTrip(x, [LF] + rest);
    ExpectPrefix([LF], rest);
  }

  /** A cue type holds no `\` or `"`. */
  lemma PlainCueType(t: JsString)
    requires IsCueType(t)
    ensures BACKSLASH !in t && DQUOTE !in t
  {
    assert forall k :: 0 <= k < |t| ==> IsUpper(t[k]) || IsDigit(t[k]);
  }

  /** Nor does a QLab type. */
  lemma PlainQLabType(c: Cue)
    ensures BACKSLASH !in QLabCueType(c) && DQUOTE !in QLabCueType(c)
  {
    assert BACKSLASH !in QLAB_FADE && DQUOTE !in QLAB_FADE;
    assert BACKSLASH !in QLAB_AUDIO && DQUOTE !in QLAB_AUDIO;
    assert BACKSLASH !in QLAB_VIDEO && DQUOTE !in QLAB_VIDEO;
    assert BACKSLASH !in QLAB_LIGHT && DQUOTE !in QLAB_LIGHT;
    assert BACKSLASH !in QLAB_MEMO && DQUOTE !in QLAB_MEMO;
  }

  /** Nor do the fixed words of the notes. */
  lemma PlainNoteWords()
    ensures BACKSLASH !in Str("Type: ") && DQUOTE !in Str("Type: ")
    ensures BACKSLASH !in Str(" | Scene: ") && DQUOTE !in Str(" | Scene: ")
  {
  }

  /** The notes are the escaped notes text: only the scene needs escaping, as the type cannot hold `\` or `"`. */
  lemma NotesEscaped(c: Cue)
    requires IsCueType(c.ctype)
    ensures Notes(c) == AsEscaped(NotesText(c))
  {
    PlainCueType(c.ctype);
    PlainNoteWords();
    var head := Str("Type: ") + c.ctype;
    AsEscapedAppend(Str("Type: "), c.ctype);
    AsEscapedPlain(Str("Type: "));
    AsEscapedPlain(c.ctype);
    if c.scene != [] {
      AsEscapedAppend(head, Str(" | Scene: ") + c.scene);
      AsEscapedAppend(Str(" | Scene: "), c.scene);
      AsEscapedPlain(Str(" | Scene: "));
    } else {
      assert NotesText(c) == head && Notes(c) == head;
    }
  }

  lemma BlockShape(a: JsString, x: JsString, b: JsString, y: JsString, c: JsString, z: JsString, d: JsString, u: JsString,
                   q: JsString, rest: JsString)
    ensures a + x + q + b + y + q + c + z + q + d + u + q + rest
            == a + x + q + (b + y + q + (c + z + q + (d + u + q + rest)))
  {
  }

  /** A written cue reads back as its QLab type, number, name and notes. */
  lemma BlockRoundTrip(c: Cue, rest: JsString)
    requires IsCueType(c.ctype)
    ensures ParseBlock(CueBlock(c) + rest) == Some((QLabRecord(c), rest))
  {
    PlainQLabType(c);
    AsEscapedPlain(QLabCueType(c));
    NotesEscaped(c);
    var s3 := SET_NOTES + AsEscaped(NotesText(c)) + QUOTE_LF + rest;
    StatementRoundTrip(SET_NOTES, NotesText(c), rest);
    var s2 := SET_NAME + AsEscaped(c.name) + QUOTE_LF + s3;
    StatementRoundTrip(SET_NAME, c.name, s3);
    var s1 := SET_NUMBER + AsEscaped(c.number) + QUOTE_LF + s2;
    StatementRoundTrip(SET_NUMBER, c.number, s2);
    StatementRoundTrip(MAKE_TYPE, QLabCueType(c), s1);
    BlockShape(MAKE_TYPE, QLabCueType(c), SET_NUMBER, AsEscaped(c.number), SET_NAME, AsEscaped(c.name),
               SET_NOTES, Notes(c), QUOTE_LF, rest);
  }

  lemma {:induction false} BlocksRoundTrip(cues: seq<Cue>)
    requires forall k :: 0 <= k < |cues| ==> IsCueType(cues[k].ctype)
    ensures ParseBlocks(Rows(cues, CueBlock)) == Some(QLabRecords(cues))
  {
    if cues != [] {
      var tail := cues[1..];
      assert forall k :: 0 <= k < |tail| ==> tail[k] == cues[k + 1];
      BlocksRoundTrip(tail);
      var rest := Rows(tail, CueBlock);
      BlockRoundTrip(cues[0], rest);
      RowsCons(cues, CueBlock);
      BlocksCons(Rows(cues, CueBlock), QLabRecord(cues[0]), rest, QLabRecords(tail));
    }
  }

  lemma BlocksCons(s: JsString, rec: seq<JsString>, rest: JsString, recs: seq<seq<JsString>>)
    requires s != [] && ParseBlock(s) == Some((rec, rest)) && ParseBlocks(rest) == Some(recs)
    ensures ParseBlocks(s) == Some([rec] + recs)
  {
  }

  /** The text between a given opening and closing, when `s` has both. */
  function Unframe(s: JsString, head: JsString, tail: JsString): (r: Option<JsString>)
    ensures r.Some? ==> s == head + r.value + tail
  {
    if |head| + |tail| <= |s| && s[..|head|] == head && s[|s| - |tail|..] == tail
    then
      assert s == s[..|head|] + s[|head|..|s| - |tail|] + s[|s| - |tail|..];
      Some(s[|head|..|s| - |tail|])
    else None
  }

  lemma UnframeFramed(head: JsString, body: JsString, tail: JsString)
    ensures Unframe(head + body + tail, head, tail) == Some(body)
  {
    var s := head + body + tail;
    assert s[..|head|] == head;
    assert s[|s| - |tail|..] == tail;
    assert s[|head|..|s| - |tail|] == body;
  }

  /**
   * Reads a script back: it must open with the head for this filter and
   * time and close with the tail for `n` cues, and what lies between
   * must parse as cue blocks.
   */
  function ParseScript(s: JsString, filterType: JsString, generated: JsString, n: nat): Option<seq<seq<JsString>>> {
    match Unframe(s, ScriptHead(filterType, generated), ScriptTail(n))
    case None => None
    case Some(body) => ParseBlocks(body)
  }

  /**
   * For cues collected by the scan, the whole script reads back: its head
   * and its tail, with the count of the cues, are the expected ones, and
   * its statements give, in order, each cue's QLab type, number, name and
   * notes, every literal closed where it should be and decoding to the value.
   */
  lemma ScriptRoundTrip(lines: seq<Line>, filterType: JsString, generated: JsString)
    ensures var cues := CuesOnTab(CuesOf(lines), filterType);
            ParseScript(ScriptText(cues, filterType, generated), filterType, generated, |cues|)
            == Some(QLabRecords(cues))
  {
    var cues := CuesOnTab(CuesOf(lines), filterType);
    CueTypesWellFormed(lines);
    assert forall k :: 0 <= k < |cues| ==> cues[k] in cues;
    BlocksRoundTrip(cues);
  }
}
