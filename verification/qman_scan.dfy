/**
 * The cue detection scan of the cue manager (detectAndCollectCues in
 * QMan.js), stated line by line: how one line of the screenplay is
 * classified, the cues and the current scene after a prefix of the lines,
 * the list of detected cue types and the preference entries registered for
 * new types; then the scan loop itself, proved to compute them. The
 * plugin state it updates belongs to QManSession.CueManager.
 */
module QManScan {
  import opened JsText
  import opened JsValues
  import opened HostDocument
  import opened QManPrefs
  import opened QManGrammar

  /** One collected cue. */
  datatype Cue = Cue(ctype: JsString, number: JsString, name: JsString, lineIndex: int, scene: JsString, isWrapped: bool)

  /** What the scan makes of one line. */
  datatype LineKind = Skip | Heading(scene: JsString) | Cued(m: CueMatch, wrapped: bool)

  const DOT: CodeUnit := '.' as int
  const UNKNOWN: JsString := Str("Unknown")
  const NOT_AVAILABLE: JsString := Str("N/A")

  /**
   * `toUpperCase` as far as the heading test can see it. Only a code unit
   * whose upper case starts with one of I, N, T, E, X, `/`, `.` can take
   * part in a match of the five heading prefixes: the ASCII letters, the
   * dotless i (U+0131, upper case `I`) and t with diaeresis (U+1E97, upper
   * case `T` followed by U+0308). Every other code unit is kept, which
   * decides those prefixes exactly as its real upper case would.
   */
  function UpperUnit(c: CodeUnit): (r: JsString)
    ensures |r| >= 1
  {
    if IsLower(c) then [c - 32]
    else if c == 0x0131 then ['I' as int]
    else if c == 0x1E97 then ['T' as int, 0x0308]
    else [c]
  }

  function HeadingUpper(s: JsString): (r: JsString)
    ensures |r| >= |s|
  {
    if s == [] then [] else UpperUnit(s[0]) + HeadingUpper(s[1..])
  }

  /** The Fountain heading prefixes, tested on the upper-cased line, and a forced heading: `.` followed by anything but `.`. */
  predicate IsFountainHeading(s: JsString) {
    var u := HeadingUpper(s);
    StartsWith(u, Str("INT.")) || StartsWith(u, Str("EXT.")) || StartsWith(u, Str("INT/EXT"))
    || StartsWith(u, Str("EXT/INT")) || StartsWith(u, Str("I/E"))
    || (s != [] && s[0] == DOT && |s| > 1 && s[1] != DOT)
  }

  /** `/^[\[\!A-Z\.]/`: the only first characters the scan looks at further. */
  predicate MayMatter(c: CodeUnit) { c == LBRACKET || c == BANG || IsUpper(c) || c == DOT }

  /** The type check of the scan: the type equals its upper case and has no lower-case letter. */
  predicate PassesTypeCheck(t: JsString) {
    UpperAscii(t) == t && forall k :: 0 <= k < |t| ==> !IsLower(t[k])
  }

  /** One step of the scan. */
  function Classify(line: Line): (r: LineKind)
    ensures !r.Skip? ==> Trim(line.text) != [] && MayMatter(Trim(line.text)[0])
    ensures r.Cued? ==> !line.isHeading && PassesTypeCheck(r.m.ctype)
  {
    var s := Trim(line.text);
    if s == [] || !MayMatter(s[0]) then Skip
    else if line.isHeading then Heading(s)
    else if IsFountainHeading(s) then Heading(if s[0] == DOT then Trim(s[1..]) else s)
    else ClassifyText(s)
  }

  /** The cue patterns and the type check, on a trimmed line that is no heading. */
  function ClassifyText(s: JsString): LineKind {
    match ParseCueLine(s)
    case None => Skip
    case Some((m, wrapped)) => if PassesTypeCheck(m.ctype) then Cued(m, wrapped) else Skip
  }

  /** The cue pushed for a line that matched as `m`. */
  function MakeCue(m: CueMatch, wrapped: bool, position: int, scene: JsString): (c: Cue)
    ensures c.ctype == m.ctype && c.isWrapped == wrapped && c.lineIndex == position && c.scene == scene
    ensures m.number.None? ==> c.number == NOT_AVAILABLE
    ensures m.number.Some? ==> c.number == m.number.value
    ensures c.name == Trim(m.desc)
  {
    Cue(m.ctype, if m.number.Some? then m.number.value else NOT_AVAILABLE, Trim(m.desc), position, scene, wrapped)
  }

  /** The current scene after the scan has read `lines`. */
  function SceneAfter(lines: seq<Line>): JsString {
    if lines == [] then UNKNOWN
    else
      match Classify(lines[|lines| - 1])
      case Heading(scene) => scene
      case _ => SceneAfter(lines[..|lines| - 1])
  }

  /** The cues the scan has collected after reading `lines`. */
  function CuesOf(lines: seq<Line>): (cues: seq<Cue>)
    ensures |cues| <= |lines|
  {
    if lines == [] then []
    else
      var prev := lines[..|lines| - 1];
      var line := lines[|lines| - 1];
      match Classify(line)
      case Cued(m, wrapped) => CuesOf(prev) + [MakeCue(m, wrapped, line.position, SceneAfter(prev))]
      case _ => CuesOf(prev)
  }

  /** The indices of the lines that yield cues, in order. */
  function CueLineIndices(lines: seq<Line>): seq<nat> {
    if lines == [] then []
    else if Classify(lines[|lines| - 1]).Cued? then CueLineIndices(lines[..|lines| - 1]) + [|lines| - 1]
    else CueLineIndices(lines[..|lines| - 1])
  }

  predicate StrictlyIncreasing(xs: seq<nat>) {
    forall i, j :: 0 <= i < j < |xs| ==> xs[i] < xs[j]
  }

  /** One cue per cue line. */
  lemma {:induction false} CueCount(lines: seq<Line>)
    ensures |CuesOf(lines)| == |CueLineIndices(lines)|
  {
    if lines != [] {
      CueCount(lines[..|lines| - 1]);
    }
  }

  /** The cue lines are listed in increasing order. */
  lemma {:induction false} CueLineIndicesShape(lines: seq<Line>)
    ensures StrictlyIncreasing(CueLineIndices(lines))
    ensures forall k :: 0 <= k < |CueLineIndices(lines)| ==> CueLineIndices(lines)[k] < |lines|
  {
    if lines != [] {
      CueLineIndicesShape(lines[..|lines| - 1]);
    }
  }

  /** `c` is the cue made from line `i`: from its match, at its position, in the scene current just before it. */
  predicate CueFromLine(lines: seq<Line>, i: nat, c: Cue) {
    i < |lines| && Classify(lines[i]).Cued? &&
    c == MakeCue(Classify(lines[i]).m, Classify(lines[i]).wrapped, lines[i].position, SceneAfter(lines[..i]))
  }

  /** Reading more lines does not change what an earlier line made. */
  lemma CueFromLinePrefix(lines: seq<Line>, n: nat, i: nat, c: Cue)
    requires n <= |lines| && CueFromLine(lines[..n], i, c)
    ensures CueFromLine(lines, i, c)
  {
    assert lines[..n][i] == lines[i] && lines[..n][..i] == lines[..i];
  }

  /** The cues come in document order: the k-th cue is made from the k-th cue line. */
  lemma {:induction false} CuesInDocumentOrder(lines: seq<Line>)
    ensures |CuesOf(lines)| == |CueLineIndices(lines)|
    ensures forall k :: 0 <= k < |CueLineIndices(lines)| ==> CueFromLine(lines, CueLineIndices(lines)[k], CuesOf(lines)[k])
  {
    CueCount(lines);
    if lines != [] {
      var n := |lines| - 1;
      var prev := lines[..n];
      CuesInDocumentOrder(prev);
      ScanSnoc(lines, n, Classify(lines[n]));
      assert lines[..n + 1] == lines;
      var ix := CueLineIndices(prev);
      var cues := CuesOf(prev);
      forall k | 0 <= k < |ix|
        ensures CueFromLine(lines, ix[k], cues[k])
      {
        CueFromLinePrefix(lines, n, ix[k], cues[k]);
      }
    }
  }

  /** Every collected cue has a type of the form `[A-Z][A-Z0-9]*`. */
  lemma {:induction false} CueTypesWellFormed(lines: seq<Line>)
    ensures forall c :: c in CuesOf(lines) ==> IsCueType(c.ctype)
  {
    if lines != [] {
      var prev := lines[..|lines| - 1];
      CueTypesWellFormed(prev);
      var line := lines[|lines| - 1];
      if Classify(line).Cued? {
        var s := Trim(line.text);
        assert Classify(line) == ClassifyText(s);
        assert IsCueType(ParseCueLine(s).value.0.ctype);
      }
    }
  }

  /** A scan that meets no heading stays in scene "Unknown". */
  lemma {:induction false} SceneWithoutHeading(lines: seq<Line>)
    requires forall i :: 0 <= i < |lines| ==> !Classify(lines[i]).Heading?
    ensures SceneAfter(lines) == UNKNOWN
  {
    if lines != [] {
      SceneWithoutHeading(lines[..|lines| - 1]);
    }
  }

  /** Otherwise the current scene is the one named by the last heading. */
  lemma {:induction false} SceneIsLastHeading(lines: seq<Line>, j: nat)
    requires j < |lines| && Classify(lines[j]).Heading?
    requires forall i :: j < i < |lines| ==> !Classify(lines[i]).Heading?
    ensures SceneAfter(lines) == Classify(lines[j]).scene
  {
    if j < |lines| - 1 {
      SceneIsLastHeading(lines[..|lines| - 1], j);
    }
  }

  /** A line that starts with `.` (and is not `..`) names the scene after the dot, trimmed. */
  lemma DotHeadingScene(line: Line)
    requires !line.isHeading
    requires var s := Trim(line.text); |s| > 1 && s[0] == DOT && s[1] != DOT
    ensures Classify(line) == Heading(Trim(Trim(line.text)[1..]))
  {
  }

  /** The first characters of a cue line, wrapped or not. */
  lemma CueLineStart(s: JsString)
    requires ParseCueLine(s).Some?
    ensures s != [] && (s[0] == LBRACKET || s[0] == BANG || IsUpper(s[0]))
  {
    if MatchBare(s).None? {
      assert MatchNote(s).Some?;
    }
  }

  /**
   * A non-empty trimmed line that is no heading yields a cue exactly when
   * the bare or the wrapped pattern matches it, with the captured type,
   * number (or "N/A") and trimmed text, and isWrapped set only for the
   * wrapped form.
   */
  lemma ClassifyCue(line: Line)
    requires !line.isHeading && !IsFountainHeading(Trim(line.text))
    ensures Classify(line).Cued? <==> ParseCueLine(Trim(line.text)).Some?
    ensures Classify(line).Cued? ==> (Classify(line).m, Classify(line).wrapped) == ParseCueLine(Trim(line.text)).value
    ensures Classify(line).Cued? && Classify(line).wrapped ==> MatchNote(Trim(line.text)).Some?
    ensures Classify(line).Cued? && !Classify(line).wrapped ==> MatchBare(Trim(line.text)).Some?
  {
    var s := Trim(line.text);
    if ParseCueLine(s).Some? {
      CueLineStart(s);
      assert MayMatter(s[0]);
      var m := ParseCueLine(s).value.0;
      MatchedTypeIsUpper(m.ctype);
      assert Classify(line) == ClassifyText(s);
    }
  }

  // ---------------------------------------------------------------------
  // Detected types
  // ---------------------------------------------------------------------

  function TypesOf(cues: seq<Cue>): (ts: seq<JsString>)
    ensures |ts| == |cues| && forall k :: 0 <= k < |cues| ==> ts[k] == cues[k].ctype
  {
    seq(|cues|, k requires 0 <= k < |cues| => cues[k].ctype)
  }

  /** The list `detectedTypes` builds: each value once, where it first appears. */
  function Dedup(ts: seq<JsString>): (d: seq<JsString>)
    ensures forall t :: t in d <==> t in ts
  {
    if ts == [] then []
    else
      var prev := Dedup(ts[..|ts| - 1]);
      assert ts == ts[..|ts| - 1] + [ts[|ts| - 1]];
      if ts[|ts| - 1] in prev then prev else prev + [ts[|ts| - 1]]
  }

  /** Where a value first appears. */
  function FirstIndex(ts: seq<JsString>, t: JsString): (i: nat)
    requires t in ts
    ensures i < |ts| && ts[i] == t && forall k :: 0 <= k < i ==> ts[k] != t
  {
    if ts[0] == t then 0 else 1 + FirstIndex(ts[1..], t)
  }

  /** FirstIndex does not change when values are appended. */
  lemma FirstIndexPrefix(ts: seq<JsString>, u: seq<JsString>, t: JsString)
    requires t in ts
    ensures FirstIndex(ts + u, t) == FirstIndex(ts, t)
  {
    var i := FirstIndex(ts, t);
    var v := ts + u;
    assert v[i] == t;
    assert forall k :: 0 <= k < i ==> v[k] == ts[k];
    FirstIndexUnique(v, t, i);
  }

  lemma {:induction false} FirstIndexUnique(ts: seq<JsString>, t: JsString, i: nat)
    requires i < |ts| && ts[i] == t && forall k :: 0 <= k < i ==> ts[k] != t
    ensures FirstIndex(ts, t) == i
  {
    if i > 0 {
      assert ts[1..][i - 1] == t;
      FirstIndexUnique(ts[1..], t, i - 1);
    }
  }

  /** detectedTypes has no duplicates and lists the types in order of first appearance. */
  lemma {:induction false} DedupOrder(ts: seq<JsString>)
    ensures NoDuplicates(Dedup(ts))
    ensures forall i, j :: 0 <= i < j < |Dedup(ts)| ==> FirstIndex(ts, Dedup(ts)[i]) < FirstIndex(ts, Dedup(ts)[j])
  {
    if ts != [] {
      var prev := ts[..|ts| - 1];
      var t := ts[|ts| - 1];
      DedupOrder(prev);
      assert ts == prev + [t];
      forall x | x in prev
        ensures FirstIndex(ts, x) == FirstIndex(prev, x)
      {
        FirstIndexPrefix(prev, [t], x);
      }
      if t !in Dedup(prev) {
        assert t !in prev;
        FirstIndexUnique(ts, t, |ts| - 1);
        forall x | x in prev
          ensures FirstIndex(ts, x) < |ts| - 1
        {
        }
      }
    }
  }

  // ---------------------------------------------------------------------
  // Preference entries for new types
  // ---------------------------------------------------------------------

  /** The entry the scan writes for a new type: default colour, enabled, flags from the global settings (`|| false`). */
  function NewTypeEntry(prefs: map<JsString, JsValue>, t: JsString): JsValue {
    TypeEntry(DefaultColor(t), true,
              Or(Prop(JObject(prefs), GLOBAL_HIGHLIGHT), JBool(false)),
              Or(Prop(JObject(prefs), GLOBAL_HIDE), JBool(false)))
  }

  /** `if (!cuePreferences[cueType]) cuePreferences[cueType] = {...}`. */
  function RegisterType(prefs: map<JsString, JsValue>, t: JsString): (r: map<JsString, JsValue>)
    ensures t in r && Truthy(r[t])
    ensures forall k :: k != t ==> (k in r <==> k in prefs) && (k in prefs ==> r[k] == prefs[k])
  {
    if Truthy(Prop(JObject(prefs), t)) then prefs else prefs[t := NewTypeEntry(prefs, t)]
  }

  /** The preferences after the scan has registered the types `ts`, one after the other. */
  function RegisterTypes(prefs: map<JsString, JsValue>, ts: seq<JsString>): (r: map<JsString, JsValue>)
    ensures forall k :: k in prefs ==> k in r
    ensures forall t :: t in ts ==> t in r && Truthy(r[t])
  {
    if ts == [] then prefs
    else
      assert ts == ts[..|ts| - 1] + [ts[|ts| - 1]];
      RegisterType(RegisterTypes(prefs, ts[..|ts| - 1]), ts[|ts| - 1])
  }

  /**
   * Every registered type ends up with a (truthy) entry; an entry that was
   * already truthy, and every key that is not one of the types, keeps its
   * value.
   */
  lemma {:induction false} RegisterTypesSpec(prefs: map<JsString, JsValue>, ts: seq<JsString>)
    ensures forall t :: t in ts ==> t in RegisterTypes(prefs, ts) && Truthy(RegisterTypes(prefs, ts)[t])
    ensures forall k :: k in prefs && Truthy(prefs[k]) ==> k in RegisterTypes(prefs, ts) && RegisterTypes(prefs, ts)[k] == prefs[k]
    ensures forall k :: k !in ts ==> (k in RegisterTypes(prefs, ts) <==> k in prefs)
    ensures forall k :: k !in ts && k in prefs ==> RegisterTypes(prefs, ts)[k] == prefs[k]
  {
    RegisterTypesEntries(prefs, ts);
    RegisterTypesFrame(prefs, ts);
  }

  lemma {:induction false} RegisterTypesEntries(prefs: map<JsString, JsValue>, ts: seq<JsString>)
    ensures forall t :: t in ts ==> t in RegisterTypes(prefs, ts) && Truthy(RegisterTypes(prefs, ts)[t])
  {
    if ts != [] {
      var prev := ts[..|ts| - 1];
      RegisterTypesEntries(prefs, prev);
      assert forall t :: t in ts ==> t in prev || t == ts[|ts| - 1];
    }
  }

  lemma {:induction false} RegisterTypesFrame(prefs: map<JsString, JsValue>, ts: seq<JsString>)
    ensures forall k :: k in prefs && Truthy(prefs[k]) ==> k in RegisterTypes(prefs, ts) && RegisterTypes(prefs, ts)[k] == prefs[k]
    ensures forall k :: k !in ts ==> (k in RegisterTypes(prefs, ts) <==> k in prefs)
    ensures forall k :: k !in ts && k in prefs ==> RegisterTypes(prefs, ts)[k] == prefs[k]
  {
    if ts != [] {
      var prev := ts[..|ts| - 1];
      RegisterTypesFrame(prefs, prev);
      assert forall k :: k !in ts ==> k !in prev && k != ts[|ts| - 1];
    }
  }

  /** A cue type is never one of the global settings (those start with a lower-case letter). */
  lemma CueTypeNotReserved(t: JsString)
    requires IsCueType(t)
    ensures !IsReservedKey(t)
  {
    assert THEME[0] == 't' as int && SHOW_SCENE_CONTEXT[0] == 's' as int;
    assert GLOBAL_HIGHLIGHT[0] == 'g' as int && GLOBAL_HIDE[0] == 'g' as int;
  }

  /** One registration keeps the preferences valid and leaves the global settings alone. */
  lemma RegisterTypeValid(prefs: map<JsString, JsValue>, t: JsString)
    requires IsValidPreferences(JObject(prefs))
    requires UndefinedOrBool(Prop(JObject(prefs), GLOBAL_HIGHLIGHT)) && UndefinedOrBool(Prop(JObject(prefs), GLOBAL_HIDE))
    requires IsCueType(t)
    ensures IsValidPreferences(JObject(RegisterType(prefs, t)))
    ensures forall k :: IsReservedKey(k) ==> Prop(JObject(RegisterType(prefs, t)), k) == Prop(JObject(prefs), k)
  {
    CueTypeNotReserved(t);
    if !Truthy(Prop(JObject(prefs), t)) {
      NewTypeEntryOk(prefs, t);
      AddEntryValid(prefs, t, NewTypeEntry(prefs, t));
    }
  }

  /** The entry written for a new type passes validation when both global flags are booleans (or unset). */
  lemma NewTypeEntryOk(prefs: map<JsString, JsValue>, t: JsString)
    requires UndefinedOrBool(Prop(JObject(prefs), GLOBAL_HIGHLIGHT)) && UndefinedOrBool(Prop(JObject(prefs), GLOBAL_HIDE))
    ensures EntryOk(NewTypeEntry(prefs, t))
  {
    TypeEntryOk(DefaultColor(t), true, Or(Prop(JObject(prefs), GLOBAL_HIGHLIGHT), JBool(false)),
                Or(Prop(JObject(prefs), GLOBAL_HIDE), JBool(false)));
  }

  /** When both global flags are booleans (or unset), registering cue types keeps the preferences valid. */
  lemma {:induction false} RegisterTypesValid(prefs: map<JsString, JsValue>, ts: seq<JsString>)
    requires IsValidPreferences(JObject(prefs))
    requires UndefinedOrBool(Prop(JObject(prefs), GLOBAL_HIGHLIGHT)) && UndefinedOrBool(Prop(JObject(prefs), GLOBAL_HIDE))
    requires forall t :: t in ts ==> IsCueType(t)
    ensures IsValidPreferences(JObject(RegisterTypes(prefs, ts)))
    ensures forall k :: IsReservedKey(k) ==> Prop(JObject(RegisterTypes(prefs, ts)), k) == Prop(JObject(prefs), k)
  {
    if ts != [] {
      var prev := ts[..|ts| - 1];
      RegisterTypesValid(prefs, prev);
      RegisterTypeValid(RegisterTypes(prefs, prev), ts[|ts| - 1]);
    }
  }

  // ---------------------------------------------------------------------
  // The scan loop
  // ---------------------------------------------------------------------

  /**
   * The loop of detectAndCollectCues over the lines the editor hands over:
   * the cues in document order, the types in order of first appearance,
   * and the preferences with an entry for each new type; `saved` tells
   * whether an entry was added (the scan saves the preferences then).
   */
  method ScanLines(lines: seq<Line>, prefs0: map<JsString, JsValue>)
    returns (detectedTypes: seq<JsString>, allCues: seq<Cue>, prefs: map<JsString, JsValue>, saved: bool)
    ensures allCues == CuesOf(lines)
    ensures detectedTypes == Dedup(TypesOf(allCues))
    ensures prefs == RegisterTypes(prefs0, detectedTypes)
    ensures saved <==> prefs != prefs0
  {
    detectedTypes := [];
    allCues := [];
    prefs := prefs0;
    saved := false;
    var currentScene := UNKNOWN;
    var i := 0;
    while i < |lines|
      invariant 0 <= i <= |lines|
      invariant allCues == CuesOf(lines[..i]) && currentScene == SceneAfter(lines[..i])
      invariant detectedTypes == Dedup(TypesOf(allCues))
      invariant prefs == RegisterTypes(prefs0, detectedTypes)
      invariant saved <==> prefs != prefs0
    {
      var line := lines[i];
      var kind := Classify(line);
      ScanSnoc(lines, i, kind);
      match kind {
        case Skip =>
        case Heading(scene) =>
          currentScene := scene;
        case Cued(m, wrapped) =>
          var cue := MakeCue(m, wrapped, line.position, currentScene);
          allCues, detectedTypes, prefs, saved := CollectCue(prefs0, allCues, detectedTypes, prefs, saved, cue);
      }
      i := i + 1;
    }
    assert lines[..|lines|] == lines;
  }

  /**
   * The scan's handling of a cue: its type is added to the detected types
   * (and registered) when it is new, and the cue is collected.
   */
  method CollectCue(prefs0: map<JsString, JsValue>, cues: seq<Cue>, types: seq<JsString>, prefs: map<JsString, JsValue>,
                    saved: bool, cue: Cue)
    returns (cues': seq<Cue>, types': seq<JsString>, prefs': map<JsString, JsValue>, saved': bool)
    requires types == Dedup(TypesOf(cues)) && prefs == RegisterTypes(prefs0, types) && (saved <==> prefs != prefs0)
    ensures cues' == cues + [cue]
    ensures types' == Dedup(TypesOf(cues')) && prefs' == RegisterTypes(prefs0, types') && (saved' <==> prefs' != prefs0)
  {
    TypesSnoc(cues, cue);
    DedupSnoc(TypesOf(cues), cue.ctype);
    types', prefs', saved' := types, prefs, saved;
    if cue.ctype !in types {
      prefs', saved' := RegisterNewType(prefs0, types, prefs, saved, cue.ctype);
      types' := types + [cue.ctype];
    }
    cues' := cues + [cue];
  }

  /**
   * The scan's handling of a type seen for the first time: when the
   * preferences have no truthy entry for it, it gets the default one
   * (and the preferences are to be saved).
   */
  method RegisterNewType(prefs0: map<JsString, JsValue>, ts: seq<JsString>, prefs: map<JsString, JsValue>,
                         saved: bool, t: JsString)
    returns (prefs': map<JsString, JsValue>, saved': bool)
    requires prefs == RegisterTypes(prefs0, ts) && (saved <==> prefs != prefs0)
    ensures prefs' == RegisterTypes(prefs0, ts + [t]) && (saved' <==> prefs' != prefs0)
  {
    RegisterTypesSnoc(prefs0, ts, t);
    prefs' := prefs;
    saved' := saved;
    if !Truthy(Prop(JObject(prefs), t)) {
      RegisterTypesKeepTruthy(prefs0, ts, t);
      var color := DefaultColorForType(t);
      prefs' := prefs[t := TypeEntry(color, true,
                                     Or(Prop(JObject(prefs), GLOBAL_HIGHLIGHT), JBool(false)),
                                     Or(Prop(JObject(prefs), GLOBAL_HIDE), JBool(false)))];
      saved' := true;
    }
  }

  // -------------------------------------------------------------------
  // Proof steps of the scan
  // -------------------------------------------------------------------

  /** The cues and the scene after one more line, of kind `kind`. */
  lemma ScanSnoc(lines: seq<Line>, i: nat, kind: LineKind)
    requires i < |lines| && kind == Classify(lines[i])
    ensures kind.Cued? ==> CuesOf(lines[..i + 1]) == CuesOf(lines[..i]) + [MakeCue(kind.m, kind.wrapped, lines[i].position, SceneAfter(lines[..i]))]
    ensures !kind.Cued? ==> CuesOf(lines[..i + 1]) == CuesOf(lines[..i])
    ensures kind.Heading? ==> SceneAfter(lines[..i + 1]) == kind.scene
    ensures !kind.Heading? ==> SceneAfter(lines[..i + 1]) == SceneAfter(lines[..i])
  {
    assert lines[..i + 1][..i] == lines[..i];
  }

  lemma TypesSnoc(cues: seq<Cue>, c: Cue)
    ensures TypesOf(cues + [c]) == TypesOf(cues) + [c.ctype]
  {
  }

  lemma DedupSnoc(ts: seq<JsString>, t: JsString)
    ensures Dedup(ts + [t]) == if t in Dedup(ts) then Dedup(ts) else Dedup(ts) + [t]
  {
    assert (ts + [t])[..|ts|] == ts;
  }

  lemma RegisterTypesSnoc(prefs: map<JsString, JsValue>, ts: seq<JsString>, t: JsString)
    ensures RegisterTypes(prefs, ts + [t]) == RegisterType(RegisterTypes(prefs, ts), t)
  {
    assert (ts + [t])[..|ts|] == ts;
  }

  /** A key whose entry is still falsy after the registrations had no truthy entry before them. */
  lemma RegisterTypesKeepTruthy(prefs: map<JsString, JsValue>, ts: seq<JsString>, t: JsString)
    requires !Truthy(Prop(JObject(RegisterTypes(prefs, ts)), t))
    ensures !Truthy(Prop(JObject(prefs), t))
  {
    RegisterTypesSpec(prefs, ts);
  }
}
