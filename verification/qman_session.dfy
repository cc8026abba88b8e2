/**
 * The cue manager's state (QMan.js): its preferences and their stored
 * copy, the detected cue types and the collected cues, and the document it
 * works on; with the operations that change them: loading and saving the
 * preferences, the detection scan, renumbering and applying new
 * preferences, which wraps or unwraps cue lines when a hide flag changes.
 */
module QManSession {
  import opened JsText
  import opened JsValues
  import opened QManPrefs
  import opened QManGrammar
  import opened QManScan
  import opened TextEdits
  import opened QManRewrite
  import opened HostDocument

  const ALL: JsString := Str("ALL")

  /** `cues.filter(c => c.type === t)`. */
  function OfType(cues: seq<Cue>, t: JsString): (r: seq<Cue>)
    ensures |r| <= |cues|
    ensures forall c :: c in r <==> c in cues && c.ctype == t
  {
    if cues == [] then []
    else
      var prev := OfType(cues[..|cues| - 1], t);
      var c := cues[|cues| - 1];
      assert cues == cues[..|cues| - 1] + [c];
      if c.ctype == t then prev + [c] else prev
  }

  /** The cues a tab lists and its actions (renumber, the exports) work on: all of them on the `ALL` tab, else those of the tab's type. */
  function CuesOnTab(cues: seq<Cue>, filterType: JsString): (r: seq<Cue>)
    ensures |r| <= |cues| && forall c :: c in r ==> c in cues && (filterType != ALL ==> c.ctype == filterType)
  {
    if filterType == ALL then cues else OfType(cues, filterType)
  }

  /** The scanned cues sit, in order, on the lines that yield them. */
  lemma ScannedOnLines(lines: seq<Line>) returns (ix: seq<nat>)
    ensures OnAscendingLines(lines, CuesOf(lines), ix)
  {
    ix := CueLineIndices(lines);
    CueLineIndicesShape(lines);
    CuesInDocumentOrder(lines);
  }

  /** The cues a type filter keeps sit on a sub-list of the same ascending lines. */
  lemma {:induction false} OfTypeOnLines(lines: seq<Line>, cues: seq<Cue>, ix: seq<nat>, t: JsString) returns (iy: seq<nat>)
    requires OnAscendingLines(lines, cues, ix)
    ensures OnAscendingLines(lines, OfType(cues, t), iy)
    ensures forall k :: 0 <= k < |iy| ==> iy[k] in ix
  {
    if cues == [] {
      iy := [];
    } else {
      var n := |cues| - 1;
      assert OnAscendingLines(lines, cues[..n], ix[..n]);
      var prev := OfTypeOnLines(lines, cues[..n], ix[..n], t);
      if cues[n].ctype == t {
        iy := prev + [ix[n]];
        forall a, b | 0 <= a < b < |iy|
          ensures iy[a] < iy[b]
        {
          if b == |prev| {
            assert iy[a] in ix[..n];
          }
        }
      } else {
        iy := prev;
      }
    }
  }

  /**
   * On a document whose lines lie in order inside the text, the renumber
   * edits of a tab of freshly scanned cues fit: renumbering makes them all.
   */
  lemma RenumberEditsFit(text: JsString, lines: seq<Line>, filterType: JsString)
    requires LaidOut(text, lines)
    ensures var es := RenumberEdits(text, lines, CuesOnTab(CuesOf(lines), filterType));
            RawWithin(lines) && Fits(|text|, es, 0, |es|, 0)
  {
    var ix := ScannedOnLines(lines);
    if filterType != ALL {
      ix := OfTypeOnLines(lines, CuesOf(lines), ix, filterType);
    }
    var cues := CuesOnTab(CuesOf(lines), filterType);
    RenumberEditsFitOn(text, lines, cues, ix);
  }

  /** Merging valid stored preferences over valid ones keeps them valid; stored entries win. */
  lemma MergeValid(prefs: map<JsString, JsValue>, parsed: JsValue)
    requires IsValidPreferences(JObject(prefs)) && IsValidPreferences(parsed)
    ensures IsValidPreferences(JObject(prefs + OwnProps(parsed)))
    ensures prefs.Keys <= (prefs + OwnProps(parsed)).Keys
    ensures forall k :: k in OwnProps(parsed) ==> (prefs + OwnProps(parsed))[k] == OwnProps(parsed)[k]
  {
    var m := prefs + OwnProps(parsed);
    if THEME in OwnProps(parsed) {
      assert Prop(JObject(m), THEME) == Prop(parsed, THEME);
    } else {
      assert Prop(JObject(m), THEME) == Prop(JObject(prefs), THEME);
    }
  }

  class CueManager {
    /** `cuePreferences`. */
    var prefs: map<JsString, JsValue>
    /** The user default `qman_preferences`, as JSON.parse reads it back (None when nothing is stored). */
    var stored: Option<JsValue>
    /** `detectedCueTypes`. */
    var detectedCueTypes: seq<JsString>
    /** `collectedCues`. */
    var collectedCues: seq<Cue>
    /** The document of the editor. */
    const doc: Document

    constructor(doc: Document, stored: Option<JsValue>)
      ensures this.doc == doc && this.stored == stored
      ensures prefs == DefaultPreferences() && detectedCueTypes == [] && collectedCues == []
    {
      this.doc := doc;
      this.stored := stored;
      prefs := DefaultPreferences();
      detectedCueTypes := [];
      collectedCues := [];
    }

    /** loadPreferences: valid stored preferences are merged over the current ones. */
    method LoadPreferences()
      modifies this
      ensures old(stored).Some? && IsValidPreferences(old(stored).value) ==> prefs == old(prefs) + OwnProps(old(stored).value)
      ensures !(old(stored).Some? && IsValidPreferences(old(stored).value)) ==> prefs == old(prefs)
      ensures stored == old(stored) && detectedCueTypes == old(detectedCueTypes) && collectedCues == old(collectedCues)
    {
      if stored.Some? {
        var parsed := stored.value;
        var valid := ValidatePreferences(parsed);
        if valid {
          prefs := prefs + OwnProps(parsed);
        }
      }
    }

    /** savePreferences. */
    method SavePreferences()
      modifies this
      ensures stored == Some(JObject(prefs))
      ensures prefs == old(prefs) && detectedCueTypes == old(detectedCueTypes) && collectedCues == old(collectedCues)
    {
      stored := Some(JObject(prefs));
    }

    /**
     * detectAndCollectCues: the scan, with the new preference entries saved,
     * and `detectedCueTypes` set to the types found. The collected cues are
     * returned; storing them is up to the caller.
     */
    method DetectAndCollectCues(lines: seq<Line>) returns (detectedTypes: seq<JsString>, allCues: seq<Cue>)
      modifies this
      ensures allCues == CuesOf(lines)
      ensures detectedTypes == Dedup(TypesOf(allCues)) && detectedCueTypes == detectedTypes
      ensures prefs == RegisterTypes(old(prefs), detectedTypes)
      ensures stored == if prefs == old(prefs) then old(stored) else Some(JObject(prefs))
      ensures collectedCues == old(collectedCues)
    {
      var newPrefs, saved;
      detectedTypes, allCues, newPrefs, saved := ScanLines(lines, prefs);
      prefs := newPrefs;
      if saved {
        SavePreferences();
      }
      detectedCueTypes := detectedTypes;
    }

    /** The line search of renumber: the first line whose position is the cue's. */
    static method FindLineAt(lines: seq<Line>, position: int) returns (found: Option<nat>)
      ensures found == FindLine(lines, position)
    {
      var j := 0;
      while j < |lines|
        invariant 0 <= j <= |lines|
        invariant forall k :: 0 <= k < j ==> lines[k].position != position
      {
        if lines[j].position == position {
          return Some(j);
        }
        j := j + 1;
      }
      return None;
    }

    /**
     * renumber: numbers the cues of the tab 1, 2, 3, ... by rewriting their
     * lines from the last to the first, then scans the edited document
     * (whose lines the editor hands over as `linesAfter`). A replacement
     * the editor refuses stops the rewrite before the scan.
     */
    method Renumber(filterType: JsString, lines: seq<Line>, linesAfter: seq<Line>) returns (ok: bool)
      modifies this, doc
      ensures CuesOnTab(old(collectedCues), filterType) == [] ==>
                ok && doc.text == old(doc.text) && prefs == old(prefs) && stored == old(stored)
                && collectedCues == old(collectedCues) && detectedCueTypes == old(detectedCueTypes)
      ensures var es := RenumberEdits(old(doc.text), lines, CuesOnTab(old(collectedCues), filterType));
              RawWithin(lines) && Fits(|old(doc.text)|, es, 0, |es|, 0) ==>
                ok && doc.text == ApplyAll(old(doc.text), es)
      ensures var es := RenumberEdits(old(doc.text), lines, CuesOnTab(old(collectedCues), filterType));
              LaidOut(old(doc.text), lines) && old(collectedCues) == CuesOf(lines) ==>
                Fits(|old(doc.text)|, es, 0, |es|, 0) && ok && doc.text == ApplyAll(old(doc.text), es)
      ensures ok && CuesOnTab(old(collectedCues), filterType) != [] ==>
                collectedCues == CuesOf(linesAfter) && detectedCueTypes == Dedup(TypesOf(collectedCues))
                && prefs == RegisterTypes(old(prefs), detectedCueTypes)
                && stored == (if prefs == old(prefs) then old(stored) else Some(JObject(prefs)))
      ensures !ok ==> prefs == old(prefs) && stored == old(stored)
                      && collectedCues == old(collectedCues) && detectedCueTypes == old(detectedCueTypes)
    {
      ok := true;
      var cues := CuesOnTab(collectedCues, filterType);
      if LaidOut(doc.text, lines) && collectedCues == CuesOf(lines) {
        RenumberEditsFit(doc.text, lines, filterType);
      }
      if cues == [] {
        return;
      }
      ok := RenumberLines(cues, lines);
      if !ok {
        return;
      }
      var detectedTypes, allCues := DetectAndCollectCues(linesAfter);
      collectedCues := allCues;
    }

    /**
     * The rewrite loop of renumber: cue i (counting from 0) gets number
     * i + 1, from the last cue to the first, so that the positions of the
     * cues not yet rewritten stay valid. When the cue lines lie within their
     * ranges and the edits do not overlap, which is so for a tab of a fresh
     * scan of lines laid out in order, every replacement is accepted and
     * the document ends up with all the edits made.
     */
    method RenumberLines(cues: seq<Cue>, lines: seq<Line>) returns (ok: bool)
      modifies doc
      ensures var es := RenumberEdits(old(doc.text), lines, cues);
              RawWithin(lines) && Fits(|old(doc.text)|, es, 0, |es|, 0) ==>
                ok && doc.text == ApplyAll(old(doc.text), es)
      ensures var es := RenumberEdits(old(doc.text), lines, cues);
              LaidOut(old(doc.text), lines) && (exists f :: cues == CuesOnTab(CuesOf(lines), f)) ==>
                Fits(|old(doc.text)|, es, 0, |es|, 0) && ok && doc.text == ApplyAll(old(doc.text), es)
    {
      ok := true;
      if LaidOut(doc.text, lines) && exists f :: cues == CuesOnTab(CuesOf(lines), f) {
        var f :| cues == CuesOnTab(CuesOf(lines), f);
        RenumberEditsFit(doc.text, lines, f);
      }
      ghost var text0 := doc.text;
      ghost var es := RenumberEdits(text0, lines, cues);
      ghost var fits := RawWithin(lines) && Fits(|text0|, es, 0, |es|, 0);
      var i := |cues|;
      while i > 0
        modifies doc
        invariant 0 <= i <= |cues| && ok
        invariant fits ==> Fits(|text0|, es, i, |es|, 0) && doc.text == Apply(text0, es, i, |es|, 0)
      {
        i := i - 1;
        RenumberEditsAt(text0, lines, cues, i);
        ok := RenumberCue(cues, lines, i, text0, es, fits);
        if !ok {
          return;
        }
      }
    }

    /** One cue of the rewrite loop of renumber: its line, if it finds one, gets the number i + 1. */
    method RenumberCue(cues: seq<Cue>, lines: seq<Line>, i: nat, ghost text0: JsString, ghost es: seq<Option<Edit<CodeUnit>>>,
                       ghost fits: bool)
      returns (ok: bool)
      modifies doc
      requires i < |cues| == |es| && es[i] == RenumberEdit(text0, lines, cues[i], i + 1)
      requires fits ==> RawWithin(lines) && Fits(|text0|, es, 0, |es|, 0)
      requires fits ==> Fits(|text0|, es, i + 1, |es|, 0) && doc.text == Apply(text0, es, i + 1, |es|, 0)
      ensures fits ==> ok && Fits(|text0|, es, i, |es|, 0) && doc.text == Apply(text0, es, i, |es|, 0)
    {
      var found := FindLineAt(lines, cues[i].lineIndex);
      if found.Some? {
        var newLine := RenumberText(lines[found.value].text, i + 1);
        ok := ReplaceInPlace(lines, found.value, newLine, i, text0, es, fits);
      } else {
        ok := true;
        if fits {
          InFrontSkip(text0, es, i, doc.text);
        }
      }
    }

    /**
     * Gives line `j` its new text, if any, in its original place; the edits
     * are made from the last to the first, so `es[i]` is the one for this
     * line and those after it are made already.
     */
    method ReplaceInPlace(lines: seq<Line>, j: nat, newLine: Option<JsString>, i: nat,
                          ghost text0: JsString, ghost es: seq<Option<Edit<CodeUnit>>>, ghost fits: bool)
      returns (ok: bool)
      modifies doc
      requires j < |lines| && i < |es| && es[i] == LineEdit(text0, lines, j, newLine)
      requires fits ==> RawWithin(lines) && Fits(|text0|, es, 0, |es|, 0)
      requires fits ==> Fits(|text0|, es, i + 1, |es|, 0) && doc.text == Apply(text0, es, i + 1, |es|, 0)
      ensures fits ==> ok && Fits(|text0|, es, i, |es|, 0) && doc.text == Apply(text0, es, i, |es|, 0)
    {
      ok := true;
      ghost var cur := doc.text;
      if newLine.Some? {
        var line := lines[j];
        var len := LineLength(lines, j);
        var lineEnding := LineEnding(doc.text, line.position, |line.text|, len);
        ghost var next := cur;
        if fits {
          ghost var e := es[i].value;
          InFrontStep(text0, es, i, cur, |line.text|, e);
          assert e.pos == line.position && e.len == len && e.repl == newLine.value + lineEnding;
          next := Apply(text0, es, i, |es|, 0);
        }
        ok := doc.ReplaceRange(line.position, len, newLine.value + lineEnding);
        if !ok {
          return;
        }
        assert fits ==> doc.text == next;
      } else if fits {
        InFrontSkip(text0, es, i, cur);
      }
    }

    /**
     * wrapUnwrapCuesByType: walks the lines from the first to the last and
     * wraps the bare cues of each type whose hide flag became truthy in
     * `[[ ]]`, and unwraps the wrapped cues of each type whose flag became
     * falsy, then scans the edited document. The editor moves the positions
     * of the lines after an edit by the length the edit added; `shift` is
     * that displacement for the lines not yet visited.
     */
    method WrapUnwrap(oldPrefs: map<JsString, JsValue>, newPrefs: map<JsString, JsValue>, lines: seq<Line>, linesAfter: seq<Line>)
      returns (ok: bool)
      modifies this, doc
      ensures var es := WrapEdits(old(doc.text), lines, oldPrefs, newPrefs);
              LaidOut(old(doc.text), lines) ==>
                Fits(|old(doc.text)|, es, 0, |es|, 0) && ok && doc.text == ApplyAll(old(doc.text), es)
      ensures ok ==> collectedCues == CuesOf(linesAfter) && detectedCueTypes == Dedup(TypesOf(collectedCues))
                     && prefs == RegisterTypes(old(prefs), detectedCueTypes)
                     && stored == (if prefs == old(prefs) then old(stored) else Some(JObject(prefs)))
      ensures !ok ==> prefs == old(prefs) && stored == old(stored)
                      && collectedCues == old(collectedCues) && detectedCueTypes == old(detectedCueTypes)
    {
      ok := WrapLines(oldPrefs, newPrefs, lines);
      if !ok {
        return;
      }
      var detectedTypes, allCues := DetectAndCollectCues(linesAfter);
      collectedCues := allCues;
    }

    /**
     * The rewrite loop of wrapUnwrapCuesByType, from the first line to the
     * last. When the lines are laid out in order within the document, the
     * edits do not overlap, every replacement is accepted and the document
     * ends up with all the edits made.
     */
    method WrapLines(oldPrefs: map<JsString, JsValue>, newPrefs: map<JsString, JsValue>, lines: seq<Line>) returns (ok: bool)
      modifies doc
      ensures var es := WrapEdits(old(doc.text), lines, oldPrefs, newPrefs);
              LaidOut(old(doc.text), lines) ==>
                Fits(|old(doc.text)|, es, 0, |es|, 0) && ok && doc.text == ApplyAll(old(doc.text), es)
    {
      ghost var text0 := doc.text;
      ghost var es := WrapEdits(text0, lines, oldPrefs, newPrefs);
      ghost var fits := LaidOut(text0, lines);
      if fits {
        WrapEditsFit(text0, lines, oldPrefs, newPrefs);
      }
      ok := WrapLoop(oldPrefs, newPrefs, lines, text0, es, fits);
    }

    /** The loop of WrapLines, over the edits `es` it makes on the text `text0` it starts from. */
    method WrapLoop(oldPrefs: map<JsString, JsValue>, newPrefs: map<JsString, JsValue>, lines: seq<Line>,
                    ghost text0: JsString, ghost es: seq<Option<Edit<CodeUnit>>>, ghost fits: bool)
      returns (ok: bool)
      modifies doc
      requires doc.text == text0 && es == WrapEdits(text0, lines, oldPrefs, newPrefs)
      requires fits ==> RawWithin(lines) && Fits(|text0|, es, 0, |es|, 0)
      ensures fits ==> ok && doc.text == Apply(text0, es, 0, |es|, 0)
    {
      ok := true;
      var shift := 0;
      var j := 0;
      while j < |lines|
        modifies doc
        invariant 0 <= j <= |lines| && ok
        invariant fits ==> RawWithin(lines) && Fits(|text0|, es, 0, |es|, 0)
        invariant fits ==> Fits(|text0|, es, 0, j, 0) && doc.text == Apply(text0, es, 0, j, 0) && shift == Growth(es, 0, j)
      {
        WrapEditsAt(text0, lines, oldPrefs, newPrefs, j);
        ok, shift := WrapLine(oldPrefs, newPrefs, lines, j, shift, text0, es, fits);
        if !ok {
          return;
        }
        j := j + 1;
      }
    }

    /** One line of the rewrite loop of wrapUnwrapCuesByType: it gets its wrapped or unwrapped text, if any. */
    method WrapLine(oldPrefs: map<JsString, JsValue>, newPrefs: map<JsString, JsValue>, lines: seq<Line>, j: nat, shift: int,
                    ghost text0: JsString, ghost es: seq<Option<Edit<CodeUnit>>>, ghost fits: bool)
      returns (ok: bool, shift': int)
      modifies doc
      requires j < |lines| && j < |es| && es[j] == WrapEdit(text0, lines, j, oldPrefs, newPrefs)
      requires fits ==> RawWithin(lines) && Fits(|text0|, es, 0, |es|, 0)
      requires fits ==> Fits(|text0|, es, 0, j, 0) && doc.text == Apply(text0, es, 0, j, 0) && shift == Growth(es, 0, j)
      ensures fits ==> ok && Fits(|text0|, es, 0, j + 1, 0) && doc.text == Apply(text0, es, 0, j + 1, 0)
                       && shift' == Growth(es, 0, j + 1)
    {
      var newString := WrapText(lines[j].text, oldPrefs, newPrefs);
      ok, shift' := ReplaceShifted(lines, j, shift, newString, text0, es, fits);
    }

    /**
     * Gives line `j` its new text, if any, at its position moved by `shift`,
     * the length the edits so far have added; the edits are made from the
     * first to the last, so `es[j]` is the one for this line and those
     * before it are made already.
     */
    method ReplaceShifted(lines: seq<Line>, j: nat, shift: int, newLine: Option<JsString>,
                          ghost text0: JsString, ghost es: seq<Option<Edit<CodeUnit>>>, ghost fits: bool)
      returns (ok: bool, shift': int)
      modifies doc
      requires j < |lines| && j < |es| && es[j] == LineEdit(text0, lines, j, newLine)
      requires fits ==> RawWithin(lines) && Fits(|text0|, es, 0, |es|, 0)
      requires fits ==> Fits(|text0|, es, 0, j, 0) && doc.text == Apply(text0, es, 0, j, 0) && shift == Growth(es, 0, j)
      ensures fits ==> ok && Fits(|text0|, es, 0, j + 1, 0) && doc.text == Apply(text0, es, 0, j + 1, 0)
                       && shift' == Growth(es, 0, j + 1)
    {
      ok, shift' := true, shift;
      ghost var cur := doc.text;
      if newLine.Some? {
        var line := lines[j];
        var len := LineLength(lines, j);
        var position := line.position + shift;
        var lineEnding := LineEnding(doc.text, position, |line.text|, len);
        ghost var next := cur;
        if fits {
          ghost var e := es[j].value;
          BehindStep(text0, es, j, cur, shift, |line.text|, e);
          assert e.pos + shift == position && e.len == len && e.repl == newLine.value + lineEnding;
          next := Apply(text0, es, 0, j + 1, 0);
        }
        ok := doc.ReplaceRange(position, len, newLine.value + lineEnding);
        if !ok {
          return;
        }
        assert doc.text == Splice(cur, position, len, newLine.value + lineEnding);
        assert fits ==> doc.text == next;
        shift' := shift + |newLine.value + lineEnding| - len;
      } else if fits {
        BehindSkip(text0, es, j, cur, shift);
      }
    }

    /**
     * applyPreferences: new preferences that pass validation replace the
     * current ones and are saved; when asked to, it then looks for a cue type
     * whose hide value changed and, if there is one, wraps or unwraps the
     * cue lines accordingly.
     */
    method ApplyPreferences(newValue: JsValue, checkHideChanges: bool, lines: seq<Line>, linesAfter: seq<Line>)
      returns (applied: bool, hideChanged: bool, ok: bool)
      modifies this, doc
      ensures applied <==> IsValidPreferences(newValue)
      ensures !applied ==> !hideChanged && ok && prefs == old(prefs) && stored == old(stored) && doc.text == old(doc.text)
                           && collectedCues == old(collectedCues) && detectedCueTypes == old(detectedCueTypes)
      ensures applied ==> hideChanged == (checkHideChanges && HideChanged(old(prefs), OwnProps(newValue)))
      ensures applied && !hideChanged ==>
                ok && prefs == OwnProps(newValue) && stored == Some(JObject(prefs)) && doc.text == old(doc.text)
                && collectedCues == old(collectedCues) && detectedCueTypes == old(detectedCueTypes)
      ensures var es := WrapEdits(old(doc.text), lines, old(prefs), OwnProps(newValue));
              applied && hideChanged && LaidOut(old(doc.text), lines) ==>
                Fits(|old(doc.text)|, es, 0, |es|, 0) && ok && doc.text == ApplyAll(old(doc.text), es)
      ensures applied && hideChanged && ok ==>
                collectedCues == CuesOf(linesAfter) && detectedCueTypes == Dedup(TypesOf(collectedCues))
                && prefs == RegisterTypes(OwnProps(newValue), detectedCueTypes) && stored == Some(JObject(prefs))
      ensures applied && hideChanged && !ok ==>
                prefs == OwnProps(newValue) && stored == Some(JObject(prefs))
                && collectedCues == old(collectedCues) && detectedCueTypes == old(detectedCueTypes)
    {
      var oldPrefs := prefs;
      ok := true;
      hideChanged := false;
      applied := ValidatePreferences(newValue);
      if !applied {
        return;
      }
      prefs := OwnProps(newValue);
      SavePreferences();
      if checkHideChanges {
        var keys := prefs.Keys;
        while keys != {} && !hideChanged
          invariant keys <= prefs.Keys && prefs == OwnProps(newValue)
          invariant hideChanged ==> HideChanged(oldPrefs, prefs)
          invariant !hideChanged ==> forall t :: t in prefs && t !in keys && !IsReservedKey(t) ==>
                                       StrictEq(HideOf(oldPrefs, t), HideOf(prefs, t))
          decreases |keys|, !hideChanged
        {
          var t :| t in keys;
          if !IsReservedKey(t) && !StrictEq(HideOf(oldPrefs, t), HideOf(prefs, t)) {
            hideChanged := true;
          }
          keys := keys - {t};
        }
      }
      if hideChanged {
        ok := WrapUnwrap(oldPrefs, prefs, lines, linesAfter);
      }
    }
  }
}
