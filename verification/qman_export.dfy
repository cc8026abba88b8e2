/**
 * What the three exporters of the cue manager (QMan.js: CSV, HTML and a
 * QLab AppleScript) have in common: the selection they start from, the
 * two alerts that end an export early, and the loop that appends one row
 * per selected cue to the text being built.
 */
module QManExport {
  import opened JsText
  import opened QManScan
  import opened QManSession

  /** What an export does: alert that there are no cues, alert that the tab's filter selects none, or write a file. */
  datatype Export = NoCues | NoneInFilter | Written(content: JsString)

  /** The selection step every exporter starts with, and the text it writes for a non-empty selection. */
  predicate ExportedAs(collectedCues: seq<Cue>, filterType: JsString, r: Export, text: JsString) {
    if collectedCues == [] then r == NoCues
    else if CuesOnTab(collectedCues, filterType) == [] then r == NoneInFilter
    else r == Written(text)
  }

  /** What follows the fixed text `p`, when `s` starts with it. */
  function Expect(s: JsString, p: JsString): (r: Option<JsString>)
    ensures r.Some? ==> |r.value| == |s| - |p|
  {
    if StartsWith(s, p) then Some(s[|p|..]) else None
  }

  /** A text that starts with `p` reads on after it. */
  lemma ExpectPrefix(p: JsString, rest: JsString)
    ensures Expect(p + rest, p) == Some(rest)
  {
    assert (p + rest)[..|p|] == p && (p + rest)[|p|..] == rest;
  }

  /** The rows of an export: `row` of each cue, in the order of the cues. */
  function Rows(cues: seq<Cue>, row: Cue -> JsString): JsString {
    if cues == [] then [] else row(cues[0]) + Rows(cues[1..], row)
  }

  /** The values a row carries for a cue: its number, its type and its text. */
  function Fields(c: Cue): seq<JsString> {
    [c.number, c.ctype, c.name]
  }

  function Records(cues: seq<Cue>): (r: seq<seq<JsString>>)
    ensures |r| == |cues| && forall k :: 0 <= k < |cues| ==> r[k] == Fields(cues[k])
  {
    if cues == [] then [] else [Fields(cues[0])] + Records(cues[1..])
  }

  lemma RowsCons(cues: seq<Cue>, row: Cue -> JsString)
    requires cues != []
    ensures Rows(cues, row) == row(cues[0]) + Rows(cues[1..], row)
  {
  }

  /** One more cue adds its row at the end. */
  lemma {:induction false} RowsSnoc(cues: seq<Cue>, c: Cue, row: Cue -> JsString)
    ensures Rows(cues + [c], row) == Rows(cues, row) + row(c)
  {
    if cues == [] {
      assert [c][1..] == [];
    } else {
      assert (cues + [c])[1..] == cues[1..] + [c];
      RowsSnoc(cues[1..], c, row);
    }
  }

  /** The `forEach` of each exporter: the rows of `cues` appended to `content`, one cue at a time. */
  method AppendRows(content: JsString, cues: seq<Cue>, row: Cue -> JsString) returns (r: JsString)
    ensures r == content + Rows(cues, row)
  {
    r := content;
    var i := 0;
    while i < |cues|
      invariant 0 <= i <= |cues|
      invariant r == content + Rows(cues[..i], row)
    {
      RowsSnoc(cues[..i], cues[i], row);
      assert cues[..i + 1] == cues[..i] + [cues[i]];
      r := r + row(cues[i]);
      i := i + 1;
    }
    assert cues[..|cues|] == cues;
  }
}
