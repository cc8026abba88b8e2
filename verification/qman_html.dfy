/**
 * The HTML export of the cue manager (QMan.js, exportToHTML): a fixed page
 * head, one table row per selected cue with its number, type and text
 * escaped by escapeHTML, and a fixed page end. A reader of the rows is
 * written out below and shown to recover every cue's fields: no escaped
 * value holds a `<`, so none can end its cell early.
 */
module QManHtml {
  import opened JsText
  import opened JsValues
  import opened QManEscape
  import opened QManScan
  import opened QManSession
  import opened QManExport

  /** The document head, the style sheet, the title and the table head, as one string. */
  const HTML_HEAD: JsString :=
    Str("<!DOCTYPE html><html><head><meta charset=\"UTF-8\"><title>QMan Cue List</title>")
    + Str("<style>body{font-family:Arial,sans-serif;margin:20px;background:#f5f5f5;}")
    + Str("h1{color:#333;}table{width:100%;border-collapse:collapse;background:white;box-shadow:0 2px 4px rgba(0,0,0,0.1);}")
    + Str("th,td{padding:12px;text-align:left;border-bottom:1px solid #ddd;}")
    + Str("th{background:#007acc;color:white;font-weight:600;}")
    + Str("tr:hover{background:#f9f9f9;}")
    + Str(".cue-type{display:inline-block;padding:4px 8px;border-radius:4px;font-size:11px;font-weight:600;}")
    + Str("</style></head><body>")
    + Str("<h1>QMan Cue List</h1>")
    + Str("<table><thead><tr><th>Number</th><th>Type</th><th>Note</th></tr></thead><tbody>")

  const HTML_TAIL: JsString := Str("</tbody></table></body></html>")

  const ROW_OPEN: JsString := Str("<tr><td>")
  const AFTER_NUMBER: JsString := Str("</td><td><span class=\"cue-type\">")
  const AFTER_TYPE: JsString := Str("</span></td><td>")
  const ROW_CLOSE: JsString := Str("</td></tr>")

  /** `escapeHTML(String(x))`. */
  function Escaped(s: JsString): JsString {
    EscapeHTML(JString(s))
  }

  function HtmlRow(c: Cue): (r: JsString)
    ensures StartsWith(r, ROW_OPEN) && |ROW_CLOSE| <= |r| && r[|r| - |ROW_CLOSE|..] == ROW_CLOSE
  {
    ROW_OPEN + Escaped(c.number) + AFTER_NUMBER + Escaped(c.ctype) + AFTER_TYPE + Escaped(c.name) + ROW_CLOSE
  }

  /** The file written for a selection of cues. */
  function HtmlText(cues: seq<Cue>): (r: JsString)
    ensures StartsWith(r, HTML_HEAD) && |HTML_TAIL| <= |r| && r[|r| - |HTML_TAIL|..] == HTML_TAIL
  {
    HTML_HEAD + Rows(cues, HtmlRow) + HTML_TAIL
  }

  /** exportToHTML, up to the file dialog: the alerts, or the text written to the chosen file. */
  method ExportToHtml(collectedCues: seq<Cue>, filterType: JsString) returns (r: Export)
    ensures ExportedAs(collectedCues, filterType, r, HtmlText(CuesOnTab(collectedCues, filterType)))
  {
    if collectedCues == [] {
      return NoCues;
    }
    var cuesToExport := CuesOnTab(collectedCues, filterType);
    if cuesToExport == [] {
      return NoneInFilter;
    }
    var htmlContent := AppendRows(HTML_HEAD, cuesToExport, HtmlRow);
    htmlContent := htmlContent + HTML_TAIL;
    return Written(htmlContent);
  }

  // ---------------------------------------------------------------------
  // A reader of the table rows
  // ---------------------------------------------------------------------

  /** Where the text of a cell that starts at `i` ends: at the next `<`. */
  function TextEnd(s: JsString, i: nat): (j: nat)
    requires i <= |s|
    ensures i <= j <= |s|
    decreases |s| - i
  {
    if i < |s| && s[i] != LT then TextEnd(s, i + 1) else i
  }

  /** The text of a cell with its entities decoded, and what follows it. */
  function Cell(s: JsString): (r: Option<(JsString, JsString)>)
    ensures r.Some? ==> |r.value.1| <= |s|
  {
    var j := TextEnd(s, 0);
    match DecodeHtml(s[..j])
    case Some(x) => Some((x, s[j..]))
    case None => None
  }

  /** One row: its three cells between the fixed tags. */
  function ParseRow(s: JsString): (r: Option<(seq<JsString>, JsString)>)
    ensures r.Some? ==> |r.value.1| < |s|
  {
    match Expect(s, ROW_OPEN)
    case None => None
    case Some(s0) =>
      match Cell(s0)
      case None => None
      case Some((number, s1)) =>
        match Expect(s1, AFTER_NUMBER)
        case None => None
        case Some(s2) =>
          match Cell(s2)
          case None => None
          case Some((ctype, s3)) =>
            match Expect(s3, AFTER_TYPE)
            case None => None
            case Some(s4) =>
              match Cell(s4)
              case None => None
              case Some((name, s5)) =>
                match Expect(s5, ROW_CLOSE)
                case None => None
                case Some(rest) => Some(([number, ctype, name], rest))
  }

  /** Rows up to the end of the text. */
  function ParseRows(s: JsString): Option<seq<seq<JsString>>>
    decreases |s|
  {
    if s == [] then Some([])
    else
      match ParseRow(s)
      case None => None
      case Some((rec, rest)) =>
        match ParseRows(rest)
        case Some(recs) => Some([rec] + recs)
        case None => None
  }

  /** The rows of a page with the exporter's head and end. */
  function ParseHtml(s: JsString): Option<seq<seq<JsString>>> {
    if |HTML_HEAD| + |HTML_TAIL| <= |s| && StartsWith(s, HTML_HEAD) && s[|s| - |HTML_TAIL|..] == HTML_TAIL
    then ParseRows(s[|HTML_HEAD|..|s| - |HTML_TAIL|])
    else None
  }

  // ---------------------------------------------------------------------
  // The written page reads back
  // ---------------------------------------------------------------------

  lemma {:induction false} TextEndUnique(s: JsString, i: nat, j: nat)
    requires i <= j <= |s|
    requires forall k :: i <= k < j ==> s[k] != LT
    requires j == |s| || s[j] == LT
    ensures TextEnd(s, i) == j
    decreases j - i
  {
    if i < j {
      TextEndUnique(s, i + 1, j);
    }
  }

  /** An escaped value reads back as itself up to the next tag. */
  lemma CellRoundTrip(x: JsString, rest: JsString)
    requires rest != [] && rest[0] == LT
    ensures Cell(Escaped(x) + rest) == Some((x, rest))
  {
    var e := Escaped(x);
    var s := e + rest;
    assert forall k :: 0 <= k < |e| ==> s[k] == e[k] && e[k] in e;
    TextEndUnique(s, 0, |e|);
    assert s[..|e|] == e && s[|e|..] == rest;
  }

  /** A cell followed by one of the fixed tags of a row, and what follows that tag. */
  lemma CellThenTag(x: JsString, tag: JsString, rest: JsString)
    requires tag != [] && tag[0] == LT
    ensures Cell(Escaped(x) + (tag + rest)) == Some((x, tag + rest))
    ensures Expect(tag + rest, tag) == Some(rest)
  {
    CellRoundTrip(x, tag + rest);
    ExpectPrefix(tag, rest);
  }

  lemma RowShape(a: JsString, x: JsString, b: JsString, y: JsString, c: JsString, z: JsString, d: JsString, rest: JsString)
    ensures a + x + b + y + c + z + d + rest == a + (x + (b + (y + (c + (z + (d + rest))))))
  {
  }

  lemma TagsStartWithLt()
    ensures AFTER_NUMBER[0] == LT && AFTER_TYPE[0] == LT && ROW_CLOSE[0] == LT
  {
  }

  /** A written row reads back as the cue's number, type and text. */
  lemma RowRoundTrip(c: Cue, rest: JsString)
    ensures ParseRow(HtmlRow(c) + rest) == Some((Fields(c), rest))
  {
    TagsStartWithLt();
    var s5 := ROW_CLOSE + rest;
    CellThenTag(c.name, ROW_CLOSE, rest);
    var s3 := AFTER_TYPE + (Escaped(c.name) + s5);
    CellThenTag(c.ctype, AFTER_TYPE, Escaped(c.name) + s5);
    var s1 := AFTER_NUMBER + (Escaped(c.ctype) + s3);
    CellThenTag(c.number, AFTER_NUMBER, Escaped(c.ctype) + s3);
    ExpectPrefix(ROW_OPEN, Escaped(c.number) + s1);
    RowShape(ROW_OPEN, Escaped(c.number), AFTER_NUMBER, Escaped(c.ctype), AFTER_TYPE, Escaped(c.name), ROW_CLOSE, rest);
  }

  lemma {:induction false} RowsRoundTrip(cues: seq<Cue>)
    ensures ParseRows(Rows(cues, HtmlRow)) == Some(Records(cues))
  {
    if cues != [] {
      RowsRoundTrip(cues[1..]);
      RowRoundTrip(cues[0], Rows(cues[1..], HtmlRow));
    }
  }

  /**
   * The written page, read between its head and its end, is one row per
   * selected cue, in order, whose cells decode to the cue's number, type
   * and text exactly.
   */
  lemma HtmlRoundTrip(cues: seq<Cue>)
    ensures ParseHtml(HtmlText(cues)) == Some(Records(cues))
  {
    Framed(HTML_HEAD, Rows(cues, HtmlRow), HTML_TAIL);
    RowsRoundTrip(cues);
  }

  lemma Framed(head: JsString, rows: JsString, tail: JsString)
    ensures var s := head + rows + tail;
            |head| + |tail| <= |s| && s[..|head|] == head && s[|s| - |tail|..] == tail
            && s[|head|..|s| - |tail|] == rows
  {
    var s := head + rows + tail;
    assert s[..|head|] == head;
    assert s[|s| - |tail|..] == tail;
    assert s[|head|..|s| - |tail|] == rows;
  }
}
