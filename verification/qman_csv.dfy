/**
 * The CSV export of the cue manager (QMan.js, exportToCSV): a header and
 * one line per selected cue, every field double-quoted with its own quotes
 * doubled (section 2, rules 5 to 7, of RFC 4180). A reader of that format
 * is written out below and shown to recover the header and every cue's
 * number, type and text. Lines end in LF, where RFC 4180 asks for CRLF;
 * the reader accepts LF.
 */
module QManCsv {
  import opened JsText
  import opened QManEscape
  import opened QManScan
  import opened QManSession
  import opened QManExport

  const COMMA: CodeUnit := ',' as int

  /** `String(x).replace(/"/g, '""')`. */
  function Doubled(s: JsString): JsString {
    ReplaceAll(s, DQUOTE, [DQUOTE, DQUOTE])
  }

  /** A field as the exporter writes it: in double quotes, its own quotes doubled. */
  function CsvField(s: JsString): JsString {
    [DQUOTE] + Doubled(s) + [DQUOTE]
  }

  function CsvRow(c: Cue): (r: JsString)
    ensures |r| >= 9 && r[0] == DQUOTE && r[|r| - 2..] == [DQUOTE, LF]
  {
    CsvField(c.number) + [COMMA] + CsvField(c.ctype) + [COMMA] + CsvField(c.name) + [LF]
  }

  const CSV_HEADER_FIELDS: seq<JsString> := [Str("Number"), Str("Type"), Str("Note")]

  /** `Number,Type,Note` and a line break. */
  const CSV_HEADER: JsString := Str("Number") + [COMMA] + Str("Type") + [COMMA] + Str("Note") + [LF]

  /** The file written for a selection of cues. */
  function CsvText(cues: seq<Cue>): (r: JsString)
    ensures StartsWith(r, CSV_HEADER)
  {
    CSV_HEADER + Rows(cues, CsvRow)
  }

  /** exportToCSV, up to the file dialog: the alerts, or the text written to the chosen file. */
  method ExportToCsv(collectedCues: seq<Cue>, filterType: JsString) returns (r: Export)
    ensures ExportedAs(collectedCues, filterType, r, CsvText(CuesOnTab(collectedCues, filterType)))
  {
    if collectedCues == [] {
      return NoCues;
    }
    var cuesToExport := CuesOnTab(collectedCues, filterType);
    if cuesToExport == [] {
      return NoneInFilter;
    }
    var csvContent := AppendRows(CSV_HEADER, cuesToExport, CsvRow);
    return Written(csvContent);
  }

  // ---------------------------------------------------------------------
  // A reader of RFC 4180 records
  // ---------------------------------------------------------------------

  /** The code units that end an unquoted field or may not stand in one. */
  predicate IsCsvSpecial(c: CodeUnit) {
    c == COMMA || c == DQUOTE || c == CR || c == LF
  }

  /**
   * The rest of a quoted field after its opening quote: its text, with
   * each `""` read as one `"`, and what follows the closing quote; None
   * when the closing quote is missing.
   */
  function Unquote(s: JsString): (r: Option<(JsString, JsString)>)
    ensures r.Some? ==> |r.value.1| < |s|
    decreases |s|
  {
    if s == [] then None
    else if s[0] == DQUOTE then
      if |s| > 1 && s[1] == DQUOTE then
        match Unquote(s[2..])
        case Some((f, rest)) => Some(([DQUOTE] + f, rest))
        case None => None
      else Some(([], s[1..]))
    else
      match Unquote(s[1..])
      case Some((f, rest)) => Some(([s[0]] + f, rest))
      case None => None
  }

  /** Where an unquoted field that starts at `i` ends. */
  function PlainEnd(s: JsString, i: nat): (j: nat)
    requires i <= |s|
    ensures i <= j <= |s|
    decreases |s| - i
  {
    if i < |s| && !IsCsvSpecial(s[i]) then PlainEnd(s, i + 1) else i
  }

  /** One field, quoted or not, and what follows it; None for a quote or a CR inside an unquoted field. */
  function ParseField(s: JsString): (r: Option<(JsString, JsString)>)
    ensures r.Some? ==> |r.value.1| <= |s|
  {
    if s != [] && s[0] == DQUOTE then Unquote(s[1..])
    else
      var j := PlainEnd(s, 0);
      if j < |s| && (s[j] == DQUOTE || s[j] == CR) then None else Some((s[..j], s[j..]))
  }

  /** One record: fields separated by commas, up to and including the line break. */
  function ParseRecord(s: JsString): (r: Option<(seq<JsString>, JsString)>)
    ensures r.Some? ==> |r.value.1| < |s|
    decreases |s|
  {
    match ParseField(s)
    case None => None
    case Some((f, t)) =>
      if t != [] && t[0] == COMMA then
        match ParseRecord(t[1..])
        case Some((fs, rest)) => Some(([f] + fs, rest))
        case None => None
      else if t != [] && t[0] == LF then Some(([f], t[1..]))
      else None
  }

  /** A whole file: its records, in order; None unless every record is well formed and ends in a line break. */
  function ParseCsv(s: JsString): Option<seq<seq<JsString>>>
    decreases |s|
  {
    if s == [] then Some([])
    else
      match ParseRecord(s)
      case None => None
      case Some((rec, rest)) =>
        match ParseCsv(rest)
        case Some(recs) => Some([rec] + recs)
        case None => None
  }

  // ---------------------------------------------------------------------
  // The written file reads back
  // ---------------------------------------------------------------------

  /** Reading a doubled field body up to the closing quote gives back the field. */
  lemma {:induction false} UnquoteDoubled(x: JsString, rest: JsString)
    requires rest == [] || rest[0] != DQUOTE
    ensures Unquote(Doubled(x) + [DQUOTE] + rest) == Some((x, rest))
  {
    if x == [] {
      assert Doubled(x) + [DQUOTE] + rest == [DQUOTE] + rest;
      assert ([DQUOTE] + rest)[1..] == rest;
    } else {
      var h: JsString := if x[0] == DQUOTE then [DQUOTE, DQUOTE] else [x[0]];
      var t := Doubled(x[1..]) + [DQUOTE] + rest;
      assert Doubled(x) == h + Doubled(x[1..]);
      assert Doubled(x) + [DQUOTE] + rest == h + t;
      UnquoteDoubled(x[1..], rest);
      assert (h + t)[|h|..] == t;
      assert [x[0]] + x[1..] == x;
    }
  }

  /** A written field reads back as itself when a comma or a line break follows it. */
  lemma FieldRoundTrip(x: JsString, rest: JsString)
    requires rest != [] && (rest[0] == COMMA || rest[0] == LF)
    ensures ParseField(CsvField(x) + rest) == Some((x, rest))
  {
    var s := CsvField(x) + rest;
    assert s[1..] == Doubled(x) + [DQUOTE] + rest;
    UnquoteDoubled(x, rest);
  }

  lemma {:induction false} PlainEndUnique(s: JsString, i: nat, j: nat)
    requires i <= j <= |s|
    requires forall k :: i <= k < j ==> !IsCsvSpecial(s[k])
    requires j == |s| || IsCsvSpecial(s[j])
    ensures PlainEnd(s, i) == j
    decreases j - i
  {
    if i < j {
      PlainEndUnique(s, i + 1, j);
    }
  }

  /** An unquoted field without special characters reads back as itself when a comma or a line break follows it. */
  lemma PlainFieldParses(w: JsString, rest: JsString)
    requires forall k :: 0 <= k < |w| ==> !IsCsvSpecial(w[k])
    requires rest != [] && (rest[0] == COMMA || rest[0] == LF)
    ensures ParseField(w + rest) == Some((w, rest))
  {
    var s := w + rest;
    PlainEndUnique(s, 0, |w|);
    assert s[..|w|] == w && s[|w|..] == rest;
  }

  /** A field that ends the record. */
  lemma LastField(w: JsString, x: JsString, rest: JsString)
    requires ParseField(w + ([LF] + rest)) == Some((x, [LF] + rest))
    ensures ParseRecord(w + [LF] + rest) == Some(([x], rest))
  {
    assert w + [LF] + rest == w + ([LF] + rest);
    assert ([LF] + rest)[1..] == rest;
  }

  /** A field followed by a comma and a record that reads as `fs`. */
  lemma NextField(w: JsString, x: JsString, t: JsString, fs: seq<JsString>, rest: JsString)
    requires ParseField(w + ([COMMA] + t)) == Some((x, [COMMA] + t))
    requires ParseRecord(t) == Some((fs, rest))
    ensures ParseRecord(w + [COMMA] + t) == Some(([x] + fs, rest))
  {
    assert w + [COMMA] + t == w + ([COMMA] + t);
    assert ([COMMA] + t)[1..] == t;
  }

  /** A record of three fields, each of which reads as `x0`, `x1`, `x2` before what follows it. */
  lemma ThreeFields(w0: JsString, w1: JsString, w2: JsString, x0: JsString, x1: JsString, x2: JsString, rest: JsString)
    requires ParseField(w2 + ([LF] + rest)) == Some((x2, [LF] + rest))
    requires ParseField(w1 + ([COMMA] + (w2 + [LF] + rest))) == Some((x1, [COMMA] + (w2 + [LF] + rest)))
    requires var t1 := w1 + [COMMA] + (w2 + [LF] + rest);
             ParseField(w0 + ([COMMA] + t1)) == Some((x0, [COMMA] + t1))
    ensures ParseRecord(w0 + [COMMA] + w1 + [COMMA] + w2 + [LF] + rest) == Some(([x0, x1, x2], rest))
  {
    var t2 := w2 + [LF] + rest;
    LastField(w2, x2, rest);
    var t1 := w1 + [COMMA] + t2;
    NextField(w1, x1, t2, [x2], rest);
    assert [x1] + [x2] == [x1, x2];
    NextField(w0, x0, t1, [x1, x2], rest);
    assert [x0] + [x1, x2] == [x0, x1, x2];
    RecordShape(w0, w1, w2, rest);
  }

  lemma RecordShape(w0: JsString, w1: JsString, w2: JsString, rest: JsString)
    ensures w0 + [COMMA] + w1 + [COMMA] + w2 + [LF] + rest == w0 + [COMMA] + (w1 + [COMMA] + (w2 + [LF] + rest))
  {
  }

  /** A written row reads back as the cue's number, type and text. */
  lemma RowRoundTrip(c: Cue, rest: JsString)
    ensures ParseRecord(CsvRow(c) + rest) == Some((Fields(c), rest))
  {
    var f0, f1, f2 := CsvField(c.number), CsvField(c.ctype), CsvField(c.name);
    var t1 := f1 + [COMMA] + (f2 + [LF] + rest);
    FieldRoundTrip(c.name, [LF] + rest);
    FieldRoundTrip(c.ctype, [COMMA] + (f2 + [LF] + rest));
    FieldRoundTrip(c.number, [COMMA] + t1);
    ThreeFields(f0, f1, f2, c.number, c.ctype, c.name, rest);
  }

  /** The header reads back as its three names. */
  lemma HeaderParses(rest: JsString)
    ensures ParseRecord(CSV_HEADER + rest) == Some((CSV_HEADER_FIELDS, rest))
  {
    var number, typ, note := Str("Number"), Str("Type"), Str("Note");
    var t1 := typ + [COMMA] + (note + [LF] + rest);
    PlainFieldParses(note, [LF] + rest);
    PlainFieldParses(typ, [COMMA] + (note + [LF] + rest));
    PlainFieldParses(number, [COMMA] + t1);
    ThreeFields(number, typ, note, number, typ, note, rest);
  }

  lemma {:induction false} RowsRoundTrip(cues: seq<Cue>)
    ensures ParseCsv(Rows(cues, CsvRow)) == Some(Records(cues))
  {
    if cues != [] {
      RowsRoundTrip(cues[1..]);
      RowRoundTrip(cues[0], Rows(cues[1..], CsvRow));
    }
  }

  /**
   * Read as RFC 4180 records, the written file is the header followed by
   * one record per selected cue, in order, each with the cue's number,
   * type and text exactly.
   */
  lemma CsvRoundTrip(cues: seq<Cue>)
    ensures ParseCsv(CsvText(cues)) == Some([CSV_HEADER_FIELDS] + Records(cues))
  {
    RowsRoundTrip(cues);
    HeaderParses(Rows(cues, CsvRow));
  }
}
