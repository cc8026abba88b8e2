/**
 * The host editor, as far as the plugins touch it: its lines
 * (`Beat.lines()`), the whole text (`Beat.getText()`),
 * `Beat.replaceRange(position, length, text)` and the ranges a plugin
 * puts background highlights on.
 */
module HostDocument {
  import opened JsText
  import opened TextEdits

  /** A line as `Beat.lines()` hands it over: where it starts, its text, the editor's own heading flag and its range length (0 when absent). */
  datatype Line = Line(position: int, text: JsString, isHeading: bool, rangeLength: nat)

  class Document {
    /** The document's text, in UTF-16 code units. */
    var text: JsString

    constructor(initial: JsString)
      ensures text == initial
    {
      text := initial;
    }

    /**
     * `replaceRange`: replaces `len` code units at `pos` with `repl`. A range
     * outside the text is refused by the host, which raises an error into the
     * script; `ok` is false then and the text is unchanged.
     */
    method ReplaceRange(pos: int, len: int, repl: JsString) returns (ok: bool)
      modifies this
      ensures ok <==> 0 <= pos && 0 <= len && pos + len <= |old(text)|
      ensures ok ==> text == Splice(old(text), pos, len, repl)
      ensures !ok ==> text == old(text)
    {
      if 0 <= pos && 0 <= len && pos + len <= |text| {
        text := Splice(text, pos, len, repl);
        ok := true;
      } else {
        ok := false;
      }
    }
  }

  /** A range of the document: where it starts and how many code units it covers. */
  datatype Span = Span(pos: int, len: nat)
}
