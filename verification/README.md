# QMan cues and the Keywords tag index, in Dafny

This project models two plugins of the Beat screenwriting editor and proves
properties of the models.

## QMan

QMan is a cue manager. Its model covers:

- **Scanning.** It reads the script's lines and finds cue lines: `SOUND (cue 3): Door slams`, `!LIGHT: Fade up`, or the same wrapped in a note, `[[VIDEO: Clip]]`. It records each cue's type, number, name, position and scene. It gives every new cue type a preference entry with a colour taken from a 15-colour palette by a 32-bit string hash.
- **Preferences.** It validates, loads, saves and applies the preferences object.
- **Renumbering.** It numbers the cues of one tab `(cue 1)`, `(cue 2)`, … in place, from the last cue to the first, keeping each line's ending.
- **Wrapping and unwrapping.** It puts a type's cue lines in `[[ ]]` when the type is hidden and takes them out again when it is shown.
- **Export.** It writes the cue list as CSV, as an HTML table, or as an AppleScript that builds QLab cues.

## Keywords

Keywords is a tag index. Its model covers:

- **Gathering.** It collects `#tag` tokens and `Beat:` / `Storyline:` labels from inline notes `[[…]]`. It drops a candidate whose range is already indexed and highlights the ones it keeps in the tag's colour.
- **Per-tag lists.** It keeps a list for each tag and a flat list of all occurrences.
- **Navigation.** Each click moves to the tag's next occurrence, round-robin.
- **Settings.** It keeps the per-tag colours, the favourites (pruned on refresh) and the theme, and persists them through the host's stores.
- **Contrast.** It chooses a black or white text colour for a tag's colour.

Three facts of the code shape the Keywords model:

- Only `#` starts a tag (plugin.js:241). Tags keep their name as written: nothing lower-cases them.
- The only names skipped are those of exactly six decimal digits (`/^\d{6}$/`, plugin.js:251), so `[[#1a2b3c]]` is indexed.
- refreshUI resets `occurrenceIndex` (plugin.js:112), so after a refresh a tag's next click goes to its first occurrence.

## How the model is built

- **Host and text.**
  - The host document is the class `HostDocument.Document`. Its `ReplaceRange` is the host's `Beat.replaceRange`.
  - JavaScript strings are sequences of UTF-16 code units (`JsText`).
  - JavaScript values are the datatype `JsValues.JsValue`, with the truthiness and `===` of the language.
- **Regular expressions.** Each is written as a deterministic matcher. Its backtracking is worked out in the comments of `qman_grammar.dfy` and `keywords_scan.dfy`.
- **State changed in place is a class with methods.**
  - QMan's globals (`cuePreferences`, `collectedCues`, `detectedCueTypes`, the stored preferences) are `QManSession.CueManager`.
  - The Keywords globals are `KeywordsIndex.TagIndex`.
  - The occurrence objects, whose `color` is reassigned, are `KeywordsIndex.Occurrence`.
- **Loops become methods.** Each loop of the source is a method with a loop whose invariant ties it to a reference function:
  - the line scan to `QManScan.CuesOf` / `RegisterTypes`;
  - the renumbering and the wrap pass to `TextEdits.ApplyAll` of a list of line edits;
  - the gathering to `KeywordsIndex.Kept` of `KeywordsScan.Candidates`.
- **Exports are proved by parsing.** For each export format a parser is written, and parsing the exported text gives back the exported records.

## Model

| member | source | states |
|---|---|---|
| QManEscape.EscapeForJS | Plugins/QMan.beatPlugin/QMan.js:25-34 | a non-string gives the empty string; for a string, decoding the escaped text as a JavaScript single- or double-quoted literal body gives the string back; no raw LF, CR or TAB remains |
| QManEscape.JsChainIsOnePass | Plugins/QMan.beatPlugin/QMan.js:27-33 | the six chained global replacements equal one pass that escapes each code unit independently (the backslash goes first, so nothing is escaped twice) |
| QManEscape.JsRoundTrip | Plugins/QMan.beatPlugin/QMan.js:25-34 | decoding the one-pass escape of any string gives the string back |
| QManEscape.EscapeHTML | Plugins/QMan.beatPlugin/QMan.js:41-49 | a non-string gives the empty string; for a string, decoding the five entities gives the string back; no `<`, `>`, `"` or `'` remains |
| QManEscape.HtmlChainIsOnePass | Plugins/QMan.beatPlugin/QMan.js:43-48 | the five chained replacements (`&` first) equal a per-character escape |
| QManEscape.HtmlRoundTrip | Plugins/QMan.beatPlugin/QMan.js:41-49 | entity decoding inverts the per-character escape |
| QManPrefs.ValidatePreferences | Plugins/QMan.beatPlugin/QMan.js:71-103 | the key loop's answer is true exactly when the value is a truthy object, its theme (when truthy) is dark, light or system, and every non-reserved own key holding a truthy object has a string-or-falsy colour and boolean-or-undefined enabled, highlight and hide; a non-object is rejected |
| QManPrefs.IsValidPreferences | Plugins/QMan.beatPlugin/QMan.js:71-103 | what validatePreferences accepts is an object or an array (`typeof` is `object` and the value is truthy) |
| QManPrefs.GlobalSettingsNotEntries | Plugins/QMan.beatPlugin/QMan.js:81-88 | setting showSceneContext, globalHighlight or globalHide to anything never changes validity |
| QManPrefs.AddEntryValid | Plugins/QMan.beatPlugin/QMan.js:80-100 | adding a well-formed entry under a non-reserved key keeps valid preferences valid |
| QManPrefs.TypeEntryOk | Plugins/QMan.beatPlugin/QMan.js:276-281 | an entry as the scan creates it (string colour, boolean flags) passes the entry checks |
| QManPrefs.DefaultsValid | Plugins/QMan.beatPlugin/QMan.js:119-134 | the built-in defaults pass validatePreferences |
| QManPrefs.DefaultEntry | Plugins/QMan.beatPlugin/QMan.js:124-133 | each default cue-type entry carries its type's built-in colour |
| QManPrefs.ToInt32 | Plugins/QMan.beatPlugin/QMan.js:329 | the result is a signed 32-bit value congruent to the input modulo 2^32 (the conversion `<<` applies) |
| QManPrefs.TypeHash | Plugins/QMan.beatPlugin/QMan.js:325-330 | the hash's magnitude grows by at most 2^31 + 2^16 per code unit, so it stays an exact double for every type name shorter than about four million units |
| QManPrefs.DefaultColor | Plugins/QMan.beatPlugin/QMan.js:315-333 | the default colour of any type is a palette colour |
| QManPrefs.DefaultColorForType | Plugins/QMan.beatPlugin/QMan.js:315-333 | the hash loop gives the built-in colour of SOUND, LIGHT, MUSIC, VIDEO and PROJECTION, and otherwise palette entry `abs(hash) mod 15` |
| QManPrefs.UndefinedVersusFalseIsChange | Plugins/QMan.beatPlugin/QMan.js:1887-1889 | a type absent before and present with `hide: false` after counts as a hide change (`undefined !== false`) |
| QManPrefs.HideChanged | Plugins/QMan.beatPlugin/QMan.js:1876-1894 | when no hide setting changed, every non-global key of the new preferences has the same truthiness of `hide` as before |
| QManGrammar.MatchBare | Plugins/QMan.beatPlugin/QMan.js:202-203 | a bare match has a cue type `[A-Z][A-Z0-9]*` and a description that has no line terminator and does not start with white space |
| QManGrammar.MatchNote | Plugins/QMan.beatPlugin/QMan.js:204-205 | a note match comes from a line framed by `[[` and `]]`, with a well-formed type and description |
| QManGrammar.ParseCueLine | Plugins/QMan.beatPlugin/QMan.js:249-258 | the bare pattern first, the note pattern second; a match has a well-formed type and a one-line description |
| QManGrammar.BareAndWrappedExclusive | Plugins/QMan.beatPlugin/QMan.js:1961-1965 | no line matches both patterns, so the order of the two tests never matters |
| QManGrammar.MatchedTypeIsUpper | Plugins/QMan.beatPlugin/QMan.js:263-265 | a matched type is its own upper case and has no lower-case letter, so the type check never rejects a match |
| QManGrammar.UnwrapWrap | Plugins/QMan.beatPlugin/QMan.js:2013-2015 | unwrapping a wrapped trimmed line gives it back |
| QManGrammar.Wrap | Plugins/QMan.beatPlugin/QMan.js:1978 | the wrapped line is four units longer and still trimmed |
| QManGrammar.Unwrap | Plugins/QMan.beatPlugin/QMan.js:2013-2015 | the unwrapped line is trimmed and, for a line of at least four units, at least four units shorter |
| QManGrammar.CueLineParses | Plugins/QMan.beatPlugin/QMan.js:848-854 | the head of a renumbered line parses back to its force flag, type and new number |
| QManGrammar.RenumberLine | Plugins/QMan.beatPlugin/QMan.js:843-868 | a renumbered wrapped cue keeps its `[[` … `]]` frame |
| QManGrammar.RenumberWrapped | Plugins/QMan.beatPlugin/QMan.js:860-868 | the wrapped renumbered line is the bare renumbered line wrapped in `[[ ]]` |
| QManGrammar.BareCueLineParses | Plugins/QMan.beatPlugin/QMan.js:848-854 | a bare renumbered line matches the bare pattern with the same flag, type, new number and description |
| QManGrammar.RenumberReparse | Plugins/QMan.beatPlugin/QMan.js:843-869 | a renumbered line (bare or wrapped) parses to the original match with only the number replaced, and keeps its wrapping |
| QManGrammar.WrapReparse | Plugins/QMan.beatPlugin/QMan.js:1976-1978 | wrapping a bare cue line gives a line that parses as the same cue, wrapped |
| QManScan.MakeCue | Plugins/QMan.beatPlugin/QMan.js:267-293 | a cue record carries the match's type, its number or `N/A`, the trimmed description, the line position, the scene and the wrapped flag |
| QManScan.CueCount | Plugins/QMan.beatPlugin/QMan.js:210-294 | there is exactly one cue per line that classifies as a cue |
| QManScan.CuesOf | Plugins/QMan.beatPlugin/QMan.js:210-294 | the scan collects at most one cue per line |
| QManScan.CueLineIndicesShape | Plugins/QMan.beatPlugin/QMan.js:210-294 | the cue lines' indices are strictly increasing and inside the document |
| QManScan.CuesInDocumentOrder | Plugins/QMan.beatPlugin/QMan.js:210-294 | the k-th cue is made from the k-th cue line, with the scene of the last heading above it |
| QManScan.CueTypesWellFormed | Plugins/QMan.beatPlugin/QMan.js:260-265 | every collected cue has a well-formed upper-case type |
| QManScan.SceneWithoutHeading | Plugins/QMan.beatPlugin/QMan.js:207 | with no heading above, the scene is `Unknown` |
| QManScan.SceneIsLastHeading | Plugins/QMan.beatPlugin/QMan.js:221-246 | the scene is the text of the last heading line above |
| QManScan.DotHeadingScene | Plugins/QMan.beatPlugin/QMan.js:238-244 | a forced `.HEADING` sets the scene to the rest of the line, trimmed |
| QManScan.CueLineStart | Plugins/QMan.beatPlugin/QMan.js:217 | every cue line starts with `[`, `!` or an upper-case letter, so the early skip never drops a cue |
| QManScan.ClassifyCue | Plugins/QMan.beatPlugin/QMan.js:248-265 | a non-heading line is a cue exactly when a pattern matches its trimmed text, and it is wrapped exactly when the note pattern matched |
| QManScan.Classify | Plugins/QMan.beatPlugin/QMan.js:214-265 | only a non-blank line whose trimmed text starts with `[`, `!`, `.` or an upper-case letter is kept; a cue comes only from a non-heading line whose type passes the upper-case check |
| QManScan.TypesOf | Plugins/QMan.beatPlugin/QMan.js:261 | the types of the cues, in order |
| QManScan.Dedup | Plugins/QMan.beatPlugin/QMan.js:271-272 | the detected types are exactly the cue types that occur |
| QManScan.FirstIndex | Plugins/QMan.beatPlugin/QMan.js:271 | `indexOf`: the first position of a type |
| QManScan.DedupOrder | Plugins/QMan.beatPlugin/QMan.js:270-273 | the detected types have no duplicates and are in order of first occurrence |
| QManScan.RegisterType | Plugins/QMan.beatPlugin/QMan.js:275-283 | after registering, the type has a truthy entry, and every other key is untouched |
| QManScan.RegisterTypesSpec | Plugins/QMan.beatPlugin/QMan.js:270-284 | every detected type gets a truthy entry, existing truthy entries are kept, and keys that were not detected are untouched |
| QManScan.RegisterTypes | Plugins/QMan.beatPlugin/QMan.js:270-284 | registering keeps every existing key and leaves every registered type with a truthy entry |
| QManScan.NewTypeEntryOk | Plugins/QMan.beatPlugin/QMan.js:276-281 | the new entry (palette colour, enabled, flags from the global settings or false) passes validation |
| QManScan.RegisterTypeValid | Plugins/QMan.beatPlugin/QMan.js:275-283 | registering a cue type keeps valid preferences valid and leaves the reserved settings alone |
| QManScan.RegisterTypesValid | Plugins/QMan.beatPlugin/QMan.js:270-284 | the same for a whole scan |
| QManScan.CueTypeNotReserved | Plugins/QMan.beatPlugin/QMan.js:263-265 | no cue type is one of the reserved setting names |
| QManScan.ScanLines | Plugins/QMan.beatPlugin/QMan.js:199-303 | the loop's cues are CuesOf(lines), its types are their first-occurrence order, the preferences are RegisterTypes of them, and a save happens exactly when the preferences changed |
| QManScan.CollectCue | Plugins/QMan.beatPlugin/QMan.js:270-293 | one loop step keeps that relation for the cue list extended by one |
| QManScan.RegisterNewType | Plugins/QMan.beatPlugin/QMan.js:274-283 | one registration step keeps it for the type list extended by one |
| QManRewrite.FindLine | Plugins/QMan.beatPlugin/QMan.js:834-835 | the first line at the cue's position, or none when no line is there |
| QManRewrite.ReplaceLine | Plugins/QMan.beatPlugin/QMan.js:871-902 | replacing the line's range by the new line plus the ending read from the document replaces exactly the line's own text and keeps its line break |
| QManRewrite.EndingOnPrefix | Plugins/QMan.beatPlugin/QMan.js:885-899 | the line ending read back is unchanged by any edit after the line |
| QManRewrite.EndingShifted | Plugins/QMan.beatPlugin/QMan.js:1991-2004 | the line ending read at a shifted position after edits in front equals the original one |
| QManRewrite.RenumberTextReparse | Plugins/QMan.beatPlugin/QMan.js:836-869 | the replacement text parses as the same cue with the new number, and the number's digits read back as that number |
| QManRewrite.RenumberText | Plugins/QMan.beatPlugin/QMan.js:836-869 | a line gets new text exactly when its trimmed string matches the bare or the note pattern |
| QManRewrite.LineEdit | Plugins/QMan.beatPlugin/QMan.js:871-902 | an edit exists exactly when there is a new line; it starts at the line, spans its length, and begins with the new line |
| QManRewrite.RenumberEdits | Plugins/QMan.beatPlugin/QMan.js:830-907 | one edit (or none) per cue of the tab |
| QManRewrite.RenumberEditsAt | Plugins/QMan.beatPlugin/QMan.js:830-831 | cue i of the tab is given number i + 1 |
| QManRewrite.RenumberEditShape | Plugins/QMan.beatPlugin/QMan.js:834-902 | each renumber edit sits at its cue's line, keeps the line's ending, and its new text parses as the same cue with the new number |
| QManRewrite.RenumberEditsFitOn | Plugins/QMan.beatPlugin/QMan.js:829-907 | the renumber edits of cues sitting in order on lines laid out in order are ascending, disjoint and inside the text: the line found for a cue is never after the cue's own line |
| QManRewrite.WrapTextSpec | Plugins/QMan.beatPlugin/QMan.js:1961-2011 | a line is rewritten exactly when it is a cue line whose type's hide flag changed (`!==`) and whose wrapping disagrees with the new flag |
| QManRewrite.WrapText | Plugins/QMan.beatPlugin/QMan.js:1961-2015 | a line is rewritten only when it is a cue line whose type's hide value changed (`!==`) and whose wrapping disagrees with the new hide value |
| QManRewrite.WrapTextReparse | Plugins/QMan.beatPlugin/QMan.js:1976-1978 | a wrapped line parses as the same cue, wrapped |
| QManRewrite.WrappedLineIsCue | Plugins/QMan.beatPlugin/QMan.js:1976-1978 | the next scan classifies a wrapped line as the same cue, wrapped |
| QManRewrite.WrappedText | Plugins/QMan.beatPlugin/QMan.js:1978 | the wrapped line is `[[` + trimmed line + `]]`: trimmed, starting with `[`, and a wrapped cue |
| QManRewrite.WrapThenUnwrap | Plugins/QMan.beatPlugin/QMan.js:1975-2047 | hiding a type and then showing it again gives each affected line back in its trimmed form |
| QManRewrite.WrapTextOfCue | Plugins/QMan.beatPlugin/QMan.js:1971-2011 | on a trimmed cue line the decision follows the source's branches: no change when the flags are `===`, wrap when the new flag is truthy and the line is bare, unwrap when it is falsy and the line is wrapped |
| QManRewrite.WrapEdits | Plugins/QMan.beatPlugin/QMan.js:1953-2051 | one edit (or none) per document line |
| QManRewrite.WrapEditsAt | Plugins/QMan.beatPlugin/QMan.js:1953-1975 | the j-th edit is the wrap decision for line j |
| QManRewrite.LaidOutFits | Plugins/QMan.beatPlugin/QMan.js:1979-1989 | edits that each replace one line's range, on lines laid out in order, fit the text without overlapping |
| QManRewrite.WrapEditsFit | Plugins/QMan.beatPlugin/QMan.js:1953-2051 | the wrap pass's edits fit the document |
| QManRewrite.InFrontStep | Plugins/QMan.beatPlugin/QMan.js:830-902 | going from the last cue back, each edit lands at its original position, and the text equals the reference edits applied from that cue on |
| QManRewrite.InFrontSkip | Plugins/QMan.beatPlugin/QMan.js:834-870 | a cue whose line is not found adds no edit, and the backward invariant still holds |
| QManRewrite.BehindStep | Plugins/QMan.beatPlugin/QMan.js:1953-2047 | going forward, each edit lands at its position shifted by the growth of the edits before it, and the text equals the reference edits applied up to it |
| QManRewrite.BehindSkip | Plugins/QMan.beatPlugin/QMan.js:1954-1975 | a line the wrap pass leaves alone adds no edit and no shift, and the forward invariant still holds |
| QManSession.OfType | Plugins/QMan.beatPlugin/QMan.js:815-820 | the tab filter keeps exactly the cues of that type |
| QManSession.CuesOnTab | Plugins/QMan.beatPlugin/QMan.js:815-820 | the tab's cues are drawn from the collected cues, no more of them, and on a type tab all have that type |
| QManSession.RenumberEditsFit | Plugins/QMan.beatPlugin/QMan.js:807-907 | on lines laid out in order, the renumber edits of any tab of the freshly scanned cues fit the document, so renumbering makes every one of them |
| QManSession.MergeValid | Plugins/QMan.beatPlugin/QMan.js:169 | merging valid stored preferences over valid defaults gives valid preferences with the stored values on top |
| QManSession.CueManager.constructor | Plugins/QMan.beatPlugin/QMan.js:110-134 | the session starts with the default preferences and no cues |
| QManSession.CueManager.LoadPreferences | Plugins/QMan.beatPlugin/QMan.js:162-178 | valid stored preferences are merged over the current ones, and anything else leaves them unchanged |
| QManSession.CueManager.SavePreferences | Plugins/QMan.beatPlugin/QMan.js:183-189 | the store holds the current preferences |
| QManSession.CueManager.DetectAndCollectCues | Plugins/QMan.beatPlugin/QMan.js:199-303 | the scan's cues and types as ScanLines, the registered preferences, and a store write exactly when they changed |
| QManSession.CueManager.FindLineAt | Plugins/QMan.beatPlugin/QMan.js:834-835 | the search loop finds FindLine's answer |
| QManSession.CueManager.Renumber | Plugins/QMan.beatPlugin/QMan.js:807-926 | an empty tab changes nothing; on a document whose lines are laid out in order and whose collected cues are the scan of those lines, every replacement is accepted and the text becomes the renumber edits all applied to the old text; after success the cues, types and preferences are those of a re-scan, and a refused replacement leaves them as they were |
| QManSession.CueManager.RenumberLines | Plugins/QMan.beatPlugin/QMan.js:829-907 | for a tab of a fresh scan of lines laid out in order, the backward loop makes every replacement and its text is the reference application of all renumber edits |
| QManSession.CueManager.RenumberCue | Plugins/QMan.beatPlugin/QMan.js:830-907 | one backward step extends the applied suffix of edits by one |
| QManSession.CueManager.ReplaceInPlace | Plugins/QMan.beatPlugin/QMan.js:871-902 | one in-place line replacement is the reference edit |
| QManSession.CueManager.WrapUnwrap | Plugins/QMan.beatPlugin/QMan.js:1943-2063 | on a laid-out document the text becomes all wrap edits applied, and the cues are re-collected |
| QManSession.CueManager.WrapLines | Plugins/QMan.beatPlugin/QMan.js:1952-2051 | the forward loop's text is the reference application of all wrap edits |
| QManSession.CueManager.WrapLoop | Plugins/QMan.beatPlugin/QMan.js:1953-2051 | the loop over lines applies the edits in order |
| QManSession.CueManager.WrapLine | Plugins/QMan.beatPlugin/QMan.js:1954-2049 | one forward step extends the applied prefix of edits by one and tracks the shift |
| QManSession.CueManager.ReplaceShifted | Plugins/QMan.beatPlugin/QMan.js:2006-2047 | one shifted replacement is the reference edit |
| QManSession.CueManager.ApplyPreferences | Plugins/QMan.beatPlugin/QMan.js:1859-1936 | invalid input changes nothing; valid input is stored and saved; a hide change is reported exactly when checking is on and some type's hide flag differs (`!==`); then, on laid-out lines, the wrap edits are all applied and the cues, types and preferences are those of a re-scan, saved; a refused replacement leaves the new preferences saved and the cues and types as they were |
| QManExport.Expect | Plugins/QMan.beatPlugin/QMan.js:1010 | matching a literal prefix consumes exactly its length |
| QManExport.ExpectPrefix | Plugins/QMan.beatPlugin/QMan.js:1010 | a literal prefix is consumed and the rest returned |
| QManExport.RowsSnoc | Plugins/QMan.beatPlugin/QMan.js:1012-1018 | appending a cue appends its row |
| QManExport.Records | Plugins/QMan.beatPlugin/QMan.js:1013-1015 | each record holds the cue's number, type and name |
| QManExport.AppendRows | Plugins/QMan.beatPlugin/QMan.js:1012-1018 | the forEach that appends one row per cue gives the content followed by every row in order |
| QManCsv.ExportToCsv | Plugins/QMan.beatPlugin/QMan.js:986-1036 | no cues, an empty tab, or the header followed by one quoted row per cue of the tab |
| QManCsv.UnquoteDoubled | Plugins/QMan.beatPlugin/QMan.js:1013-1015 | reading a quoted field with `""` doubling gives the field back |
| QManCsv.CsvRow | Plugins/QMan.beatPlugin/QMan.js:1013-1017 | a row starts with a quote and ends with a quote and a newline |
| QManCsv.CsvText | Plugins/QMan.beatPlugin/QMan.js:1010-1018 | the file starts with the header `Number,Type,Note` |
| QManCsv.FieldRoundTrip | Plugins/QMan.beatPlugin/QMan.js:1013-1017 | an exported field parses back to its value |
| QManCsv.RowRoundTrip | Plugins/QMan.beatPlugin/QMan.js:1017 | an exported row parses back to the cue's three fields |
| QManCsv.HeaderParses | Plugins/QMan.beatPlugin/QMan.js:1010 | the header parses as Number, Type, Note |
| QManCsv.RowsRoundTrip | Plugins/QMan.beatPlugin/QMan.js:1012-1018 | the rows parse back to the cues' records |
| QManCsv.CsvRoundTrip | Plugins/QMan.beatPlugin/QMan.js:1010-1018 | the whole file parses as the header record followed by one record per cue, so it has exactly N + 1 lines |
| QManHtml.ExportToHtml | Plugins/QMan.beatPlugin/QMan.js:1042-1115 | no cues, an empty tab, or the fixed page head, one row per cue of the tab, and the fixed tail |
| QManHtml.CellRoundTrip | Plugins/QMan.beatPlugin/QMan.js:1083-1085 | an escaped cell parses back to its text |
| QManHtml.HtmlRow | Plugins/QMan.beatPlugin/QMan.js:1082-1094 | a row opens with `<tr><td>` and closes with `</td></tr>` |
| QManHtml.HtmlText | Plugins/QMan.beatPlugin/QMan.js:1065-1097 | the page opens with the fixed head and closes with `</tbody></table></body></html>` |
| QManHtml.RowRoundTrip | Plugins/QMan.beatPlugin/QMan.js:1087-1094 | a table row parses back to the cue's fields |
| QManHtml.RowsRoundTrip | Plugins/QMan.beatPlugin/QMan.js:1082-1095 | the rows parse back to the records |
| QManHtml.HtmlRoundTrip | Plugins/QMan.beatPlugin/QMan.js:1065-1097 | the whole page parses back to the records |
| QManAppleScript.QLabCueType | Plugins/QMan.beatPlugin/QMan.js:1145-1174 | the QLab type is one of Fade, Audio, Video, Light and Memo |
| QManAppleScript.QLabCueTypeSpec | Plugins/QMan.beatPlugin/QMan.js:1145-1174 | Fade exactly when the lower-cased name has a stop/fade word; otherwise Audio for SOUND and MUSIC, Video for VIDEO and PROJECTION, Light for LIGHT, and Memo for any other type |
| QManAppleScript.FadeWordStandsAlone | Plugins/QMan.beatPlugin/QMan.js:1159 | each of the listed words between non-word characters is found |
| QManAppleScript.SpacedFadeStandsAlone | Plugins/QMan.beatPlugin/QMan.js:1159 | `fade` + white space + `in`/`out` is found |
| QManAppleScript.NoStemNoFade | Plugins/QMan.beatPlugin/QMan.js:1159 | text without `stop` or `fade` never matches |
| QManAppleScript.FadeNeedsText | Plugins/QMan.beatPlugin/QMan.js:1158 | a match needs a non-empty name, so the empty-name guard loses nothing |
| QManAppleScript.AsEscapedAppend | Plugins/QMan.beatPlugin/QMan.js:1187-1192 | the two global replacements distribute over concatenation |
| QManAppleScript.AsEscaped | Plugins/QMan.beatPlugin/QMan.js:1187-1192 | a string with no backslash and no double quote is left as it is |
| QManAppleScript.LiteralRoundTrip | Plugins/QMan.beatPlugin/QMan.js:1187-1192 | reading an AppleScript string literal of the escaped text gives the text back |
| QManAppleScript.StatementRoundTrip | Plugins/QMan.beatPlugin/QMan.js:1201-1213 | a `set … to "…"` statement parses back to its value |
| QManAppleScript.NotesEscaped | Plugins/QMan.beatPlugin/QMan.js:1193-1199 | the notes text (type and scene) is the escaped form of the plain notes |
| QManAppleScript.Notes | Plugins/QMan.beatPlugin/QMan.js:1193-1199 | the notes start with `Type: ` and the cue type, and without a scene they are exactly that |
| QManAppleScript.BlockRoundTrip | Plugins/QMan.beatPlugin/QMan.js:1200-1213 | a cue's four statements parse back to its QLab type, number, name and notes |
| QManAppleScript.BlocksRoundTrip | Plugins/QMan.beatPlugin/QMan.js:1185-1214 | all blocks parse back to the cues' QLab records |
| QManAppleScript.ScriptText | Plugins/QMan.beatPlugin/QMan.js:1177-1223 | taking off the header for the filter and time and the tail for the number of cues leaves exactly the cue blocks |
| QManAppleScript.ScriptRoundTrip | Plugins/QMan.beatPlugin/QMan.js:1177-1223 | the whole script parses back: the header for the filter and time, then one block per cue giving its QLab type, number, name and notes, then the tail for that many cues |
| QManAppleScript.ExportToAppleScript | Plugins/QMan.beatPlugin/QMan.js:1121-1246 | no cues, an empty tab, or the script of the tab's cues |
| HostDocument.Document.ReplaceRange | Plugins/QMan.beatPlugin/QMan.js:902 | an in-range replacement splices the text; any other leaves it unchanged |
| JsText.DecimalValue | Plugins/QMan.beatPlugin/QMan.js:851-852 | the decimal digits written for a number read back as that number |
| JsText.IndexOfFirst | Plugins/Keywords.beatPlugin/plugin.js:262 | `indexOf` finds the first occurrence, or none |
| JsText.ReplaceAllAppend | Plugins/QMan.beatPlugin/QMan.js:1187-1188 | a global single-character replacement distributes over concatenation |
| JsText.TrimOfTrimmed | Plugins/QMan.beatPlugin/QMan.js:1978 | `trim` leaves an already trimmed string unchanged |
| KeywordsScan.CloseFromSpec | Plugins/Keywords.beatPlugin/plugin.js:240 | the lazy `(.*?)\]\]` ends at the first `]]` with no line terminator before it |
| KeywordsScan.NotesWellFormed | Plugins/Keywords.beatPlugin/plugin.js:240-246 | every note found is a `[[…]]` span of the line with one-line content |
| KeywordsScan.NotesInOrder | Plugins/Keywords.beatPlugin/plugin.js:246 | the notes are found left to right without overlapping |
| KeywordsScan.NotesFrom | Plugins/Keywords.beatPlugin/plugin.js:240-246 | every note found lies inside the text, at or after the search start, with room for `[[` and `]]` |
| KeywordsScan.NoteRoundTrip | Plugins/Keywords.beatPlugin/plugin.js:240-247 | a note written as `[[c]]` is found with content c, and the scan continues after it |
| KeywordsScan.RunEndSpec | Plugins/Keywords.beatPlugin/plugin.js:241 | a tag name is the longest run of tag characters |
| KeywordsScan.HashesWellFormed | Plugins/Keywords.beatPlugin/plugin.js:241-249 | every hash token found is `#` + a maximal run of tag characters, and they come in order |
| KeywordsScan.HashesFrom | Plugins/Keywords.beatPlugin/plugin.js:241-249 | every hash token found has a non-empty name and lies inside the note, at or after the search start |
| KeywordsScan.HashRoundTrip | Plugins/Keywords.beatPlugin/plugin.js:241-250 | `#name` followed by a non-tag character is found as the token `name` |
| KeywordsScan.LabelColonRoundTrip | Plugins/Keywords.beatPlugin/plugin.js:258-261 | `Beat: name` or `Storyline: name`, in any case, captures the name |
| KeywordsScan.LabelSpaceRoundTrip | Plugins/Keywords.beatPlugin/plugin.js:258-261 | the label word followed only by white space also captures the name |
| KeywordsScan.TrimmedFound | Plugins/Keywords.beatPlugin/plugin.js:261-262 | the trimmed label always occurs in the note, so `indexOf` never returns -1 |
| KeywordsScan.LabelAt | Plugins/Keywords.beatPlugin/plugin.js:261-264 | when the label occurs in the note, its candidate covers exactly the label's text in the line and carries the label as its tag |
| KeywordsScan.CandidatesCover | Plugins/Keywords.beatPlugin/plugin.js:239-271 | every candidate's range holds its text in its line (the `#` token or the label), and a non-label tag is never six decimal digits |
| KeywordsScan.Candidates | Plugins/Keywords.beatPlugin/plugin.js:239-271 | every candidate names one of the document's lines |
| KeywordsScan.HashCandidatesCover | Plugins/Keywords.beatPlugin/plugin.js:249-256 | each hash candidate's absolute range is its `#name` text |
| KeywordsScan.NotesCandidatesCover | Plugins/Keywords.beatPlugin/plugin.js:246-269 | the same for all candidates of a line's notes |
| KeywordsScan.LabelledHashCandidates | Plugins/Keywords.beatPlugin/plugin.js:249-268 | in `[[Beat: #name]]` the hash pass yields `name` and the label pass yields `#name`, both over the same range |
| KeywordsIndex.Spans | Plugins/Keywords.beatPlugin/plugin.js:284-286 | the ranges (position, length) of the candidates, in order |
| KeywordsIndex.Kept | Plugins/Keywords.beatPlugin/plugin.js:254-256 | only candidates from the input are kept, never more of them than there are |
| KeywordsIndex.TagIndex.AlreadyHaveOccurrence | Plugins/Keywords.beatPlugin/plugin.js:284-286 | true exactly when the range is among the ranges of the occurrences already added |
| KeywordsIndex.KeptSpans | Plugins/Keywords.beatPlugin/plugin.js:254-267 | the kept occurrences have distinct ranges, come from the candidates, and cover every candidate's range |
| KeywordsIndex.KeptFirsts | Plugins/Keywords.beatPlugin/plugin.js:284-286 | the kept candidates are exactly the first candidate of each range |
| KeywordsIndex.KeptCover | Plugins/Keywords.beatPlugin/plugin.js:239-271 | every kept occurrence covers its text and is never a six-digit hash tag |
| KeywordsIndex.LabelledHashKeptOnce | Plugins/Keywords.beatPlugin/plugin.js:249-268 | for `[[Beat: #name]]` only the hash tag `name` is indexed; the label `#name` is dropped as a duplicate range |
| KeywordsIndex.PickColorAfterSet | Plugins/Keywords.beatPlugin/plugin.js:291-294 | after setting a tag's colour, its colour is the new one (the fallback when empty), and the other tags are unaffected |
| KeywordsIndex.PickColor | Plugins/Keywords.beatPlugin/plugin.js:291-294 | the colour is never empty: the default `#fefbc0` or the tag's own stored colour |
| KeywordsIndex.HighlightMapSpec | Plugins/Keywords.beatPlugin/plugin.js:275 | with distinct ranges, the highlights are exactly the occurrences' ranges, each in its tag's colour |
| KeywordsIndex.HighlightMap | Plugins/Keywords.beatPlugin/plugin.js:275 | a range is highlighted exactly when it is the range of one of the candidates |
| KeywordsIndex.HighlightMapAppend | Plugins/Keywords.beatPlugin/plugin.js:275 | highlighting two runs of occurrences is highlighting one and then the other |
| KeywordsIndex.WithoutAll | Plugins/Keywords.beatPlugin/plugin.js:542-546 | removing every occurrence's range leaves no highlight |
| KeywordsIndex.OfTagAppend | Plugins/Keywords.beatPlugin/plugin.js:277-281 | a tag's list over two runs is the concatenation of its lists |
| KeywordsIndex.TagOrder | Plugins/Keywords.beatPlugin/plugin.js:277-279 | the keys of tagsByName are exactly the tags that some occurrence carries |
| KeywordsIndex.TagOrderDistinct | Plugins/Keywords.beatPlugin/plugin.js:277-279 | each tag gets one list |
| KeywordsIndex.ListsPartition | Plugins/Keywords.beatPlugin/plugin.js:277-281 | the tag lists together hold exactly as many occurrences as the flat list |
| KeywordsIndex.Position | Plugins/Keywords.beatPlugin/plugin.js:191 | `indexOf` on the favourites: -1 exactly when absent, else the first index |
| KeywordsIndex.AddFavorite | Plugins/Keywords.beatPlugin/plugin.js:182-188 | the tag is a favourite afterwards, every earlier favourite stays, and at most one entry is added |
| KeywordsIndex.RemoveFavorite | Plugins/Keywords.beatPlugin/plugin.js:190-197 | the favourites lose exactly one copy of the tag when they hold it, and nothing else |
| KeywordsIndex.AddFavoriteSpec | Plugins/Keywords.beatPlugin/plugin.js:182-188 | dropping to favourites appends a tag that is absent, is idempotent, and keeps the list duplicate-free |
| KeywordsIndex.RemoveFavoriteSpec | Plugins/Keywords.beatPlugin/plugin.js:190-197 | dropping to others removes the tag and keeps the others in order |
| KeywordsIndex.RemoveUndoesAdd | Plugins/Keywords.beatPlugin/plugin.js:182-197 | removing a newly added favourite restores the list |
| KeywordsIndex.KeepTagsDistinct | Plugins/Keywords.beatPlugin/plugin.js:115-120 | pruning favourites keeps them duplicate-free |
| KeywordsIndex.KeepTagsAll | Plugins/Keywords.beatPlugin/plugin.js:115-120 | pruning keeps favourites that are all still tags |
| KeywordsIndex.KeepTags | Plugins/Keywords.beatPlugin/plugin.js:115-120 | a favourite is kept exactly when it is a current tag |
| KeywordsIndex.VisitsInOrder | Plugins/Keywords.beatPlugin/plugin.js:125-141 | successive clicks visit the occurrences at cursor, cursor + 1, … modulo the list length |
| KeywordsIndex.Visits | Plugins/Keywords.beatPlugin/plugin.js:125-141 | k clicks select k positions, each a valid index into the tag's list |
| KeywordsIndex.ClicksVisitAll | Plugins/Keywords.beatPlugin/plugin.js:125-141 | n clicks on a tag with n occurrences visit every one of them; a fresh tag starts at its first |
| KeywordsIndex.Cleared | Plugins/Keywords.beatPlugin/plugin.js:542-546 | removing the highlights of the indexed occurrences clears the highlights they made |
| KeywordsIndex.FromEmpty | Plugins/Keywords.beatPlugin/plugin.js:110-114 | gathering into an empty index keeps the candidates of this scan alone |
| KeywordsIndex.NoListWithoutTag | Plugins/Keywords.beatPlugin/plugin.js:117 | a favourite whose tag has no list is one that no occurrence carries |
| KeywordsIndex.Occurrence.constructor | Plugins/Keywords.beatPlugin/plugin.js:276 | the occurrence record carries the candidate's fields and its colour |
| KeywordsIndex.TagIndex.constructor | Plugins/Keywords.beatPlugin/plugin.js:16-47 | the colours, favourites and theme come from the stores or default to none, none and dark; the index is empty |
| KeywordsIndex.TagIndex.AddOccurrence | Plugins/Keywords.beatPlugin/plugin.js:273-282 | the new occurrence is highlighted in its tag's colour and appended to the flat list and to its tag's list (created when absent) |
| KeywordsIndex.TagIndex.GatherAllTags | Plugins/Keywords.beatPlugin/plugin.js:239-271 | the flat list becomes the kept candidates (old ones first) and the new ones are highlighted, keeping the index consistent |
| KeywordsIndex.TagIndex.AddCandidates | Plugins/Keywords.beatPlugin/plugin.js:243-270 | the loop adds exactly the candidates whose range is new |
| KeywordsIndex.TagIndex.AddIfNew | Plugins/Keywords.beatPlugin/plugin.js:254-267 | a candidate is added exactly when no occurrence has its range |
| KeywordsIndex.TagIndex.RemoveAllHighlights | Plugins/Keywords.beatPlugin/plugin.js:542-546 | the highlights of the occurrences' ranges are removed |
| KeywordsIndex.TagIndex.ReapplyAllHighlights | Plugins/Keywords.beatPlugin/plugin.js:559-565 | every occurrence is recoloured and re-highlighted in its tag's current colour |
| KeywordsIndex.TagIndex.Reapply | Plugins/Keywords.beatPlugin/plugin.js:560-564 | one occurrence's colour and highlight become its tag's colour |
| KeywordsIndex.TagIndex.PruneFavorites | Plugins/Keywords.beatPlugin/plugin.js:115-121 | the backward splice loop keeps exactly the favourites that are still tags, in order, and stores them |
| KeywordsIndex.TagIndex.OnWindowClosed | Plugins/Keywords.beatPlugin/plugin.js:231-234 | closing the window clears every highlight |
| KeywordsIndex.TagIndex.Refresh | Plugins/Keywords.beatPlugin/plugin.js:109-123 | (corrected order) the index is rebuilt from the document alone, the highlights are exactly the new occurrences', the cursors are reset, and the favourites are pruned and stored |
| KeywordsIndex.TagIndex.GatherInto | Plugins/Keywords.beatPlugin/plugin.js:239-271 | gathering into an empty index gives the document's kept candidates |
| KeywordsIndex.TagIndex.ClearIndex | Plugins/Keywords.beatPlugin/plugin.js:110-113 | the highlights are removed and the index emptied |
| KeywordsIndex.TagIndex.RefreshAsWritten | Plugins/Keywords.beatPlugin/plugin.js:109-123 | (as written) the index is rebuilt, but the old highlights stay under the new ones |
| KeywordsIndex.TagIndex.ScrollToNextOccurrence | Plugins/Keywords.beatPlugin/plugin.js:125-141 | an unknown or empty tag does nothing; otherwise the occurrence at cursor mod length is selected, scrolled to when its line exists, and the cursor advances |
| KeywordsIndex.TagIndex.HandlePillClick | Plugins/Keywords.beatPlugin/plugin.js:144-148 | the tooltip tag is set; an unknown or empty tag selects and scrolls to nothing; otherwise the occurrence at cursor mod length is selected, the view scrolls to its line's position when the line exists, and the cursor advances |
| KeywordsIndex.TagIndex.OnPillMouseLeave | Plugins/Keywords.beatPlugin/plugin.js:175-180 | the tooltip is cleared only when it belongs to that tag |
| KeywordsIndex.TagIndex.HandleTagRightClick | Plugins/Keywords.beatPlugin/plugin.js:151-156 | the colour picker's tag is set |
| KeywordsIndex.TagIndex.FinalizeTagColor | Plugins/Keywords.beatPlugin/plugin.js:158-166 | without a picked tag nothing changes; otherwise the colour is set and stored, the picker closed, and all highlights redrawn in the new colours |
| KeywordsIndex.TagIndex.PreviewTagColor | Plugins/Keywords.beatPlugin/plugin.js:168-173 | the picked tag's colour is set and the highlights are redrawn, with nothing stored |
| KeywordsIndex.TagIndex.DropToFavorites | Plugins/Keywords.beatPlugin/plugin.js:182-188 | the favourites are AddFavorite of the old ones, stored only when they changed |
| KeywordsIndex.TagIndex.DropToOthers | Plugins/Keywords.beatPlugin/plugin.js:190-197 | the favourites are RemoveFavorite of the old ones, stored only when the tag was there |
| KeywordsIndex.TagIndex.ToggleTheme | Plugins/Keywords.beatPlugin/plugin.js:199-203 | the theme flips and is stored |
| KeywordsIndex.TagIndex.Open | Plugins/Keywords.beatPlugin/plugin.js:206-213 | the first gather, with "no tags" reported exactly when nothing was indexed |
| KeywordsColor.GetContrastColor | Plugins/Keywords.beatPlugin/plugin.js:75-82 | the text colour is always `#000` or `#fff` |
| KeywordsColor.ContrastOfDigits | Plugins/Keywords.beatPlugin/plugin.js:77-81 | after the `#` is removed, the result is black or white from the three two-digit components |
| KeywordsColor.Substr | Plugins/Keywords.beatPlugin/plugin.js:77-79 | `substr` takes what there is of the requested slice |
| KeywordsColor.WithoutFirstHash | Plugins/Keywords.beatPlugin/plugin.js:76 | `replace('#', '')` drops one leading `#` and leaves a `#`-free string alone |
| KeywordsColor.ParsePair | Plugins/Keywords.beatPlugin/plugin.js:77-79 | `parseInt(…, 16)` of two hex digits is their value |
| KeywordsColor.Component | Plugins/Keywords.beatPlugin/plugin.js:77-79 | each component of a colour reads as its two-digit value |
| KeywordsColor.HexPairRoundTrip | Plugins/Keywords.beatPlugin/plugin.js:77-79 | a component written as two hex digits reads back as itself |
| KeywordsColor.ContrastOfHexColor | Plugins/Keywords.beatPlugin/plugin.js:75-82 | for six hex digits, with or without `#`, black exactly when 299 r + 587 g + 114 b exceeds 128000 |
| KeywordsColor.HashIgnored | Plugins/Keywords.beatPlugin/plugin.js:76 | the leading `#` makes no difference |
| KeywordsColor.ShortColorIsWhite | Plugins/Keywords.beatPlugin/plugin.js:79-81 | any three-digit colour gives white, because its blue component is NaN |
| KeywordsFindings.StaleHighlight | Plugins/Keywords.beatPlugin/plugin.js:109-114 | after a refresh as written, a highlighted range that no new occurrence takes keeps its old colour, while the corrected refresh drops it |
| KeywordsFindings.ListPushAsWritten | Plugins/Keywords.beatPlugin/plugin.js:277-280 | on a plain object the push fails exactly for an absent tag named like an inherited property |
| KeywordsFindings.ConstructorTagThrows | Plugins/Keywords.beatPlugin/plugin.js:249-280 | the line `[[#constructor]]` yields the tag `constructor`, whose first push throws |

## Left out

- Windows and HTML UI are not modelled: the HTML windows, their JavaScript, `updateWindowUI`, `updateCuesListInWindow`, progress indicators, alerts, logging, window centring, and the `flashHighlight` animation and its timers. They are display only.
- The text-change listeners and their debounce timers are not modelled (QMan's change timer and Keywords' `Beat.onTextChange` with its 1.5 s refresh). A refresh is an explicit call.
- QMan's `applyHighlighting` and the scroll-to-cue helpers are not modelled. They only call the host's display functions.
- `JSON.parse` and `JSON.stringify` are not modelled. Stored and received preferences arrive already parsed as `JsValue`, and a parse failure is an absent value. `QManPrefs` therefore models `safeJSONParse` returning null as `None`.
- The save dialogs and file writing of the three exports are left out. The exports return the text they would write, and a cancelled dialog is not modelled.
- `new Date().toLocaleString()` in the AppleScript header is a parameter (`generated`), because it is a clock.
- The host's line objects are inputs:
  - `Beat.lines()` is a sequence of `Line` values, with position, text, the host's heading flag, and range length.
  - The line list after an edit (`linesAfter`) is also an input, because re-parsing lines is the host's work.
  - CueManager.WrapUnwrap: the forward wrap loop is modelled on the assumption that the host keeps each line's position current as earlier lines change. The edit for line j lands at its original position plus the growth of the edits before it. Stale positions are not modelled.
- Case mapping (`toUpperCase`, `toLowerCase`, the `i` flag) is ASCII only. It is used on cue types (all ASCII `[A-Z0-9]`) and on the `stop`/`fade` and `beat`/`storyline` words.
- Keywords' tag character class `[\p{L}\p{N}\p{Emoji_Presentation}\p{M}]` is a parameter, `tagChar`. The Unicode property tables are not modelled, and the class is applied to single UTF-16 code units, so a character outside the Basic Multilingual Plane (most emoji, which the `u` flag reads as one code point) is not modelled as one tag character.
- `darkenHexColor`, `readableTextColor` and the other colour helpers that work in floating point are not modelled. They only feed the display.
- `getContrastColor`'s brightness is a double in the source. The model compares the integer sum with 128000, which decides the same (KeywordsColor.ContrastOfHexColor).
- The editor's highlights are a map from range to colour. Overlapping highlights and the order in which the host paints them are not modelled.
- QManSession.CueManager.ApplyPreferences: new preferences that are a JSON array (which `validatePreferences` accepts, because `typeof [] === "object"`, QMan.js:72) are stored as an object keyed by index. The source keeps the array (QMan.js:1872). The type entries a later scan adds then become named properties of that array, which `JSON.stringify` in savePreferences and the `oldPrefs` copy (QMan.js:1861) drop. The model keeps them, so QManSession.CueManager.SavePreferences stores them as well, and a later hide check can differ from the source's.
- KeywordsIndex.TagIndex.constructor: a value missing from the host's stores is taken to be `undefined` (`None`). The theme test is `!== undefined` (plugin.js:47), so a host that answered `null` would give the light theme where the model gives the dark one.
- QManSession.CueManager.Renumber: on lines that are not laid out in order the editor may refuse a replacement; the model then states the preferences and cues but not which replacements were made before the refusal. On laid-out lines no replacement is refused. The same holds for ApplyPreferences' wrap pass.
- QManSession.CueManager.RenumberLines: states the text it produces only when the cue lines lie within their ranges and the edits fit, which is proved for a tab of a fresh scan of lines laid out in order; otherwise it says nothing about `ok` or the text, because the editor may then refuse a replacement part way through the backward loop.
- Numbers are exact reals (`JNumber(x: real)`). Doubles, their rounding, Infinity and NaN are not modelled; `JSON.parse("1e400")` gives Infinity in the source.
- QManPrefs.TypeHash: the hash is modelled as exact integers, while the source computes it in doubles. The two agree for type names shorter than about four million code units, which is what the bound shows; longer names are not modelled.

## Findings

| source | as written | input that shows it | evidently intended | confidence | as-written member | corrected member |
|---|---|---|---|---|---|---|
| Plugins/Keywords.beatPlugin/plugin.js:109-114 | refreshUI empties `allOccurrences` before it calls `removeAllHighlights`, so nothing is removed | `[[#plot]]` edited to `[[plot]]` before a refresh: `#plot` is no longer a tag, yet its range keeps the old highlight; a later colour change or closing the window does not remove it either, since both go through `removeAllHighlights`, which walks only the current occurrences (plugin.js:542-546) | remove the old highlights first, then rebuild the index | not executed | KeywordsIndex.TagIndex.RefreshAsWritten, KeywordsFindings.StaleHighlight | KeywordsIndex.TagIndex.Refresh |
| Plugins/Keywords.beatPlugin/plugin.js:277-280 | `tagsByName` is a plain object, so `tagsByName["constructor"]` is the inherited function; no list is made and `.push` throws a TypeError | the line `[[#constructor]]` | key the lists by tag name alone, with no inherited properties (`Object.create(null)` or a `Map`) | not executed | KeywordsFindings.ListPushAsWritten, KeywordsFindings.ConstructorTagThrows | KeywordsIndex.TagIndex.AddOccurrence |
