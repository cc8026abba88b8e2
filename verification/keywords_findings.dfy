/**
 * Two places where the Keywords plugin (plugin.js) does not do what it
 * evidently means to, each written out as the code has it next to what the
 * rest of the model does instead.
 *
 * 1. refreshUI empties `allOccurrences` before it calls
 *    removeAllHighlights, so that call finds nothing to remove: the
 *    highlight of a range that is no longer a tag (`[[#plot]]` edited to
 *    `[[plot]]`) stays in the editor, and no later removal, which walks
 *    the current occurrences only, takes it away. The code as
 *    written is KeywordsIndex.TagIndex.RefreshAsWritten; StaleHighlight
 *    shows what it leaves behind; KeywordsIndex.TagIndex.Refresh removes
 *    first and keeps the highlights exactly those of the occurrences.
 *
 * 2. addOccurrence keeps its lists in a plain object. For a tag named like
 *    a property every object inherits (`constructor`, `toString`, …) the
 *    lookup finds that inherited value, which is truthy, so no list is made
 *    and the `push` that follows is not a function: a TypeError, after the
 *    tag was already highlighted. ListPushAsWritten is that step;
 *    ConstructorTagThrows exhibits a one-line document that reaches it;
 *    KeywordsIndex.TagIndex.AddOccurrence keys its lists by name alone.
 */
module KeywordsFindings {
  import opened JsText
  import opened HostDocument
  import opened KeywordsScan
  import opened KeywordsIndex

  // ---------------------------------------------------------------------
  // 1. The highlights refreshUI leaves behind
  // ---------------------------------------------------------------------

  /**
   * After a refresh as written the highlights are the old ones with the
   * new occurrences drawn over them (RefreshAsWritten's postcondition).
   * A range that was highlighted and that no new occurrence takes keeps its
   * old highlight, in its old colour, while the highlights a corrected
   * refresh leaves (those of the new occurrences alone) do not have it.
   * No lines at all is such a document: every range is stale.
   */
  lemma StaleHighlight(h: map<Span, JsString>, s: Span, lines: seq<Line>, tagChar: CodeUnit -> bool, tagColors: map<JsString, JsString>)
    requires s in h && s !in Spans(Kept(Candidates(lines, tagChar)))
    ensures var now := HighlightMap(Kept(Candidates(lines, tagChar)), tagColors);
            s in h + now && (h + now)[s] == h[s] && s !in now
    ensures Kept(Candidates([], tagChar)) == []
  {
    var cs := Kept(Candidates(lines, tagChar));
    KeptSpans(Candidates(lines, tagChar));
    HighlightMapSpec(cs, tagColors);
    assert Candidates([], tagChar) == [];
  }

  // ---------------------------------------------------------------------
  // 2. Tags named like inherited properties
  // ---------------------------------------------------------------------

  /** The tag `constructor`. */
  const CONSTRUCTOR: JsString := [0x63, 0x6F, 0x6E, 0x73, 0x74, 0x72, 0x75, 0x63, 0x74, 0x6F, 0x72]

  /** The names every plain object inherits, whose lookup on an empty `{}` is not `undefined`. */
  const INHERITED_NAMES: set<JsString> :=
    {CONSTRUCTOR, Str("toString"), Str("toLocaleString"), Str("valueOf"), Str("hasOwnProperty"),
     Str("isPrototypeOf"), Str("propertyIsEnumerable"), Str("__proto__"), Str("__defineGetter__"),
     Str("__defineSetter__"), Str("__lookupGetter__"), Str("__lookupSetter__")}

  /**
   * addOccurrence's list step on a plain object: an own list is extended;
   * an inherited name is truthy, so no list is made and `push` throws
   * (None); any other name starts a new list.
   */
  function ListPushAsWritten<T>(byName: map<JsString, seq<T>>, tag: JsString, x: T): (r: Option<map<JsString, seq<T>>>)
    ensures r.None? <==> tag !in byName && tag in INHERITED_NAMES
    ensures r.Some? ==> r.value.Keys == byName.Keys + {tag} && r.value[tag] != [] && r.value[tag][|r.value[tag]| - 1] == x
  {
    if tag in byName then Some(byName[tag := byName[tag] + [x]])
    else if tag in INHERITED_NAMES then None
    else Some(byName[tag := [x]])
  }

  /**
   * The line `[[#constructor]]`: its first candidate is the hash token
   * `#constructor` at offset 2, not special, and the list step for it on
   * the empty index throws. (The tag characters are the plugin's regular
   * expression class, which holds the letters and not `]`.)
   */
  lemma ConstructorTagThrows(tagChar: CodeUnit -> bool)
    requires forall k :: 0 <= k < |CONSTRUCTOR| ==> tagChar(CONSTRUCTOR[k])
    requires !tagChar(RBRACKET)
    ensures var line := Line(0, [LBRACKET, LBRACKET, HASH] + CONSTRUCTOR + [RBRACKET, RBRACKET], false, 16);
            var cs := Candidates([line], tagChar);
            cs != [] && cs[0] == Candidate(CONSTRUCTOR, 0, 2, 12, false)
            && ListPushAsWritten(map[], cs[0].tag, cs[0]) == None
  {
    var line := Line(0, [LBRACKET, LBRACKET, HASH] + CONSTRUCTOR + [RBRACKET, RBRACKET], false, 16);
    var n := Note(0, [HASH] + CONSTRUCTOR);
    ConstructorNotes();
    ConstructorHashes(tagChar);
    assert !SixDigits(CONSTRUCTOR);
    FirstHashCandidate(line, n, Hash(0, CONSTRUCTOR), tagChar);
  }

  /** `[[#constructor]]` holds one note, `#constructor`, at offset 0. */
  lemma ConstructorNotes()
    ensures NotesFrom([LBRACKET, LBRACKET, HASH] + CONSTRUCTOR + [RBRACKET, RBRACKET], 0) == [Note(0, [HASH] + CONSTRUCTOR)]
            && NoLineTerminator([HASH] + CONSTRUCTOR)
  {
    var note := [HASH] + CONSTRUCTOR;
    var text := [LBRACKET, LBRACKET, HASH] + CONSTRUCTOR + [RBRACKET, RBRACKET];
    assert NoteText(note);
    NoteRoundTrip(note, []);
    assert [LBRACKET, LBRACKET] + note + [RBRACKET, RBRACKET] + [] == text;
    assert NotesFrom(text, 16) == [];
  }

  /** The note `#constructor` holds one hash token, the whole name. */
  lemma ConstructorHashes(tagChar: CodeUnit -> bool)
    requires forall k :: 0 <= k < |CONSTRUCTOR| ==> tagChar(CONSTRUCTOR[k])
    ensures HashesFrom([HASH] + CONSTRUCTOR, 0, tagChar) == [Hash(0, CONSTRUCTOR)]
  {
    HashRoundTrip(CONSTRUCTOR, [], tagChar);
    assert [HASH] + CONSTRUCTOR + [] == [HASH] + CONSTRUCTOR;
    assert HashesFrom([HASH] + CONSTRUCTOR, 12, tagChar) == [];
  }

  /** A line whose one note starts with a hash token that is not a colour yields that token first. */
  lemma FirstHashCandidate(line: Line, n: Note, h: Hash, tagChar: CodeUnit -> bool)
    requires NotesFrom(line.text, 0) == [n] && NoLineTerminator(n.content)
    requires HashesFrom(n.content, 0, tagChar) == [h] && !SixDigits(h.name)
    ensures var cs := Candidates([line], tagChar);
            cs != [] && cs[0] == Candidate(h.name, 0, line.position + n.index + 2 + h.index, |h.name| + 1, false)
  {
    OneNote(line, n, tagChar);
    assert HashCandidates(line, 0, n, [h]) == [Candidate(h.name, 0, line.position + n.index + 2 + h.index, |h.name| + 1, false)];
  }
}
