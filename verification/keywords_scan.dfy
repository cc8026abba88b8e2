/**
 * The tag scan of the Keywords plugin (gatherAllTags in plugin.js): the
 * inline notes `[[ … ]]` of each line, the `#tag` tokens inside a note,
 * the six-digit names it skips and the `beat:` / `storyline:` label of a
 * note, each written out as a matcher for its regular expression. The
 * scan's nested `exec` loops meet their matches in one order, and that
 * order is the list `Candidates` below; the index (KeywordsIndex) walks it.
 *
 * The hash token's character class, `[\p{L}\p{N}\p{Emoji_Presentation}\p{M}]`,
 * is a parameter `tagChar` of the scan: every property below holds for any
 * such class.
 */
module KeywordsScan {
  import opened JsText
  import opened TextEdits
  import opened HostDocument

  const LBRACKET: CodeUnit := '[' as int
  const RBRACKET: CodeUnit := ']' as int
  const HASH: CodeUnit := '#' as int
  const COLON: CodeUnit := ':' as int
  const SPACE: CodeUnit := ' ' as int

  const BEAT: JsString := Str("beat")
  const STORYLINE: JsString := Str("storyline")

  // ---------------------------------------------------------------------
  // Inline notes: /\[\[(.*?)\]\]/g
  // ---------------------------------------------------------------------

  /** A match of the note expression: where its `[[` starts and the text between the brackets. */
  datatype Note = Note(index: nat, content: JsString)

  predicate ClosesAt(s: JsString, q: nat) {
    q + 2 <= |s| && s[q] == RBRACKET && s[q + 1] == RBRACKET
  }

  /**
   * Where the lazy `(.*?)` that starts at `i` stops: it first tries `\]\]`
   * and otherwise takes one more code unit that `.` accepts.
   */
  function CloseFrom(s: JsString, i: nat): (r: Option<nat>)
    requires i <= |s|
    ensures r.Some? ==> i <= r.value && ClosesAt(s, r.value)
    decreases |s| - i
  {
    if ClosesAt(s, i) then Some(i)
    else if i < |s| && !IsLineTerminator(s[i]) then CloseFrom(s, i + 1)
    else None
  }

  /** `q` is the shortest close for text from `i`: `]]` at `q`, none before it, and no line break in between. */
  predicate LazyClose(s: JsString, i: nat, q: nat) {
    i <= q && ClosesAt(s, q)
    && forall k :: i <= k < q ==> !IsLineTerminator(s[k]) && !ClosesAt(s, k)
  }

  /** The matches of the note expression in `s` from `i` on, in the order `exec` finds them. */
  function NotesFrom(s: JsString, i: nat): (r: seq<Note>)
    requires i <= |s|
    ensures forall n :: n in r ==> i <= n.index && n.index + |n.content| + 4 <= |s|
    decreases |s| - i
  {
    if i + 2 > |s| then []
    else if s[i] == LBRACKET && s[i + 1] == LBRACKET && CloseFrom(s, i + 2).Some? then
      var q := CloseFrom(s, i + 2).value;
      [Note(i, s[i + 2..q])] + NotesFrom(s, q + 2)
    else NotesFrom(s, i + 1)
  }

  /** What a note match is: `[[`, its content, and the shortest close after it. */
  predicate NoteAt(s: JsString, n: Note) {
    var q := n.index + 2 + |n.content|;
    q + 2 <= |s| && s[n.index] == LBRACKET && s[n.index + 1] == LBRACKET
    && s[n.index + 2..q] == n.content && LazyClose(s, n.index + 2, q)
  }

  /** The part of a note match the scan reads from: the content right after the `[[`. */
  predicate ContentAt(s: JsString, n: Note) {
    n.index + 2 + |n.content| <= |s| && forall k :: 0 <= k < |n.content| ==> s[n.index + 2 + k] == n.content[k]
  }

  // ---------------------------------------------------------------------
  // Hash tokens: /#([…]+)/gu
  // ---------------------------------------------------------------------

  /** A match of the hash expression: the offset of its `#` and the name after it. */
  datatype Hash = Hash(index: nat, name: JsString)

  /** Where the greedy run of tag characters that starts at `i` ends. */
  function RunEnd(s: JsString, i: nat, tagChar: CodeUnit -> bool): (j: nat)
    requires i <= |s|
    ensures i <= j <= |s|
    decreases |s| - i
  {
    if i < |s| && tagChar(s[i]) then RunEnd(s, i + 1, tagChar) else i
  }

  /** The matches of the hash expression in `s` from `i` on, in order. */
  function HashesFrom(s: JsString, i: nat, tagChar: CodeUnit -> bool): (r: seq<Hash>)
    requires i <= |s|
    ensures forall h :: h in r ==> i <= h.index && h.name != [] && h.index + |h.name| + 1 <= |s|
    decreases |s| - i
  {
    if i + 2 > |s| then []
    else if s[i] == HASH && tagChar(s[i + 1]) then
      var e := RunEnd(s, i + 1, tagChar);
      [Hash(i, s[i + 1..e])] + HashesFrom(s, e, tagChar)
    else HashesFrom(s, i + 1, tagChar)
  }

  /** What a hash match is: `#` and a longest non-empty run of tag characters. */
  predicate HashAt(s: JsString, h: Hash, tagChar: CodeUnit -> bool) {
    var e := h.index + 1 + |h.name|;
    e <= |s| && s[h.index] == HASH && h.name != [] && s[h.index + 1..e] == h.name
    && (forall k :: 0 <= k < |h.name| ==> tagChar(h.name[k]))
    && (e == |s| || !tagChar(s[e]))
  }

  /** `/^\d{6}$/.test(name)`: the names the scan skips. */
  predicate SixDigits(name: JsString) {
    |name| == 6 && AllDigits(name)
  }

  // ---------------------------------------------------------------------
  // The label of a note: /^\s*(beat|storyline)\b\s*[:]?\s+(.*)$/i
  // ---------------------------------------------------------------------

  predicate NoLineTerminator(s: JsString) {
    forall k :: 0 <= k < |s| ==> !IsLineTerminator(s[k])
  }

  /**
   * Where `(beat|storyline)` ends when it starts at `a`. Under the `i` flag
   * without `u`, only the ASCII letters of either case match a letter of
   * the pattern.
   */
  function LabelWordEnd(s: JsString, a: nat): (r: Option<nat>)
    requires a <= |s|
    ensures r.Some? ==> a < r.value <= |s|
  {
    if a + |BEAT| <= |s| && LowerAscii(s[a..a + |BEAT|]) == BEAT then Some(a + |BEAT|)
    else if a + |STORYLINE| <= |s| && LowerAscii(s[a..a + |STORYLINE|]) == STORYLINE then Some(a + |STORYLINE|)
    else None
  }

  /**
   * The second group of the label expression, for a note without line
   * breaks (which is every note the scan finds). Backtracking settles as
   * follows: `\s*` takes the whole run of spaces after the word; a colon
   * there is taken when spaces follow it, and the group starts after those
   * spaces; otherwise `\s*` gives back one space for `\s+` and the group
   * starts at the first code unit after the run, colon or not.
   */
  function LabelRest(note: JsString): (r: Option<JsString>)
    requires NoLineTerminator(note)
    ensures r.Some? ==> |r.value| <= |note| && note[|note| - |r.value|..] == r.value
  {
    match LabelWordEnd(note, SkipSpaces(note, 0))
    case None => None
    case Some(w) => AfterLabelWord(note, w)
  }

  /** `\b\s*[:]?\s+(.*)$` after the label word, which ends at `w`. */
  function AfterLabelWord(note: JsString, w: nat): (r: Option<JsString>)
    requires w <= |note|
    ensures r.Some? ==> |r.value| <= |note| - w && note[|note| - |r.value|..] == r.value
  {
    if w < |note| && IsWordChar(note[w]) then None
    else
      var k := SkipSpaces(note, w);
      if k < |note| && note[k] == COLON && SkipSpaces(note, k + 1) > k + 1 then Some(note[SkipSpaces(note, k + 1)..])
      else if k > w then Some(note[k..])
      else None
  }

  // ---------------------------------------------------------------------
  // What the scan registers, in order
  // ---------------------------------------------------------------------

  /** An occurrence the scan asks the index to add: the arguments of addOccurrence. */
  datatype Candidate = Candidate(tag: JsString, lineIndex: nat, absPos: int, matchLen: nat, special: bool)

  /** The hash tokens of a note whose names are not six digits, as occurrences. */
  function HashCandidates(line: Line, i: nat, n: Note, hs: seq<Hash>): seq<Candidate> {
    if hs == [] then [] else HashCandidate(line, i, n, hs[0]) + HashCandidates(line, i, n, hs[1..])
  }

  /** One hash token of note `n` in line `i`: skipped when its name is six digits (a colour), otherwise `#` and the name. */
  function HashCandidate(line: Line, i: nat, n: Note, h: Hash): seq<Candidate> {
    if SixDigits(h.name) then []
    else [Candidate(h.name, i, line.position + n.index + 2 + h.index, |h.name| + 1, false)]
  }

  /**
   * The label of a note, when it has one (`captured` is what the label
   * expression captured): its trimmed text, found where it first occurs in
   * the note.
   */
  function LabelCandidate(line: Line, i: nat, n: Note, captured: Option<JsString>): seq<Candidate> {
    match captured
    case None => []
    case Some(rest) => [LabelAt(line, i, n, Trim(rest))]
  }

  /** The label `name` of note `n` in line `i`, where it first occurs in the note. */
  function LabelAt(line: Line, i: nat, n: Note, name: JsString): (r: Candidate)
    ensures ContentAt(line.text, n) && IndexOf(n.content, name) >= 0 ==> CoversText(line, r) && r.tag == name
  {
    var j := IndexOf(n.content, name);
    if ContentAt(line.text, n) && j >= 0 then
      FoundCovers(line, i, n, name, j);
      Candidate(name, i, line.position + n.index + 2 + j, |name|, true)
    else Candidate(name, i, line.position + n.index + 2 + j, |name|, true)
  }

  /** A note's hash tokens, then its label. */
  function NoteCandidates(line: Line, i: nat, n: Note, tagChar: CodeUnit -> bool): seq<Candidate>
    requires NoLineTerminator(n.content)
  {
    HashCandidates(line, i, n, HashesFrom(n.content, 0, tagChar)) + LabelCandidate(line, i, n, LabelRest(n.content))
  }

  /** The candidates of the notes `ns` of line `i`. */
  function NotesCandidates(line: Line, i: nat, ns: seq<Note>, tagChar: CodeUnit -> bool): seq<Candidate>
    requires forall n :: n in ns ==> NoLineTerminator(n.content)
  {
    if ns == [] then []
    else NoteCandidates(line, i, ns[0], tagChar) + NotesCandidates(line, i, ns[1..], tagChar)
  }

  /** The candidates of the lines from `i` on, line by line and note by note. */
  function CandidatesFrom(lines: seq<Line>, i: nat, tagChar: CodeUnit -> bool): seq<Candidate>
    requires i <= |lines|
    decreases |lines| - i
  {
    if i == |lines| then []
    else
      var ns := NotesFrom(lines[i].text, 0);
      NotesContentFree(lines[i].text, 0);
      NotesCandidates(lines[i], i, ns, tagChar) + CandidatesFrom(lines, i + 1, tagChar)
  }

  /** Every candidate of `cs` belongs to one of `n` lines. */
  predicate InLines(cs: seq<Candidate>, n: nat) {
    forall k :: 0 <= k < |cs| ==> cs[k].lineIndex < n
  }

  /** Everything gatherAllTags asks the index to add, in order. */
  function Candidates(lines: seq<Line>, tagChar: CodeUnit -> bool): (r: seq<Candidate>)
    ensures InLines(r, |lines|)
  {
    CandidatesCover(lines, 0, tagChar);
    CandidatesFrom(lines, 0, tagChar)
  }

  /** The text an occurrence covers: `#` and the name for a hash token, the name itself for a label. */
  predicate CoversText(line: Line, c: Candidate) {
    var o := c.absPos - line.position;
    0 <= o && o + c.matchLen <= |line.text|
    && line.text[o..o + c.matchLen] == (if c.special then c.tag else [HASH] + c.tag)
  }

  // ---------------------------------------------------------------------
  // Notes
  // ---------------------------------------------------------------------

  /** The lazy close found is exactly the shortest close. */
  lemma {:induction false} CloseFromSpec(s: JsString, i: nat, q: nat)
    requires i <= |s|
    ensures CloseFrom(s, i) == Some(q) <==> LazyClose(s, i, q)
    decreases |s| - i
  {
    if ClosesAt(s, i) {
    } else if i < |s| && !IsLineTerminator(s[i]) {
      CloseFromSpec(s, i + 1, q);
      if LazyClose(s, i, q) {
        assert LazyClose(s, i + 1, q);
      }
    } else if LazyClose(s, i, q) {
      assert false;
    }
  }

  lemma CloseFromNote(s: JsString, i: nat)
    requires i + 2 <= |s| && s[i] == LBRACKET && s[i + 1] == LBRACKET && CloseFrom(s, i + 2).Some?
    ensures NoteAt(s, Note(i, s[i + 2..CloseFrom(s, i + 2).value]))
  {
    var q := CloseFrom(s, i + 2).value;
    CloseFromSpec(s, i + 2, q);
  }

  /** Notes in order, each ending before the next begins. */
  predicate NotesOrdered(ns: seq<Note>) {
    forall k :: 0 <= k < |ns| - 1 ==> ns[k].index + |ns[k].content| + 4 <= ns[k + 1].index
  }

  lemma NotesOrderedCons(x: Note, ns: seq<Note>)
    requires NotesOrdered(ns) && forall n :: n in ns ==> x.index + |x.content| + 4 <= n.index
    ensures NotesOrdered([x] + ns)
  {
    var xs := [x] + ns;
    forall k | 0 <= k < |xs| - 1
      ensures xs[k].index + |xs[k].content| + 4 <= xs[k + 1].index
    {
      assert xs[k + 1] == ns[k];
      if k > 0 {
        assert xs[k] == ns[k - 1];
      }
    }
  }

  lemma NotesSkip(s: JsString, i: nat)
    requires i + 2 <= |s| && !(s[i] == LBRACKET && s[i + 1] == LBRACKET && CloseFrom(s, i + 2).Some?)
    ensures NotesFrom(s, i) == NotesFrom(s, i + 1)
  {
  }

  lemma NotesTake(s: JsString, i: nat)
    requires i + 2 <= |s| && s[i] == LBRACKET && s[i + 1] == LBRACKET && CloseFrom(s, i + 2).Some?
    ensures var q := CloseFrom(s, i + 2).value;
            NotesFrom(s, i) == [Note(i, s[i + 2..q])] + NotesFrom(s, q + 2)
  {
  }

  /** Every note found is a `[[`, its content and the shortest close. */
  lemma {:induction false} NotesWellFormed(s: JsString, i: nat)
    requires i <= |s|
    ensures forall n :: n in NotesFrom(s, i) ==> i <= n.index && NoteAt(s, n)
    decreases |s| - i
  {
    if i + 2 > |s| {
    } else if s[i] == LBRACKET && s[i + 1] == LBRACKET && CloseFrom(s, i + 2).Some? {
      var q := CloseFrom(s, i + 2).value;
      CloseFromNote(s, i);
      NotesWellFormed(s, q + 2);
      NotesTake(s, i);
    } else {
      NotesSkip(s, i);
      NotesWellFormed(s, i + 1);
    }
  }

  /** The notes come in order, each ending before the next begins. */
  lemma {:induction false} NotesInOrder(s: JsString, i: nat)
    requires i <= |s|
    ensures NotesOrdered(NotesFrom(s, i))
    decreases |s| - i
  {
    if i + 2 > |s| {
    } else if s[i] == LBRACKET && s[i + 1] == LBRACKET && CloseFrom(s, i + 2).Some? {
      var q := CloseFrom(s, i + 2).value;
      NotesInOrder(s, q + 2);
      NotesTake(s, i);
      NotesOrderedCons(Note(i, s[i + 2..q]), NotesFrom(s, q + 2));
    } else {
      NotesSkip(s, i);
      NotesInOrder(s, i + 1);
    }
  }

  lemma NoteContentFree(s: JsString, n: Note)
    requires NoteAt(s, n)
    ensures NoLineTerminator(n.content)
  {
    var p, q := n.index + 2, n.index + 2 + |n.content|;
    forall j | 0 <= j < |n.content|
      ensures !IsLineTerminator(n.content[j])
    {
      assert s[p..q][j] == s[p + j];
    }
  }

  /** No note holds a line break: `.` does not match one. */
  lemma NotesContentFree(s: JsString, i: nat)
    requires i <= |s|
    ensures forall n :: n in NotesFrom(s, i) ==> NoLineTerminator(n.content)
  {
    NotesWellFormed(s, i);
    forall n | n in NotesFrom(s, i)
      ensures NoLineTerminator(n.content)
    {
      NoteContentFree(s, n);
    }
  }

  /** Text fit to stand in a note: no line break, no `]]`, and no `]` at its end. */
  predicate NoteText(c: JsString) {
    NoLineTerminator(c)
    && (forall k :: 0 <= k < |c| - 1 ==> !(c[k] == RBRACKET && c[k + 1] == RBRACKET))
    && (c == [] || c[|c| - 1] != RBRACKET)
  }

  lemma NoteOpens(s: JsString, c: JsString)
    requires NoteText(c) && |c| + 4 <= |s|
    requires s[0] == LBRACKET && s[1] == LBRACKET && s[2..2 + |c|] == c && ClosesAt(s, 2 + |c|)
    ensures NotesFrom(s, 0) == [Note(0, c)] + NotesFrom(s, |c| + 4)
  {
    var q := 2 + |c|;
    forall k | 2 <= k < q
      ensures !IsLineTerminator(s[k]) && !ClosesAt(s, k)
    {
      assert s[k] == s[2..q][k - 2];
      if k + 1 < q {
        assert s[k + 1] == s[2..q][k - 1];
      }
    }
    CloseFromSpec(s, 2, q);
  }

  /** `[[c]]` at the start of a line reads back as the note `c`. */
  lemma NoteRoundTrip(c: JsString, rest: JsString)
    requires NoteText(c)
    ensures var s := [LBRACKET, LBRACKET] + c + [RBRACKET, RBRACKET] + rest;
            NotesFrom(s, 0) == [Note(0, c)] + NotesFrom(s, |c| + 4)
  {
    NoteShape(c, rest);
    NoteOpens([LBRACKET, LBRACKET] + c + [RBRACKET, RBRACKET] + rest, c);
  }

  lemma NoteShape(c: JsString, rest: JsString)
    ensures var s := [LBRACKET, LBRACKET] + c + [RBRACKET, RBRACKET] + rest;
            |c| + 4 <= |s| && s[0] == LBRACKET && s[1] == LBRACKET && s[2..2 + |c|] == c && ClosesAt(s, 2 + |c|)
  {
    var s := [LBRACKET, LBRACKET] + c + [RBRACKET, RBRACKET] + rest;
    assert s[2..2 + |c|] == c;
  }

  // ---------------------------------------------------------------------
  // Hash tokens
  // ---------------------------------------------------------------------

  lemma {:induction false} RunEndSpec(s: JsString, i: nat, tagChar: CodeUnit -> bool)
    requires i <= |s|
    ensures var e := RunEnd(s, i, tagChar);
            (forall k :: i <= k < e ==> tagChar(s[k])) && (e == |s| || !tagChar(s[e]))
    decreases |s| - i
  {
    if i < |s| && tagChar(s[i]) {
      RunEndSpec(s, i + 1, tagChar);
    }
  }

  lemma {:induction false} RunEndUnique(s: JsString, i: nat, e: nat, tagChar: CodeUnit -> bool)
    requires i <= e <= |s|
    requires forall k :: i <= k < e ==> tagChar(s[k])
    requires e == |s| || !tagChar(s[e])
    ensures RunEnd(s, i, tagChar) == e
    decreases e - i
  {
    if i < e {
      RunEndUnique(s, i + 1, e, tagChar);
    }
  }

  /** Hash matches in order, each ending before the next begins. */
  predicate HashesOrdered(hs: seq<Hash>) {
    forall k :: 0 <= k < |hs| - 1 ==> hs[k].index + 1 + |hs[k].name| <= hs[k + 1].index
  }

  lemma HashesOrderedCons(x: Hash, hs: seq<Hash>)
    requires HashesOrdered(hs) && forall h :: h in hs ==> x.index + 1 + |x.name| <= h.index
    ensures HashesOrdered([x] + hs)
  {
    var xs := [x] + hs;
    forall k | 0 <= k < |xs| - 1
      ensures xs[k].index + 1 + |xs[k].name| <= xs[k + 1].index
    {
      assert xs[k + 1] == hs[k];
      if k > 0 {
        assert xs[k] == hs[k - 1];
      }
    }
  }

  lemma HashFound(s: JsString, i: nat, tagChar: CodeUnit -> bool)
    requires i + 2 <= |s| && s[i] == HASH && tagChar(s[i + 1])
    ensures HashAt(s, Hash(i, s[i + 1..RunEnd(s, i + 1, tagChar)]), tagChar)
  {
    var e := RunEnd(s, i + 1, tagChar);
    RunEndSpec(s, i + 1, tagChar);
    var name := s[i + 1..e];
    forall k | 0 <= k < |name|
      ensures tagChar(name[k])
    {
      assert name[k] == s[i + 1 + k];
    }
  }

  /** Every hash match is `#` and a longest run of tag characters, and they come in order without overlapping. */
  lemma {:induction false} HashesWellFormed(s: JsString, i: nat, tagChar: CodeUnit -> bool)
    requires i <= |s|
    ensures forall h :: h in HashesFrom(s, i, tagChar) ==> i <= h.index && HashAt(s, h, tagChar)
    ensures HashesOrdered(HashesFrom(s, i, tagChar))
    decreases |s| - i
  {
    if i + 2 > |s| {
    } else if s[i] == HASH && tagChar(s[i + 1]) {
      var e := RunEnd(s, i + 1, tagChar);
      var x := Hash(i, s[i + 1..e]);
      HashFound(s, i, tagChar);
      HashesWellFormed(s, e, tagChar);
      assert HashesFrom(s, i, tagChar) == [x] + HashesFrom(s, e, tagChar);
      HashesOrderedCons(x, HashesFrom(s, e, tagChar));
    } else {
      assert HashesFrom(s, i, tagChar) == HashesFrom(s, i + 1, tagChar);
      HashesWellFormed(s, i + 1, tagChar);
    }
  }

  lemma HashOpens(s: JsString, p: nat, name: JsString, tagChar: CodeUnit -> bool)
    requires name != [] && forall k :: 0 <= k < |name| ==> tagChar(name[k])
    requires p + 1 + |name| <= |s| && s[p] == HASH && s[p + 1..p + 1 + |name|] == name
    requires p + 1 + |name| == |s| || !tagChar(s[p + 1 + |name|])
    ensures HashesFrom(s, p, tagChar) == [Hash(p, name)] + HashesFrom(s, p + 1 + |name|, tagChar)
  {
    var e := p + 1 + |name|;
    forall k | p + 1 <= k < e
      ensures tagChar(s[k])
    {
      assert s[k] == s[p + 1..e][k - p - 1];
    }
    RunEndUnique(s, p + 1, e, tagChar);
    assert s[p + 1] == name[0];
  }

  /** No hash match starts where there is no `#`. */
  lemma {:induction false} HashesSkip(s: JsString, i: nat, p: nat, tagChar: CodeUnit -> bool)
    requires i <= p && p + 2 <= |s|
    requires forall k :: i <= k < p ==> s[k] != HASH
    ensures HashesFrom(s, i, tagChar) == HashesFrom(s, p, tagChar)
    decreases p - i
  {
    if i < p {
      HashesSkip(s, i + 1, p, tagChar);
    }
  }

  /** `#name` followed by a code unit outside the class reads back as the token `name`. */
  lemma HashRoundTrip(name: JsString, rest: JsString, tagChar: CodeUnit -> bool)
    requires name != [] && forall k :: 0 <= k < |name| ==> tagChar(name[k])
    requires rest == [] || !tagChar(rest[0])
    ensures var s := [HASH] + name + rest;
            HashesFrom(s, 0, tagChar) == [Hash(0, name)] + HashesFrom(s, |name| + 1, tagChar)
  {
    var s := [HASH] + name + rest;
    assert s[1..1 + |name|] == name;
    if rest != [] {
      assert s[1 + |name|] == rest[0];
    }
    HashOpens(s, 0, name, tagChar);
  }

  // ---------------------------------------------------------------------
  // Labels
  // ---------------------------------------------------------------------

  /** The two label words are lower-case ASCII letters and differ in their first letter. */
  lemma LabelWords()
    ensures |BEAT| == 4 && |STORYLINE| == 9 && BEAT[0] != STORYLINE[0]
    ensures forall k :: 0 <= k < |BEAT| ==> IsLower(BEAT[k])
    ensures forall k :: 0 <= k < |STORYLINE| ==> IsLower(STORYLINE[k])
  {
  }

  /** A label word, in either case, is made of letters. */
  lemma LabelWordShape(lw: JsString)
    requires LowerAscii(lw) == BEAT || LowerAscii(lw) == STORYLINE
    ensures lw != []
    ensures forall k :: 0 <= k < |lw| ==> IsWordChar(lw[k]) && !IsSpace(lw[k]) && !IsLineTerminator(lw[k])
  {
    LabelWords();
    forall k | 0 <= k < |lw|
      ensures IsWordChar(lw[k]) && !IsSpace(lw[k]) && !IsLineTerminator(lw[k])
    {
      assert LowerAscii(lw)[k] == ToLowerAscii(lw[k]);
    }
  }

  /** A note that starts with a label word has it end where the word ends. */
  lemma LabelStart(lw: JsString, tail: JsString)
    requires LowerAscii(lw) == BEAT || LowerAscii(lw) == STORYLINE
    ensures LabelWordEnd(lw + tail, SkipSpaces(lw + tail, 0)) == Some(|lw|)
  {
    LabelWords();
    LabelWordShape(lw);
    var s := lw + tail;
    assert s[0] == lw[0];
    SkipSpacesUnique(s, 0, 0);
    assert s[0..|lw|] == lw;
    if LowerAscii(lw) == STORYLINE && |BEAT| <= |s| {
      assert LowerAscii(s[0..|BEAT|])[0] == ToLowerAscii(lw[0]) == LowerAscii(lw)[0];
    }
  }

  lemma AfterColon(note: JsString, w: nat, name: JsString)
    requires w + 2 <= |note| && note[w] == COLON && note[w + 1] == SPACE && note[w + 2..] == name
    requires name == [] || !IsSpace(name[0])
    ensures AfterLabelWord(note, w) == Some(name)
  {
    SkipSpacesUnique(note, w, w);
    if name != [] {
      assert note[w + 2] == name[0];
    }
    SkipSpacesUnique(note, w + 1, w + 2);
  }

  lemma AfterSpaces(note: JsString, w: nat, k: nat, name: JsString)
    requires w < k <= |note| && (forall j :: w <= j < k ==> IsSpace(note[j])) && note[k..] == name
    requires name != [] && !IsSpace(name[0]) && name[0] != COLON
    ensures AfterLabelWord(note, w) == Some(name)
  {
    assert note[k] == name[0];
    SkipSpacesUnique(note, w, k);
  }

  /** `label: name` reads back as `name`, for a name that starts with neither a space nor a line break. */
  lemma LabelColonRoundTrip(lw: JsString, name: JsString)
    requires LowerAscii(lw) == BEAT || LowerAscii(lw) == STORYLINE
    requires NoLineTerminator(name) && (name == [] || !IsSpace(name[0]))
    ensures var note := lw + [COLON, SPACE] + name;
            NoLineTerminator(note) && LabelRest(note) == Some(name)
  {
    var note := lw + [COLON, SPACE] + name;
    var w := |lw|;
    LabelWordShape(lw);
    forall j | 0 <= j < |note|
      ensures !IsLineTerminator(note[j])
    {
      if j < w {
        assert note[j] == lw[j];
      } else if j >= w + 2 {
        assert note[j] == name[j - w - 2];
      }
    }
    assert note == lw + ([COLON, SPACE] + name);
    LabelStart(lw, [COLON, SPACE] + name);
    assert note[w + 2..] == name;
    AfterColon(note, w, name);
  }

  /** `label name`, spaces alone separating them, reads back as `name`. */
  lemma LabelSpaceRoundTrip(lw: JsString, spaces: JsString, name: JsString)
    requires LowerAscii(lw) == BEAT || LowerAscii(lw) == STORYLINE
    requires spaces != [] && AllSpaces(spaces) && NoLineTerminator(spaces)
    requires NoLineTerminator(name) && name != [] && !IsSpace(name[0]) && name[0] != COLON
    ensures var note := lw + spaces + name;
            NoLineTerminator(note) && LabelRest(note) == Some(name)
  {
    var note := lw + spaces + name;
    var w, k := |lw|, |lw| + |spaces|;
    LabelWordShape(lw);
    forall j | 0 <= j < |note|
      ensures !IsLineTerminator(note[j]) && (w <= j < k ==> IsSpace(note[j]))
    {
      if j < w {
        assert note[j] == lw[j];
      } else if j < k {
        assert note[j] == spaces[j - w];
      } else {
        assert note[j] == name[j - k];
      }
    }
    assert note == lw + (spaces + name);
    LabelStart(lw, spaces + name);
    assert note[k..] == name;
    AfterSpaces(note, w, k, name);
  }

  // ---------------------------------------------------------------------
  // What each candidate covers
  // ---------------------------------------------------------------------

  /** A name after trimming is still found in the note. */
  lemma TrimmedFound(note: JsString, rest: JsString)
    requires |rest| <= |note| && note[|note| - |rest|..] == rest
    ensures 0 <= IndexOf(note, Trim(rest)) && OccursAt(note, Trim(rest), IndexOf(note, Trim(rest)))
  {
    var a, b := SkipSpaces(rest, 0), SpaceFreeEnd(rest);
    var d := |note| - |rest|;
    IndexOfFirst(note, Trim(rest));
    if a < b {
      assert Trim(rest) == rest[a..b];
      assert rest[0..] == rest;
      SlicesAgree(note, rest, d, 0, a, b);
      assert OccursAt(note, Trim(rest), d + a);
    } else {
      assert Trim(rest) == [];
      assert OccursAt(note, Trim(rest), 0);
    }
  }

  /** The offsets of a note's content within its line. */
  lemma NoteSlice(line: Line, n: Note, j: nat, len: nat)
    requires ContentAt(line.text, n) && j + len <= |n.content|
    ensures line.text[n.index + 2 + j..n.index + 2 + j + len] == n.content[j..j + len]
  {
    var p := n.index + 2;
    var x, y := line.text[p + j..p + j + len], n.content[j..j + len];
    forall k | 0 <= k < len
      ensures x[k] == y[k]
    {
      assert line.text[p + j + k] == n.content[j + k];
    }
  }

  lemma NoteContent(s: JsString, n: Note)
    requires NoteAt(s, n)
    ensures ContentAt(s, n)
  {
    var p := n.index + 2;
    forall k | 0 <= k < |n.content|
      ensures s[p + k] == n.content[k]
    {
      assert s[p..p + |n.content|][k] == s[p + k];
    }
  }

  /** A hash token's match is `#` followed by its name. */
  lemma HashSlice(s: JsString, h: Hash, tagChar: CodeUnit -> bool)
    requires HashAt(s, h, tagChar)
    ensures s[h.index..h.index + |h.name| + 1] == [HASH] + h.name
  {
    var x := s[h.index..h.index + |h.name| + 1];
    assert x[0] == HASH;
    assert x[1..] == s[h.index + 1..h.index + 1 + |h.name|];
  }

  lemma HashCovers(line: Line, i: nat, n: Note, h: Hash, tagChar: CodeUnit -> bool)
    requires ContentAt(line.text, n) && HashAt(n.content, h, tagChar)
    ensures CoversText(line, Candidate(h.name, i, line.position + n.index + 2 + h.index, |h.name| + 1, false))
  {
    var o := n.index + 2 + h.index;
    HashInLine(line, n, h, tagChar);
    SliceCovers(line, Candidate(h.name, i, line.position + o, |h.name| + 1, false), o);
  }

  /** The text of a hash token of a note's content is found in the line at the note's offset. */
  lemma HashInLine(line: Line, n: Note, h: Hash, tagChar: CodeUnit -> bool)
    requires ContentAt(line.text, n) && HashAt(n.content, h, tagChar)
    ensures var o := n.index + 2 + h.index;
            o + |h.name| + 1 <= |line.text| && line.text[o..o + |h.name| + 1] == [HASH] + h.name
  {
    NoteSlice(line, n, h.index, |h.name| + 1);
    HashSlice(n.content, h, tagChar);
  }

  /** A candidate covers the text its range holds. */
  lemma SliceCovers(line: Line, c: Candidate, o: int)
    requires o == c.absPos - line.position && 0 <= o && o + c.matchLen <= |line.text|
    requires line.text[o..o + c.matchLen] == if c.special then c.tag else [HASH] + c.tag
    ensures CoversText(line, c)
  {
  }

  /** Every candidate in `cs` belongs to line `i`, covers its text there, and is no six-digit hash token. */
  ghost predicate CoverAll(line: Line, i: nat, cs: seq<Candidate>) {
    forall c :: c in cs ==> c.lineIndex == i && CoversText(line, c) && (!c.special ==> !SixDigits(c.tag))
  }

  lemma CoverOne(line: Line, i: nat, c: Candidate)
    requires c.lineIndex == i && CoversText(line, c) && (!c.special ==> !SixDigits(c.tag))
    ensures CoverAll(line, i, [c])
  {
  }

  lemma CoverAllAppend(line: Line, i: nat, a: seq<Candidate>, b: seq<Candidate>)
    requires CoverAll(line, i, a) && CoverAll(line, i, b)
    ensures CoverAll(line, i, a + b)
  {
  }

  lemma HashCandidateCovers(line: Line, i: nat, n: Note, h: Hash, tagChar: CodeUnit -> bool)
    requires ContentAt(line.text, n) && HashAt(n.content, h, tagChar)
    ensures CoverAll(line, i, HashCandidate(line, i, n, h))
  {
    if !SixDigits(h.name) {
      HashCovers(line, i, n, h, tagChar);
      CoverOne(line, i, Candidate(h.name, i, line.position + n.index + 2 + h.index, |h.name| + 1, false));
    }
  }

  lemma {:induction false} HashCandidatesCover(line: Line, i: nat, n: Note, hs: seq<Hash>, tagChar: CodeUnit -> bool)
    requires ContentAt(line.text, n)
    requires forall h :: h in hs ==> HashAt(n.content, h, tagChar)
    ensures CoverAll(line, i, HashCandidates(line, i, n, hs))
  {
    if hs != [] {
      assert hs[0] in hs;
      HashCandidateCovers(line, i, n, hs[0], tagChar);
      assert forall g :: g in hs[1..] ==> g in hs;
      HashCandidatesCover(line, i, n, hs[1..], tagChar);
      CoverAllAppend(line, i, HashCandidate(line, i, n, hs[0]), HashCandidates(line, i, n, hs[1..]));
    }
  }

  /** Text found in a note's content is found in its line, past the note's `[[`. */
  lemma FoundCovers(line: Line, i: nat, n: Note, name: JsString, j: int)
    requires ContentAt(line.text, n) && OccursAt(n.content, name, j)
    ensures CoversText(line, Candidate(name, i, line.position + n.index + 2 + j, |name|, true))
  {
    NoteSlice(line, n, j, |name|);
  }

  /** The label's candidate, when there is one, covers its name in the line. */
  lemma LabelCandidateCovers(line: Line, i: nat, n: Note, captured: Option<JsString>)
    requires ContentAt(line.text, n)
    requires captured.Some? ==> |captured.value| <= |n.content| && n.content[|n.content| - |captured.value|..] == captured.value
    ensures CoverAll(line, i, LabelCandidate(line, i, n, captured))
  {
    match captured
    case None =>
    case Some(rest) => LabelAtCovers(line, i, n, rest);
  }

  lemma LabelAtCovers(line: Line, i: nat, n: Note, rest: JsString)
    requires ContentAt(line.text, n) && |rest| <= |n.content| && n.content[|n.content| - |rest|..] == rest
    ensures CoverAll(line, i, [LabelAt(line, i, n, Trim(rest))])
  {
    LabelAtText(line, i, n, rest);
    CoverOne(line, i, LabelAt(line, i, n, Trim(rest)));
  }

  lemma LabelAtText(line: Line, i: nat, n: Note, rest: JsString)
    requires ContentAt(line.text, n) && |rest| <= |n.content| && n.content[|n.content| - |rest|..] == rest
    ensures CoversText(line, LabelAt(line, i, n, Trim(rest)))
  {
    TrimmedFound(n.content, rest);
  }

  lemma {:induction false} NotesCandidatesCover(line: Line, i: nat, ns: seq<Note>, tagChar: CodeUnit -> bool)
    requires forall n :: n in ns ==> NoteAt(line.text, n) && NoLineTerminator(n.content)
    ensures CoverAll(line, i, NotesCandidates(line, i, ns, tagChar))
  {
    if ns != [] {
      var n := ns[0];
      NoteContent(line.text, n);
      HashesWellFormed(n.content, 0, tagChar);
      HashCandidatesCover(line, i, n, HashesFrom(n.content, 0, tagChar), tagChar);
      LabelCandidateCovers(line, i, n, LabelRest(n.content));
      CoverAllAppend(line, i, HashCandidates(line, i, n, HashesFrom(n.content, 0, tagChar)), LabelCandidate(line, i, n, LabelRest(n.content)));
      assert forall m :: m in ns[1..] ==> m in ns;
      NotesCandidatesCover(line, i, ns[1..], tagChar);
      CoverAllAppend(line, i, NoteCandidates(line, i, n, tagChar), NotesCandidates(line, i, ns[1..], tagChar));
    }
  }

  /**
   * Every occurrence the scan registers belongs to a line and covers, in
   * that line, `#` and its tag (its length counts the `#`) or, for a label,
   * the label's name; no hash token of six digits is registered.
   */
  lemma {:induction false} CandidatesCover(lines: seq<Line>, i: nat, tagChar: CodeUnit -> bool)
    requires i <= |lines|
    ensures forall c :: c in CandidatesFrom(lines, i, tagChar) ==>
              i <= c.lineIndex < |lines| && CoversText(lines[c.lineIndex], c) && (!c.special ==> !SixDigits(c.tag))
    decreases |lines| - i
  {
    if i < |lines| {
      var ns := NotesFrom(lines[i].text, 0);
      NotesWellFormed(lines[i].text, 0);
      NotesContentFree(lines[i].text, 0);
      NotesCandidatesCover(lines[i], i, ns, tagChar);
      CandidatesCover(lines, i + 1, tagChar);
    }
  }

  // ---------------------------------------------------------------------
  // A label that is itself a hash token
  // ---------------------------------------------------------------------

  /**
   * The note of `[[storyline: #name]]` (or `beat:`, in any case): the hash
   * token comes first, then the label, whose text `#name` covers the same
   * code units.
   */
  lemma {:induction false} LabelledHashCandidates(lw: JsString, name: JsString, tagChar: CodeUnit -> bool, line: Line)
    requires LowerAscii(lw) == BEAT || LowerAscii(lw) == STORYLINE
    requires name != [] && !SixDigits(name)
    requires forall k :: 0 <= k < |name| ==> tagChar(name[k]) && name[k] != RBRACKET && !IsSpace(name[k])
    requires line.text == [LBRACKET, LBRACKET] + lw + [COLON, SPACE] + [HASH] + name + [RBRACKET, RBRACKET]
    ensures var at := line.position + |lw| + 4;
            Candidates([line], tagChar)
              == [Candidate(name, 0, at, |name| + 1, false), Candidate([HASH] + name, 0, at, |name| + 1, true)]
  {
    var c := lw + [COLON, SPACE] + [HASH] + name;
    var n := Note(0, c);
    assert LabelWord(lw) && PlainName(name) && TagName(name, tagChar);
    LabelledNoteFound(lw, name, c, line);
    LabelledHash(lw, name, c, tagChar, line);
    LabelledLabel(lw, name, c);
    LabelledLabelAt(lw, name, c, line);
    var at := line.position + |lw| + 4;
    HashThenLabel(line, n, [HASH] + name, Candidate(name, 0, at, |name| + 1, false),
                  Candidate([HASH] + name, 0, at, |name| + 1, true), tagChar);
  }

  /** `beat` or `storyline`, in any case. */
  predicate LabelWord(lw: JsString) {
    LowerAscii(lw) == BEAT || LowerAscii(lw) == STORYLINE
  }

  /** A name that can follow a label inside a note without ending it or being trimmed. */
  predicate PlainName(name: JsString) {
    name != [] && forall k :: 0 <= k < |name| ==> name[k] != RBRACKET && !IsSpace(name[k])
  }

  /** A name the hash pass reads whole and does not skip. */
  predicate TagName(name: JsString, tagChar: CodeUnit -> bool) {
    name != [] && !SixDigits(name) && forall k :: 0 <= k < |name| ==> tagChar(name[k])
  }

  /** The line of LabelledHashCandidates holds one note, the whole text `c` between `[[` and `]]`. */
  lemma {:induction false} LabelledNoteFound(lw: JsString, name: JsString, c: JsString, line: Line)
    requires LabelWord(lw) && PlainName(name) && c == lw + [COLON, SPACE] + [HASH] + name
    requires line.text == [LBRACKET, LBRACKET] + lw + [COLON, SPACE] + [HASH] + name + [RBRACKET, RBRACKET]
    ensures NoLineTerminator(c) && NotesFrom(line.text, 0) == [Note(0, c)]
  {
    LabelledNote(lw, name);
    NoteRoundTrip(c, []);
    assert [LBRACKET, LBRACKET] + c + [RBRACKET, RBRACKET] + [] == line.text;
    assert NotesFrom(line.text, |c| + 4) == [];
  }

  /** The hash pass over that note yields the name, over `#` and the name. */
  lemma {:induction false} LabelledHash(lw: JsString, name: JsString, c: JsString, tagChar: CodeUnit -> bool, line: Line)
    requires LabelWord(lw) && PlainName(name) && TagName(name, tagChar) && c == lw + [COLON, SPACE] + [HASH] + name
    ensures HashCandidates(line, 0, Note(0, c), HashesFrom(c, 0, tagChar))
              == [Candidate(name, 0, line.position + |lw| + 4, |name| + 1, false)]
  {
    var a := lw + [COLON, SPACE];
    LabelledNote(lw, name);
    HashAfter(a, name, tagChar);
    assert [Hash(|a|, name)][1..] == [];
  }

  /** The label expression over that note captures `#name`. */
  lemma {:induction false} LabelledLabel(lw: JsString, name: JsString, c: JsString)
    requires LabelWord(lw) && PlainName(name) && c == lw + [COLON, SPACE] + [HASH] + name
    ensures NoLineTerminator(c) && LabelRest(c) == Some([HASH] + name)
  {
    var tagText := [HASH] + name;
    LabelledNote(lw, name);
    assert c == lw + [COLON, SPACE] + tagText;
    LabelColonRoundTrip(lw, tagText);
  }

  /** `#name`, trimmed and looked up in that note, is found right after the label word, colon and space. */
  lemma {:induction false} LabelledLabelAt(lw: JsString, name: JsString, c: JsString, line: Line)
    requires LabelWord(lw) && PlainName(name) && c == lw + [COLON, SPACE] + [HASH] + name
    ensures LabelAt(line, 0, Note(0, c), Trim([HASH] + name))
              == Candidate([HASH] + name, 0, line.position + |lw| + 4, |name| + 1, true)
  {
    var a, tagText := lw + [COLON, SPACE], [HASH] + name;
    LabelledNote(lw, name);
    TrimOfTrimmed(tagText);
    assert c == a + tagText;
    FirstAfter(a, tagText);
  }

  /** A line whose one note yields one hash candidate and a label yields those two, in that order. */
  lemma HashThenLabel(line: Line, n: Note, t: JsString, h: Candidate, l: Candidate, tagChar: CodeUnit -> bool)
    requires NotesFrom(line.text, 0) == [n] && NoLineTerminator(n.content)
    requires HashCandidates(line, 0, n, HashesFrom(n.content, 0, tagChar)) == [h]
    requires LabelRest(n.content) == Some(t) && LabelAt(line, 0, n, Trim(t)) == l
    ensures Candidates([line], tagChar) == [h, l]
  {
    OneNote(line, n, tagChar);
    assert LabelCandidate(line, 0, n, LabelRest(n.content)) == [l];
  }

  /** A line with one note yields that note's candidates. */
  lemma OneNote(line: Line, n: Note, tagChar: CodeUnit -> bool)
    requires NotesFrom(line.text, 0) == [n] && NoLineTerminator(n.content)
    ensures Candidates([line], tagChar) == NoteCandidates(line, 0, n, tagChar)
  {
    assert NotesCandidates(line, 0, [n], tagChar) == NoteCandidates(line, 0, n, tagChar) + [];
    assert CandidatesFrom([line], 1, tagChar) == [];
  }

  /** The note of LabelledHashCandidates is fit to stand between `[[` and `]]`, and its only `#` is in front of the name. */
  lemma {:induction false} LabelledNote(lw: JsString, name: JsString)
    requires LowerAscii(lw) == BEAT || LowerAscii(lw) == STORYLINE
    requires name != [] && forall k :: 0 <= k < |name| ==> name[k] != RBRACKET && !IsSpace(name[k])
    ensures NoteText(lw + [COLON, SPACE] + [HASH] + name) && HASH !in lw + [COLON, SPACE]
  {
    var a := lw + [COLON, SPACE];
    var c := a + [HASH] + name;
    LabelWordShape(lw);
    forall k | 0 <= k < |c|
      ensures !IsLineTerminator(c[k]) && c[k] != RBRACKET && (k < |a| ==> c[k] != HASH)
    {
      if k < |lw| {
        assert c[k] == lw[k];
      } else if k > |a| {
        assert c[k] == name[k - |a| - 1];
      }
    }
    forall k | 0 <= k < |a|
      ensures a[k] != HASH
    {
      assert a[k] == c[k];
    }
  }

  /** `#name` after text without `#` is the only hash match. */
  lemma {:induction false} HashAfter(a: JsString, name: JsString, tagChar: CodeUnit -> bool)
    requires HASH !in a
    requires name != [] && forall k :: 0 <= k < |name| ==> tagChar(name[k])
    ensures HashesFrom(a + [HASH] + name, 0, tagChar) == [Hash(|a|, name)]
  {
    var s, p := a + [HASH] + name, |a|;
    AfterMark(a, HASH, name);
    HashesSkip(s, 0, p, tagChar);
    AfterMark(a, HASH, name);
    HashOpens(s, p, name, tagChar);
    assert HashesFrom(s, |s|, tagChar) == [];
  }

  /** Where `x` stands in `a + [x] + b`, and what comes before and after it. */
  lemma AfterMark<T>(a: seq<T>, x: T, b: seq<T>)
    requires x !in a
    ensures (a + [x] + b)[|a|] == x && (a + [x] + b)[|a| + 1..|a| + 1 + |b|] == b
    ensures forall k :: 0 <= k < |a| ==> (a + [x] + b)[k] != x
  {
    var s := a + [x] + b;
    forall k | 0 <= k < |a|
      ensures s[k] != x
    {
      assert s[k] == a[k];
    }
  }

  /** `t` is first found right after text that does not hold its first code unit. */
  lemma {:induction false} FirstAfter(a: JsString, t: JsString)
    requires t != [] && t[0] !in a
    ensures IndexOf(a + t, t) == |a|
  {
    var s := a + t;
    assert OccursAt(s, t, |a|) by {
      assert s[|a|..|a| + |t|] == t;
    }
    IndexOfFirst(s, t);
    forall k | 0 <= k < |a|
      ensures !OccursAt(s, t, k)
    {
      assert s[k] == a[k];
    }
  }

}
