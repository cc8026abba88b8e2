/**
 * The tag index of the Keywords plugin (plugin.js): the occurrences the
 * scan registers, by tag and in one flat list, the navigation cursors, the
 * favourite tags, the tag colours and the background highlights the plugin
 * keeps on the editor's text; with the operations its window calls.
 *
 * The values the index is specified by come first: which of the scan's
 * candidates it keeps, the highlights they should have, the favourite
 * list's edits and the positions successive clicks visit. The class
 * `TagIndex` below holds the plugin's state and is proved against them.
 */
module KeywordsIndex {
  import opened JsText
  import opened HostDocument
  import opened KeywordsScan

  /** The colour of a tag without a stored colour. */
  const DEFAULT_COLOR: JsString := [0x23, 0x66, 0x65, 0x66, 0x62, 0x63, 0x30]

  function SpanOf(c: Candidate): Span {
    Span(c.absPos, c.matchLen)
  }

  function Spans(cs: seq<Candidate>): (r: seq<Span>)
    ensures |r| == |cs| && forall k :: 0 <= k < |cs| ==> r[k] == SpanOf(cs[k])
  {
    seq(|cs|, k requires 0 <= k < |cs| => SpanOf(cs[k]))
  }

  lemma SpansSnoc(cs: seq<Candidate>, c: Candidate)
    ensures Spans(cs + [c]) == Spans(cs) + [SpanOf(c)]
  {
  }

  // ---------------------------------------------------------------------
  // The candidates the index keeps
  // ---------------------------------------------------------------------

  /**
   * What gatherAllTags adds, walking the candidates in order: each one
   * whose range (`absPos`, `matchLen`) no occurrence added before it has.
   */
  function Kept(cs: seq<Candidate>): (r: seq<Candidate>)
    ensures |r| <= |cs| && forall c :: c in r ==> c in cs
  {
    if cs == [] then []
    else
      var prev := Kept(cs[..|cs| - 1]);
      var c := cs[|cs| - 1];
      if SpanOf(c) in Spans(prev) then prev else prev + [c]
  }

  /** No candidate before the `k`-th has its range. */
  predicate FirstOfSpan(cs: seq<Candidate>, k: nat)
    requires k < |cs|
  {
    forall j :: 0 <= j < k ==> SpanOf(cs[j]) != SpanOf(cs[k])
  }

  /** The candidates among the first `n` that are the first with their range, in order. */
  function Firsts(cs: seq<Candidate>, n: nat): seq<Candidate>
    requires n <= |cs|
  {
    if n == 0 then []
    else Firsts(cs, n - 1) + (if FirstOfSpan(cs, n - 1) then [cs[n - 1]] else [])
  }

  /**
   * No two occurrences share a range, every occurrence is a candidate, and
   * every candidate's range is taken by an occurrence.
   */
  lemma {:induction false} KeptSpans(cs: seq<Candidate>)
    ensures NoDuplicates(Spans(Kept(cs)))
    ensures forall c :: c in Kept(cs) ==> c in cs
    ensures forall k :: 0 <= k < |cs| ==> SpanOf(cs[k]) in Spans(Kept(cs))
  {
    if cs != [] {
      var p, c := cs[..|cs| - 1], cs[|cs| - 1];
      assert cs == p + [c];
      KeptSpans(p);
      var prev := Kept(p);
      if SpanOf(c) !in Spans(prev) {
        SpansSnoc(prev, c);
      }
      assert forall s :: s in Spans(prev) ==> s in Spans(Kept(cs));
      forall k | 0 <= k < |cs|
        ensures SpanOf(cs[k]) in Spans(Kept(cs))
      {
        if k < |p| {
          assert cs[k] == p[k];
        }
      }
    }
  }

  /** The occurrences kept are exactly the candidates that come first with their range, in scan order. */
  lemma {:induction false} KeptFirsts(cs: seq<Candidate>, n: nat)
    requires n <= |cs|
    ensures Kept(cs[..n]) == Firsts(cs, n)
  {
    if n > 0 {
      var p := cs[..n - 1];
      var c := cs[n - 1];
      assert cs[..n][..n - 1] == p && cs[..n][n - 1] == c;
      KeptFirsts(cs, n - 1);
      if SpanOf(c) in Spans(Kept(p)) {
        TakenBefore(cs, n);
      } else {
        FreeBefore(cs, n);
      }
    }
  }

  /** A candidate whose range an earlier kept one has is not the first with it. */
  lemma TakenBefore(cs: seq<Candidate>, n: nat)
    requires 0 < n <= |cs| && SpanOf(cs[n - 1]) in Spans(Kept(cs[..n - 1]))
    ensures !FirstOfSpan(cs, n - 1)
  {
    var p, k := cs[..n - 1], Kept(cs[..n - 1]);
    var i :| 0 <= i < |k| && Spans(k)[i] == SpanOf(cs[n - 1]);
    assert k[i] in p;
    var j :| 0 <= j < |p| && p[j] == k[i];
    assert cs[j] == p[j];
  }

  /** A candidate whose range no earlier kept one has is the first with it. */
  lemma FreeBefore(cs: seq<Candidate>, n: nat)
    requires 0 < n <= |cs| && SpanOf(cs[n - 1]) !in Spans(Kept(cs[..n - 1]))
    ensures FirstOfSpan(cs, n - 1)
  {
    var p := cs[..n - 1];
    KeptSpans(p);
    forall j | 0 <= j < n - 1
      ensures SpanOf(cs[j]) != SpanOf(cs[n - 1])
    {
      assert cs[j] == p[j];
    }
  }

  /** Every kept candidate covers its tag in its line (see KeywordsScan.CandidatesCover). */
  lemma KeptCover(lines: seq<Line>, tagChar: CodeUnit -> bool)
    ensures forall c :: c in Kept(Candidates(lines, tagChar)) ==>
              c.lineIndex < |lines| && CoversText(lines[c.lineIndex], c) && (!c.special ==> !SixDigits(c.tag))
  {
    KeptSpans(Candidates(lines, tagChar));
    CandidatesCover(lines, 0, tagChar);
  }

  /**
   * `[[storyline: #name]]` (or `beat:`): the hash token is registered
   * first, so the label, which covers the same range, is dropped and the
   * index keeps one occurrence, under `name` and not special.
   */
  lemma {:induction false} LabelledHashKeptOnce(lw: JsString, name: JsString, tagChar: CodeUnit -> bool, line: Line)
    requires LowerAscii(lw) == BEAT || LowerAscii(lw) == STORYLINE
    requires name != [] && !SixDigits(name)
    requires forall k :: 0 <= k < |name| ==> tagChar(name[k]) && name[k] != RBRACKET && !IsSpace(name[k])
    requires line.text == [LBRACKET, LBRACKET] + lw + [COLON, SPACE] + [HASH] + name + [RBRACKET, RBRACKET]
    ensures Kept(Candidates([line], tagChar)) == [Candidate(name, 0, line.position + |lw| + 4, |name| + 1, false)]
  {
    var c := lw + [COLON, SPACE] + [HASH] + name;
    var n := Note(0, c);
    assert LabelWord(lw) && PlainName(name) && TagName(name, tagChar);
    LabelledNoteFound(lw, name, c, line);
    LabelledHash(lw, name, c, tagChar, line);
    LabelledLabel(lw, name, c);
    LabelledLabelAt(lw, name, c, line);
    var at := line.position + |lw| + 4;
    HashThenLabelKept(line, n, [HASH] + name, Candidate(name, 0, at, |name| + 1, false),
                      Candidate([HASH] + name, 0, at, |name| + 1, true), tagChar);
  }

  /** A line whose one note yields a hash candidate and then a label over the same range keeps the hash. */
  lemma HashThenLabelKept(line: Line, n: Note, t: JsString, h: Candidate, l: Candidate, tagChar: CodeUnit -> bool)
    requires NotesFrom(line.text, 0) == [n] && NoLineTerminator(n.content)
    requires HashCandidates(line, 0, n, HashesFrom(n.content, 0, tagChar)) == [h]
    requires LabelRest(n.content) == Some(t) && LabelAt(line, 0, n, Trim(t)) == l
    requires SpanOf(h) == SpanOf(l)
    ensures Kept(Candidates([line], tagChar)) == [h]
  {
    HashThenLabel(line, n, t, h, l, tagChar);
    KeptSameSpan(h, l);
  }

  /** Of two candidates over the same range, only the first is kept. */
  lemma KeptSameSpan(a: Candidate, b: Candidate)
    requires SpanOf(a) == SpanOf(b)
    ensures Kept([a, b]) == [a]
  {
    var cs := [a, b];
    assert cs[..1] == [a] && cs[..1][..0] == [];
    assert Kept(cs[..1]) == [a];
    assert Spans([a])[0] == SpanOf(b);
    assert cs[..|cs| - 1] == [a] && cs[|cs| - 1] == b;
  }

  // ---------------------------------------------------------------------
  // Colours and highlights
  // ---------------------------------------------------------------------

  /** pickColorForTag: the stored colour when it is a non-empty string, else the default. */
  function PickColor(tagColors: map<JsString, JsString>, t: JsString): (r: JsString)
    ensures r != [] && (r == DEFAULT_COLOR || (t in tagColors && tagColors[t] == r))
  {
    if t in tagColors && tagColors[t] != [] then tagColors[t] else DEFAULT_COLOR
  }

  /** A colour set for a tag is the colour it is shown in, an empty one gives the default back, and no other tag changes colour. */
  lemma PickColorAfterSet(tagColors: map<JsString, JsString>, t: JsString, color: JsString, u: JsString)
    ensures PickColor(tagColors[t := color], t) == if color == [] then DEFAULT_COLOR else color
    ensures u != t ==> PickColor(tagColors[t := color], u) == PickColor(tagColors, u)
    ensures PickColor(tagColors, u) != []
  {
  }

  /** The highlights the candidates `cs` should have: each range in its tag's colour. */
  function HighlightMap(cs: seq<Candidate>, tagColors: map<JsString, JsString>): (r: map<Span, JsString>)
    ensures forall s :: s in r <==> s in Spans(cs)
  {
    if cs == [] then map[]
    else
      var p, c := cs[..|cs| - 1], cs[|cs| - 1];
      assert cs == p + [c];
      SpansSnoc(p, c);
      HighlightMap(p, tagColors)[SpanOf(c) := PickColor(tagColors, c.tag)]
  }

  /** For candidates with distinct ranges: the highlighted ranges are theirs, each in its tag's colour. */
  lemma {:induction false} HighlightMapSpec(cs: seq<Candidate>, tagColors: map<JsString, JsString>)
    requires NoDuplicates(Spans(cs))
    ensures forall s :: s in HighlightMap(cs, tagColors) <==> s in Spans(cs)
    ensures forall k :: 0 <= k < |cs| ==> HighlightMap(cs, tagColors)[SpanOf(cs[k])] == PickColor(tagColors, cs[k].tag)
  {
    if cs != [] {
      var p, c := cs[..|cs| - 1], cs[|cs| - 1];
      assert cs == p + [c];
      SpansSnoc(p, c);
      assert forall i, j :: 0 <= i < j < |p| ==> Spans(p)[i] == Spans(cs)[i] && Spans(p)[j] == Spans(cs)[j];
      HighlightMapSpec(p, tagColors);
      forall k | 0 <= k < |cs|
        ensures HighlightMap(cs, tagColors)[SpanOf(cs[k])] == PickColor(tagColors, cs[k].tag)
      {
        if k < |p| {
          assert cs[k] == p[k];
          assert Spans(cs)[k] != Spans(cs)[|p|];
        }
      }
    }
  }

  /** The highlights of two runs of candidates: the later run is drawn over the earlier one. */
  lemma {:induction false} HighlightMapAppend(a: seq<Candidate>, b: seq<Candidate>, tagColors: map<JsString, JsString>)
    ensures HighlightMap(a + b, tagColors) == HighlightMap(a, tagColors) + HighlightMap(b, tagColors)
    decreases |b|
  {
    if b == [] {
      assert a + b == a;
    } else {
      var p, c := b[..|b| - 1], b[|b| - 1];
      assert b == p + [c];
      assert a + b == (a + p) + [c];
      HighlightMapAppend(a, p, tagColors);
      HighlightMapSnoc(a + p, c, tagColors);
      HighlightMapSnoc(p, c, tagColors);
      UnionUpdate(HighlightMap(a, tagColors), HighlightMap(p, tagColors), SpanOf(c), PickColor(tagColors, c.tag));
    }
  }

  /** The highlights `h` without the ranges `spans`. */
  function Without(h: map<Span, JsString>, spans: seq<Span>): map<Span, JsString> {
    map s | s in h && s !in spans :: h[s]
  }

  lemma WithoutNothing(h: map<Span, JsString>, spans: seq<Span>)
    requires spans == []
    ensures Without(h, spans) == h
  {
  }

  lemma WithoutSnoc(h: map<Span, JsString>, spans: seq<Span>, s: Span)
    ensures Without(h, spans + [s]) == Without(h, spans) - {s}
  {
  }

  /** Removing every range of the candidates from their own highlights leaves none. */
  lemma WithoutAll(cs: seq<Candidate>, tagColors: map<JsString, JsString>)
    requires NoDuplicates(Spans(cs))
    ensures Without(HighlightMap(cs, tagColors), Spans(cs)) == map[]
  {
    HighlightMapSpec(cs, tagColors);
  }

  lemma UnionUpdate(h: map<Span, JsString>, m: map<Span, JsString>, s: Span, color: JsString)
    ensures (h + m)[s := color] == h + m[s := color]
  {
  }

  // ---------------------------------------------------------------------
  // Occurrences by tag
  // ---------------------------------------------------------------------

  /**
   * An occurrence record `{ tag, lineIndex, absPos, matchLen, color, special }`.
   * The same record sits in `allOccurrences` and in its tag's list, and
   * reapplyAllHighlights sets its colour through either.
   */
  class Occurrence {
    const tag: JsString
    const lineIndex: nat
    const absPos: int
    const matchLen: nat
    const special: bool
    var color: JsString

    constructor(c: Candidate, color: JsString)
      ensures View(this) == c && this.color == color
    {
      tag, lineIndex, absPos, matchLen, special := c.tag, c.lineIndex, c.absPos, c.matchLen, c.special;
      this.color := color;
    }
  }

  /** The fields of an occurrence other than its colour, none of which ever changes. */
  function View(o: Occurrence): Candidate {
    Candidate(o.tag, o.lineIndex, o.absPos, o.matchLen, o.special)
  }

  function Views(os: seq<Occurrence>): (r: seq<Candidate>)
    ensures |r| == |os| && forall k :: 0 <= k < |os| ==> r[k] == View(os[k])
  {
    seq(|os|, k requires 0 <= k < |os| => View(os[k]))
  }

  /** The occurrences of tag `t`, in the order of `os`. */
  function OfTag(os: seq<Occurrence>, t: JsString): (r: seq<Occurrence>)
    ensures |r| <= |os|
  {
    if os == [] then []
    else
      var prev := OfTag(os[..|os| - 1], t);
      var o := os[|os| - 1];
      assert os == os[..|os| - 1] + [o];
      if o.tag == t then prev + [o] else prev
  }

  /** The lists by tag split the flat list: taking tag by tag keeps the order of the flat list. */
  lemma {:induction false} OfTagAppend(a: seq<Occurrence>, b: seq<Occurrence>, t: JsString)
    ensures OfTag(a + b, t) == OfTag(a, t) + OfTag(b, t)
    decreases |b|
  {
    if b == [] {
      assert a + b == a;
    } else {
      var p, o := b[..|b| - 1], b[|b| - 1];
      assert a + b == (a + p) + [o];
      assert (a + b)[..|a + b| - 1] == a + p;
      OfTagAppend(a, p, t);
    }
  }

  /** The tags of `os` in the order they first appear: the order of `Object.keys(tagsByName)`. */
  function TagOrder(os: seq<Occurrence>): (ts: seq<JsString>)
    ensures forall t :: t in ts <==> exists k :: 0 <= k < |os| && os[k].tag == t
  {
    if os == [] then []
    else
      var prev := TagOrder(os[..|os| - 1]);
      var o := os[|os| - 1];
      assert os == os[..|os| - 1] + [o];
      if o.tag in prev then prev else prev + [o.tag]
  }

  /** The summed lengths of the lists of the tags `ts`. */
  function SumLengths(os: seq<Occurrence>, ts: seq<JsString>): nat {
    if ts == [] then 0 else SumLengths(os, ts[..|ts| - 1]) + |OfTag(os, ts[|ts| - 1])|
  }

  lemma {:induction false} SumLengthsSnoc(os: seq<Occurrence>, o: Occurrence, ts: seq<JsString>)
    requires NoDuplicates(ts)
    ensures SumLengths(os + [o], ts) == SumLengths(os, ts) + if o.tag in ts then 1 else 0
  {
    if ts != [] {
      var p, t := ts[..|ts| - 1], ts[|ts| - 1];
      assert ts == p + [t];
      SumLengthsSnoc(os, o, p);
      assert (os + [o])[..|os|] == os;
    }
  }

  lemma {:induction false} TagOrderDistinct(os: seq<Occurrence>)
    ensures NoDuplicates(TagOrder(os))
  {
    if os != [] {
      TagOrderDistinct(os[..|os| - 1]);
    }
  }

  /** The lists of all tags together hold as many occurrences as the flat list. */
  lemma TagOrderSnoc(p: seq<Occurrence>, o: Occurrence)
    ensures TagOrder(p + [o]) == if o.tag in TagOrder(p) then TagOrder(p) else TagOrder(p) + [o.tag]
  {
    assert (p + [o])[..|p|] == p;
  }

  lemma OfTagSnoc(p: seq<Occurrence>, o: Occurrence, t: JsString)
    ensures OfTag(p + [o], t) == OfTag(p, t) + if o.tag == t then [o] else []
  {
    assert (p + [o])[..|p|] == p;
  }

  /** A tag with a non-empty list is among the tags. */
  lemma {:induction false} ListHasTag(p: seq<Occurrence>, t: JsString)
    ensures OfTag(p, t) != [] ==> t in TagOrder(p)
  {
    if p != [] {
      var q, o := p[..|p| - 1], p[|p| - 1];
      assert p == q + [o];
      ListHasTag(q, t);
      TagOrderSnoc(q, o);
      OfTagSnoc(q, o, t);
    }
  }

  lemma SumLengthsSnocTag(os: seq<Occurrence>, ts: seq<JsString>, t: JsString)
    ensures SumLengths(os, ts + [t]) == SumLengths(os, ts) + |OfTag(os, t)|
  {
    assert (ts + [t])[..|ts|] == ts;
  }

  /** The lists of all tags together hold as many occurrences as the flat list. */
  lemma {:induction false} ListsPartition(os: seq<Occurrence>)
    ensures SumLengths(os, TagOrder(os)) == |os|
  {
    if os != [] {
      var p, o := os[..|os| - 1], os[|os| - 1];
      assert os == p + [o];
      var ts := TagOrder(p);
      ListsPartition(p);
      TagOrderDistinct(p);
      SumLengthsSnoc(p, o, ts);
      TagOrderSnoc(p, o);
      if o.tag !in ts {
        SumLengthsSnocTag(os, ts, o.tag);
        ListHasTag(p, o.tag);
        OfTagSnoc(p, o, o.tag);
      }
    }
  }

  // ---------------------------------------------------------------------
  // Favourites
  // ---------------------------------------------------------------------

  /** `favoriteTags.indexOf(t)`. */
  function Position(f: seq<JsString>, t: JsString): (i: int)
    ensures i == -1 <==> t !in f
    ensures 0 <= i ==> i < |f| && f[i] == t && forall k :: 0 <= k < i ==> f[k] != t
  {
    if f == [] then -1
    else if f[0] == t then 0
    else
      var i := Position(f[1..], t);
      if i < 0 then -1 else i + 1
  }

  /** dropToFavorites: the tag is appended unless it is there already. */
  function AddFavorite(f: seq<JsString>, t: JsString): (r: seq<JsString>)
    ensures t in r && |r| <= |f| + 1 && forall u :: u in f ==> u in r
  {
    if t in f then f else f + [t]
  }

  /** dropToOthers: the tag is spliced out where it first appears. */
  function RemoveFavorite(f: seq<JsString>, t: JsString): (r: seq<JsString>)
    ensures multiset(r) == multiset(f) - multiset{t}
  {
    var i := Position(f, t);
    if i < 0 then f
    else
      assert f == f[..i] + [t] + f[i + 1..];
      f[..i] + f[i + 1..]
  }

  /** The favourites that are keys of `keys`, in their order: what refreshUI's backward splice loop leaves. */
  function KeepTags(f: seq<JsString>, keys: set<JsString>): (r: seq<JsString>)
    ensures forall t :: t in r <==> t in f && t in keys
  {
    if f == [] then []
    else (if f[0] in keys then [f[0]] else []) + KeepTags(f[1..], keys)
  }

  /** Filtering keeps the order: it works piece by piece. */
  lemma {:induction false} KeepTagsAppend(a: seq<JsString>, b: seq<JsString>, keys: set<JsString>)
    ensures KeepTags(a + b, keys) == KeepTags(a, keys) + KeepTags(b, keys)
  {
    if a == [] {
      assert a + b == b;
    } else {
      assert (a + b)[1..] == a[1..] + b;
      KeepTagsAppend(a[1..], b, keys);
    }
  }

  lemma {:induction false} KeepTagsDistinct(f: seq<JsString>, keys: set<JsString>)
    requires NoDuplicates(f)
    ensures NoDuplicates(KeepTags(f, keys))
  {
    if f != [] {
      assert NoDuplicates(f[1..]) by {
        assert forall i, j :: 0 <= i < j < |f| - 1 ==> f[1..][i] == f[i + 1] && f[1..][j] == f[j + 1];
      }
      KeepTagsDistinct(f[1..], keys);
      assert f[0] !in f[1..];
    }
  }

  /**
   * Dropping on the favourites: the tag is in the list afterwards, every
   * other tag keeps its place at the front, a second drop changes nothing,
   * and a list without duplicates keeps none.
   */
  lemma AddFavoriteSpec(f: seq<JsString>, t: JsString)
    ensures var r := AddFavorite(f, t);
            t in r && |f| <= |r| && r[..|f|] == f && (forall u :: u in r <==> u in f || u == t)
            && AddFavorite(r, t) == r
            && (NoDuplicates(f) ==> NoDuplicates(r))
  {
    assert (f + [t])[..|f|] == f;
  }

  /**
   * Dropping on the others: in a list without duplicates the tag is gone
   * afterwards, the list keeps no duplicates, and every other tag keeps its
   * place in the order: the result is the list filtered to the other tags.
   */
  lemma RemoveFavoriteSpec(f: seq<JsString>, t: JsString)
    requires NoDuplicates(f)
    ensures var r := RemoveFavorite(f, t);
            r == KeepTags(f, set u | u in f && u != t) && t !in r && NoDuplicates(r)
  {
    var keys := set u | u in f && u != t;
    KeepTagsDistinct(f, keys);
    var i := Position(f, t);
    if i < 0 {
      KeepTagsAll(f, keys);
    } else {
      var a, b := f[..i], f[i + 1..];
      assert f == a + [t] + b;
      assert forall k :: 0 <= k < |b| ==> b[k] == f[i + 1 + k];
      FilterOut(a, t, b, keys);
    }
  }

  lemma FilterOut(a: seq<JsString>, t: JsString, b: seq<JsString>, keys: set<JsString>)
    requires t !in keys && (forall u :: u in a ==> u in keys) && (forall u :: u in b ==> u in keys)
    ensures KeepTags(a + [t] + b, keys) == a + b
  {
    assert KeepTags(a + [t], keys) == a by {
      assert KeepTags([t], keys) == [] by {
        assert [t][1..] == [];
      }
      KeepTagsAppend(a, [t], keys);
      KeepTagsAll(a, keys);
      assert a + [] == a;
    }
    assert KeepTags(b, keys) == b by {
      KeepTagsAll(b, keys);
    }
    KeepTagsAppend(a + [t], b, keys);
  }

  /** Dropping a tag back on the others undoes dropping it on the favourites. */
  lemma RemoveUndoesAdd(f: seq<JsString>, t: JsString)
    requires t !in f
    ensures RemoveFavorite(AddFavorite(f, t), t) == f
  {
    var g := f + [t];
    assert Position(g, t) == |f|;
    assert g[..|f|] == f && g[|f| + 1..] == [];
  }

  lemma {:induction false} KeepTagsAll(f: seq<JsString>, keys: set<JsString>)
    requires forall u :: u in f ==> u in keys
    ensures KeepTags(f, keys) == f
  {
    if f != [] {
      KeepTagsAll(f[1..], keys);
      assert [f[0]] + f[1..] == f;
    }
  }

  // ---------------------------------------------------------------------
  // Navigation
  // ---------------------------------------------------------------------

  /** Where a tag's navigation cursor is: 0 before the first click (`occurrenceIndex[tagName] == null`). */
  function Cursor(cursors: map<JsString, nat>, t: JsString): nat {
    if t in cursors then cursors[t] else 0
  }

  /** The list positions `k` successive clicks on tag `t` select, for a list of `n` occurrences. */
  function Visits(cursors: map<JsString, nat>, t: JsString, n: nat, k: nat): (r: seq<nat>)
    requires n > 0
    ensures |r| == k && forall j :: 0 <= j < k ==> r[j] < n
    decreases k
  {
    if k == 0 then []
    else [Cursor(cursors, t) % n] + Visits(cursors[t := Cursor(cursors, t) + 1], t, n, k - 1)
  }

  /** The `j`-th of successive clicks selects position `(cursor + j) mod n`. */
  lemma {:induction false} VisitsInOrder(cursors: map<JsString, nat>, t: JsString, n: nat, k: nat)
    requires n > 0
    ensures |Visits(cursors, t, n, k)| == k
    ensures forall j :: 0 <= j < k ==> Visits(cursors, t, n, k)[j] == (Cursor(cursors, t) + j) % n
    decreases k
  {
    if k > 0 {
      var next := cursors[t := Cursor(cursors, t) + 1];
      VisitsInOrder(next, t, n, k - 1);
      assert Cursor(next, t) == Cursor(cursors, t) + 1;
    }
  }

  /**
   * From a fresh cursor, clicks visit positions 0, 1, …, n-1, 0, … in
   * list order, and any `n` clicks in a row visit every position once.
   */
  lemma ClicksVisitAll(cursors: map<JsString, nat>, t: JsString, n: nat, k: nat)
    requires n > 0
    ensures |Visits(cursors, t, n, k)| == k && |Visits(cursors, t, n, n)| == n
    ensures t !in cursors ==> forall j :: 0 <= j < k ==> Visits(cursors, t, n, k)[j] == j % n
    ensures forall i :: 0 <= i < n ==> i in Visits(cursors, t, n, n)
  {
    VisitsInOrder(cursors, t, n, k);
    VisitsInOrder(cursors, t, n, n);
    var c := Cursor(cursors, t);
    forall i | 0 <= i < n
      ensures i in Visits(cursors, t, n, n)
    {
      var j := (i - c) % n;
      assert (c + j) % n == i by {
        ModShift(c, i, n);
      }
      assert Visits(cursors, t, n, n)[j] == i;
    }
  }

  lemma ModShift(c: int, i: int, n: int)
    requires n > 0 && 0 <= i < n
    ensures (c + (i - c) % n) % n == i
  {
    var r, q := (i - c) % n, (i - c) / n;
    var x := c + r;
    var q2 := x / n;
    assert n * q + n * q2 == n * (q + q2);
    MultipleInRange(n, q + q2, x % n - i);
  }

  /** The only multiple of `n` strictly between `-n` and `n` is 0. */
  lemma MultipleInRange(n: int, k: int, d: int)
    requires n > 0 && d == -(n * k) && -n < d < n
    ensures d == 0
  {
    MultipleBounds(n, k);
  }

  lemma MultipleBounds(n: int, k: int)
    requires n > 0
    ensures k >= 1 ==> n * k >= n
    ensures k <= -1 ==> n * k <= -n
  {
    if k >= 1 {
      assert n * k == n * (k - 1) + n;
    } else if k <= -1 {
      assert n * k == n * (k + 1) - n;
    }
  }

  // ---------------------------------------------------------------------
  // The plugin's state
  // ---------------------------------------------------------------------

  /** `!tagNameForColorPicker`: no tag, or the empty string, is no tag picked. */
  predicate Picked(p: Option<JsString>) {
    p.Some? && p.value != []
  }

  /**
   * The plugin's global state: the index of occurrences by tag and in one
   * flat list, the navigation cursors, the colour and favourite settings,
   * and what the host's stores (user defaults and document settings) last
   * received. The scan's token character class is `tagChar`; the editor's
   * background highlights are `highlights`.
   */
  class TagIndex {
    const tagChar: CodeUnit -> bool

    var tagsByName: map<JsString, seq<Occurrence>>
    var allOccurrences: seq<Occurrence>
    var occurrenceIndex: map<JsString, nat>
    var tagColors: map<JsString, JsString>
    var favoriteTags: seq<JsString>
    var activeTooltipTag: Option<JsString>
    var tagNameForColorPicker: Option<JsString>
    var isDarkTheme: bool

    /**
     * The editor's background highlights, by range: what
     * `Beat.textBackgroundHighlight` sets and `Beat.removeBackgroundHighlight`
     * clears.
     */
    var highlights: map<Span, JsString>

    /** The user default `tagColors`, the document setting `favoriteTags` and the user default `themePreference`. */
    var storedTagColors: Option<map<JsString, JsString>>
    var storedFavorites: Option<seq<JsString>>
    var storedTheme: Option<bool>

    /**
     * No two occurrences share a range; each tag's list is the flat list's
     * occurrences of that tag, in order, and is never empty; every
     * occurrence's tag has a list; cursors exist only for listed tags.
     */
    ghost predicate IndexValid()
      reads this`allOccurrences, this`tagsByName, this`occurrenceIndex
    {
      Indexed(allOccurrences, tagsByName) && occurrenceIndex.Keys <= tagsByName.Keys
    }

    ghost predicate Coloured()
      reads this`allOccurrences, this`tagColors, allOccurrences
    {
      ColouredBy(allOccurrences, tagColors)
    }

    /** The index holds, and the highlights are exactly the occurrences' ranges in their tags' colours. */
    ghost predicate Valid()
      reads this`allOccurrences, this`tagsByName, this`occurrenceIndex, this`tagColors, this`highlights, allOccurrences
    {
      IndexValid() && Coloured() && highlights == HighlightMap(Views(allOccurrences), tagColors)
    }

    /** The plugin's start: the settings read from the stores or their defaults, and an empty index. */
    constructor(tagChar: CodeUnit -> bool, userTagColors: Option<map<JsString, JsString>>,
                documentFavorites: Option<seq<JsString>>, userTheme: Option<bool>)
      ensures Valid() && highlights == map[] && this.tagChar == tagChar
      ensures allOccurrences == [] && tagsByName == map[] && occurrenceIndex == map[]
      ensures tagColors == (if userTagColors.Some? then userTagColors.value else map[])
      ensures favoriteTags == (if documentFavorites.Some? then documentFavorites.value else [])
      ensures isDarkTheme == (if userTheme.Some? then userTheme.value else true)
      ensures activeTooltipTag == None && tagNameForColorPicker == None
      ensures storedTagColors == userTagColors && storedFavorites == documentFavorites && storedTheme == userTheme
    {
      this.tagChar := tagChar;
      highlights := map[];
      tagsByName, allOccurrences, occurrenceIndex := map[], [], map[];
      tagColors := if userTagColors.Some? then userTagColors.value else map[];
      favoriteTags := if documentFavorites.Some? then documentFavorites.value else [];
      isDarkTheme := if userTheme.Some? then userTheme.value else true;
      activeTooltipTag, tagNameForColorPicker := None, None;
      storedTagColors, storedFavorites, storedTheme := userTagColors, documentFavorites, userTheme;
    }

    /** alreadyHaveOccurrence: some occurrence has exactly this range. */
    predicate AlreadyHaveOccurrence(absPos: int, matchLen: nat)
      reads this
      ensures AlreadyHaveOccurrence(absPos, matchLen) <==> Span(absPos, matchLen) in Spans(Views(allOccurrences))
    {
      exists k :: 0 <= k < |allOccurrences| && RangeOf(allOccurrences[k]) == Span(absPos, matchLen)
    }

    /**
     * addOccurrence: the range is highlighted in the tag's colour, and one
     * new record, in that colour, joins the end of its tag's list and of
     * the flat list.
     */
    method AddOccurrence(c: Candidate)
      modifies this`tagsByName, this`allOccurrences, this`highlights
      ensures |allOccurrences| == |old(allOccurrences)| + 1 && allOccurrences[..|old(allOccurrences)|] == old(allOccurrences)
      ensures var o := allOccurrences[|old(allOccurrences)|];
              fresh(o) && View(o) == c && o.color == PickColor(tagColors, c.tag)
              && tagsByName == old(tagsByName)[c.tag := (if c.tag in old(tagsByName) then old(tagsByName)[c.tag] else []) + [o]]
      ensures highlights == old(highlights)[SpanOf(c) := PickColor(tagColors, c.tag)]
    {
      var color := PickColor(tagColors, c.tag);
      highlights := highlights[SpanOf(c) := color];
      var o := new Occurrence(c, color);
      tagsByName := tagsByName[c.tag := (if c.tag in tagsByName then tagsByName[c.tag] else []) + [o]];
      allOccurrences := allOccurrences + [o];
    }

    /**
     * gatherAllTags: the candidates of the lines (note by note, hash
     * tokens before the label), each added unless an occurrence already has
     * its range. The occurrences there before stay, in front.
     */
    method GatherAllTags(lines: seq<Line>)
      requires IndexValid() && Coloured()
      modifies this`tagsByName, this`allOccurrences, this`highlights
      ensures IndexValid() && Coloured()
      ensures |old(allOccurrences)| <= |allOccurrences| && allOccurrences[..|old(allOccurrences)|] == old(allOccurrences)
      ensures Views(allOccurrences) == Kept(Views(old(allOccurrences)) + Candidates(lines, tagChar))
      ensures highlights == old(highlights) + HighlightMap(Views(allOccurrences)[|old(allOccurrences)|..], tagColors)
    {
      AddCandidates(Candidates(lines, tagChar));
    }

    /** gatherAllTags's loops, for the candidates `cs` in the order the scan meets them. */
    method AddCandidates(cs: seq<Candidate>)
      requires IndexValid() && Coloured()
      modifies this`tagsByName, this`allOccurrences, this`highlights
      ensures IndexValid() && Coloured()
      ensures |old(allOccurrences)| <= |allOccurrences| && allOccurrences[..|old(allOccurrences)|] == old(allOccurrences)
      ensures Views(allOccurrences) == Kept(Views(old(allOccurrences)) + cs)
      ensures highlights == old(highlights) + HighlightMap(Views(allOccurrences)[|old(allOccurrences)|..], tagColors)
    {
      ghost var all0, h0 := allOccurrences, highlights;
      assert Kept(Views(all0) + cs[..0]) == Views(all0) by {
        DistinctRangesSpans(all0);
        KeptDistinct(Views(all0));
        assert Views(all0) + cs[..0] == Views(all0);
      }
      var i := 0;
      while i < |cs|
        invariant i <= |cs| && Gathering(all0, h0, cs, i)
      {
        AddNext(all0, h0, cs, i);
        i := i + 1;
      }
      assert cs[..i] == cs;
    }

    /** How far AddCandidates is: the candidates before `i` added to the occurrences `all0` and the highlights `h0`. */
    ghost predicate Gathering(all0: seq<Occurrence>, h0: map<Span, JsString>, cs: seq<Candidate>, i: nat)
      requires i <= |cs|
      reads this`allOccurrences, this`tagsByName, this`occurrenceIndex, this`tagColors, this`highlights, allOccurrences
    {
      IndexValid() && Coloured()
      && |all0| <= |allOccurrences| && allOccurrences[..|all0|] == all0
      && Views(allOccurrences) == Kept(Views(all0) + cs[..i])
      && highlights == h0 + HighlightMap(Views(allOccurrences)[|all0|..], tagColors)
    }

    /** One turn of AddCandidates's loop. */
    method AddNext(ghost all0: seq<Occurrence>, ghost h0: map<Span, JsString>, cs: seq<Candidate>, i: nat)
      requires i < |cs| && Gathering(all0, h0, cs, i)
      modifies this`tagsByName, this`allOccurrences, this`highlights
      ensures Gathering(all0, h0, cs, i + 1)
    {
      ghost var all, h := allOccurrences, highlights;
      AddIfNew(cs[i]);
      PrefixOfPrefix(all, allOccurrences, all0);
      AddStep(h0, h, highlights, Views(all0), cs, i, Views(all), Views(allOccurrences), |all0|, tagColors);
    }

    /**
     * The step gatherAllTags takes for each hash token and each label: the
     * occurrence is added unless one with its range is there already.
     */
    method AddIfNew(c: Candidate)
      requires IndexValid() && Coloured()
      modifies this`tagsByName, this`allOccurrences, this`highlights
      ensures IndexValid() && Coloured()
      ensures |old(allOccurrences)| <= |allOccurrences| && allOccurrences[..|old(allOccurrences)|] == old(allOccurrences)
      ensures Views(allOccurrences) == if SpanOf(c) in Spans(Views(old(allOccurrences))) then Views(old(allOccurrences)) else Views(old(allOccurrences)) + [c]
      ensures highlights == if SpanOf(c) in Spans(Views(old(allOccurrences))) then old(highlights) else old(highlights)[SpanOf(c) := PickColor(tagColors, c.tag)]
    {
      HasRange(allOccurrences, Views(allOccurrences), SpanOf(c));
      if !AlreadyHaveOccurrence(c.absPos, c.matchLen) {
        var all, byName := allOccurrences, tagsByName;
        AddOccurrence(c);
        var o := allOccurrences[|all|];
        SnocOfPrefix(allOccurrences, all);
        IndexedSnoc(all, byName, o);
        ColouredSnoc(all, tagColors, o);
        ViewsSnoc(all, o);
      }
    }

    /** removeAllHighlights: the range of every occurrence is cleared. */
    method RemoveAllHighlights()
      modifies this`highlights
      ensures highlights == Without(old(highlights), Spans(Views(allOccurrences)))
    {
      ghost var spans := Spans(Views(allOccurrences));
      assert |spans| == |allOccurrences| && forall k :: 0 <= k < |spans| ==> spans[k] == RangeOf(allOccurrences[k]);
      assert Without(old(highlights), spans[..0]) == highlights;
      var i := 0;
      while i < |allOccurrences|
        invariant i <= |allOccurrences|
        invariant highlights == Without(old(highlights), spans[..i])
      {
        var occ := allOccurrences[i];
        assert spans[..i + 1] == spans[..i] + [RangeOf(occ)];
        WithoutSnoc(old(highlights), spans[..i], RangeOf(occ));
        highlights := highlights - {Span(occ.absPos, occ.matchLen)};
        i := i + 1;
      }
      assert spans[..i] == spans;
    }

    /** reapplyAllHighlights: each occurrence's range is highlighted, and its record recoloured, in its tag's current colour. */
    method ReapplyAllHighlights()
      modifies this`highlights, allOccurrences
      ensures Coloured()
      ensures highlights == old(highlights) + HighlightMap(Views(allOccurrences), tagColors)
    {
      ghost var h0, vs := highlights, Views(allOccurrences);
      assert h0 + HighlightMap(vs[..0], tagColors) == highlights;
      var i := 0;
      while i < |allOccurrences|
        invariant i <= |allOccurrences| && Reapplying(h0, vs, i)
      {
        ReapplyNext(h0, vs, i);
        i := i + 1;
      }
      assert vs[..i] == vs;
    }

    /** How far ReapplyAllHighlights is: the occurrences before `i`, whose views are `vs`, recoloured and highlighted over `h0`. */
    ghost predicate Reapplying(h0: map<Span, JsString>, vs: seq<Candidate>, i: nat)
      reads this`highlights, this`allOccurrences, this`tagColors, allOccurrences
    {
      i <= |allOccurrences| && vs == Views(allOccurrences)
      && (forall k :: 0 <= k < i ==> allOccurrences[k].color == PickColor(tagColors, allOccurrences[k].tag))
      && highlights == h0 + HighlightMap(vs[..i], tagColors)
    }

    /** One turn of ReapplyAllHighlights's loop. */
    method ReapplyNext(ghost h0: map<Span, JsString>, ghost vs: seq<Candidate>, i: nat)
      requires i < |allOccurrences| && Reapplying(h0, vs, i)
      modifies this`highlights, allOccurrences
      ensures Reapplying(h0, vs, i + 1)
    {
      var occ := allOccurrences[i];
      assert vs[i] == View(occ);
      Reapply(occ);
      TakeSnoc(vs, i);
      HighlightMapSnoc(vs[..i], vs[i], tagColors);
      UnionUpdate(h0, HighlightMap(vs[..i], tagColors), RangeOf(occ), PickColor(tagColors, occ.tag));
    }

    /** One step of reapplyAllHighlights. */
    method Reapply(occ: Occurrence)
      modifies this`highlights, occ
      ensures occ.color == PickColor(tagColors, occ.tag)
      ensures highlights == old(highlights)[RangeOf(occ) := occ.color]
    {
      var color := PickColor(tagColors, occ.tag);
      highlights := highlights[Span(occ.absPos, occ.matchLen) := color];
      occ.color := color;
    }

    /** The backward loop of refreshUI: each favourite that has no list any more is spliced out; the rest are stored. */
    method PruneFavorites()
      modifies this`favoriteTags, this`storedFavorites
      ensures favoriteTags == KeepTags(old(favoriteTags), tagsByName.Keys)
      ensures storedFavorites == Some(favoriteTags)
    {
      ghost var f0 := favoriteTags;
      var i := |favoriteTags| - 1;
      assert f0[i + 1..] == [];
      while i >= 0
        invariant -1 <= i < |f0|
        invariant favoriteTags == f0[..i + 1] + KeepTags(f0[i + 1..], tagsByName.Keys)
        decreases i + 1
      {
        PruneStep(f0, i, tagsByName.Keys, favoriteTags);
        var ftag := favoriteTags[i];
        if ftag !in tagsByName {
          favoriteTags := favoriteTags[..i] + favoriteTags[i + 1..];
        }
        i := i - 1;
      }
      assert f0[..0] == [];
      storedFavorites := Some(favoriteTags);
    }

    /** onWindowClosed: every highlight the plugin applied is removed. */
    method OnWindowClosed()
      requires Valid()
      modifies this`highlights
      ensures highlights == map[]
    {
      RemoveAllHighlights();
      Cleared(allOccurrences, tagColors);
    }

    /**
     * refreshUI with the highlights removed while the old occurrences are
     * still listed: the index is rebuilt from the current lines, the cursors
     * are reset, and the favourites that no longer have a list are dropped
     * and stored.
     */
    method Refresh(lines: seq<Line>)
      requires Valid()
      modifies this`tagsByName, this`allOccurrences, this`occurrenceIndex, this`highlights, this`favoriteTags, this`storedFavorites
      ensures Valid()
      ensures Views(allOccurrences) == Kept(Candidates(lines, tagChar))
      ensures occurrenceIndex == map[]
      ensures favoriteTags == KeepTags(old(favoriteTags), tagsByName.Keys)
      ensures storedFavorites == Some(favoriteTags)
    {
      ClearIndex();
      GatherInto(lines);
      EmptyUnion(HighlightMap(Views(allOccurrences), tagColors));
      assert Valid();
      PruneFavorites();
    }

    /** gatherAllTags into an emptied index: the occurrences are the kept candidates of the lines, drawn over the highlights already there. */
    method GatherInto(lines: seq<Line>)
      requires IndexValid() && Coloured() && allOccurrences == []
      modifies this`tagsByName, this`allOccurrences, this`highlights
      ensures IndexValid() && Coloured()
      ensures Views(allOccurrences) == Kept(Candidates(lines, tagChar))
      ensures highlights == old(highlights) + HighlightMap(Views(allOccurrences), tagColors)
    {
      GatherAllTags(lines);
      FromEmpty(Views(allOccurrences), Candidates(lines, tagChar), tagColors);
    }

    /** The first steps of a refresh: the highlights are removed, then the index and the cursors are emptied. */
    method ClearIndex()
      requires Valid()
      modifies this`tagsByName, this`allOccurrences, this`occurrenceIndex, this`highlights
      ensures Valid() && allOccurrences == [] && tagsByName == map[] && occurrenceIndex == map[] && highlights == map[]
    {
      RemoveAllHighlights();
      Cleared(allOccurrences, tagColors);
      tagsByName, allOccurrences, occurrenceIndex := map[], [], map[];
    }

    /**
     * refreshUI as written: the lists are emptied before
     * removeAllHighlights runs, so that call removes nothing and every
     * highlight of the previous pass stays, including those of tags that
     * are gone.
     */
    method RefreshAsWritten(lines: seq<Line>)
      modifies this`tagsByName, this`allOccurrences, this`occurrenceIndex, this`highlights, this`favoriteTags, this`storedFavorites
      ensures IndexValid() && Coloured()
      ensures Views(allOccurrences) == Kept(Candidates(lines, tagChar))
      ensures highlights == old(highlights) + HighlightMap(Views(allOccurrences), tagColors)
      ensures occurrenceIndex == map[]
      ensures favoriteTags == KeepTags(old(favoriteTags), tagsByName.Keys)
      ensures storedFavorites == Some(favoriteTags)
    {
      tagsByName, allOccurrences, occurrenceIndex := map[], [], map[];
      RemoveAllHighlights();
      WithoutNothing(old(highlights), Spans(Views(allOccurrences)));
      GatherInto(lines);
      assert IndexValid() && Coloured();
      PruneFavorites();
    }

    /**
     * scrollToNextOccurrence: a tag without a list does nothing; otherwise
     * the occurrence at the tag's cursor, modulo the list's length, is
     * selected (to flash), the view scrolls to the start of its line when
     * that line still exists, and the cursor moves on by one.
     */
    method ScrollToNextOccurrence(tagName: JsString, lines: seq<Line>) returns (selected: Option<Occurrence>, scrollTo: Option<int>)
      modifies this`occurrenceIndex
      ensures tagName !in tagsByName || tagsByName[tagName] == [] ==>
        selected == None && scrollTo == None && occurrenceIndex == old(occurrenceIndex)
      ensures tagName in tagsByName && tagsByName[tagName] != [] ==>
        var list := tagsByName[tagName];
        var cursor := Cursor(old(occurrenceIndex), tagName);
        var occ := list[cursor % |list|];
        selected == Some(occ)
        && scrollTo == (if occ.lineIndex < |lines| then Some(lines[occ.lineIndex].position) else None)
        && occurrenceIndex == old(occurrenceIndex)[tagName := cursor + 1]
    {
      if tagName !in tagsByName || |tagsByName[tagName]| == 0 {
        return None, None;
      }
      if tagName !in occurrenceIndex {
        occurrenceIndex := occurrenceIndex[tagName := 0];
      }
      var occurrences := tagsByName[tagName];
      var index := occurrenceIndex[tagName] % |occurrences|;
      var occ := occurrences[index];
      scrollTo := None;
      if occ.lineIndex < |lines| {
        scrollTo := Some(lines[occ.lineIndex].position);
      }
      occurrenceIndex := occurrenceIndex[tagName := occurrenceIndex[tagName] + 1];
      selected := Some(occ);
    }

    /** handlePillClick: the tag's tooltip stays open, then its next occurrence is shown. */
    method HandlePillClick(tagName: JsString, lines: seq<Line>) returns (selected: Option<Occurrence>, scrollTo: Option<int>)
      modifies this`activeTooltipTag, this`occurrenceIndex
      ensures activeTooltipTag == Some(tagName)
      ensures tagName !in tagsByName || tagsByName[tagName] == [] ==>
        selected == None && scrollTo == None && occurrenceIndex == old(occurrenceIndex)
      ensures tagName in tagsByName && tagsByName[tagName] != [] ==>
        var list := tagsByName[tagName];
        var cursor := Cursor(old(occurrenceIndex), tagName);
        var occ := list[cursor % |list|];
        selected == Some(occ)
        && scrollTo == (if occ.lineIndex < |lines| then Some(lines[occ.lineIndex].position) else None)
        && occurrenceIndex == old(occurrenceIndex)[tagName := cursor + 1]
    {
      activeTooltipTag := Some(tagName);
      selected, scrollTo := ScrollToNextOccurrence(tagName, lines);
    }

    /** onPillMouseLeave: the tooltip closes only if it is the one for this tag. */
    method OnPillMouseLeave(tagName: JsString)
      modifies this`activeTooltipTag
      ensures activeTooltipTag == if old(activeTooltipTag) == Some(tagName) then None else old(activeTooltipTag)
    {
      if activeTooltipTag == Some(tagName) {
        activeTooltipTag := None;
      }
    }

    /** handleTagRightClick: the colour picker opens for the tag. */
    method HandleTagRightClick(tagName: JsString)
      modifies this`tagNameForColorPicker
      ensures tagNameForColorPicker == Some(tagName)
    {
      tagNameForColorPicker := Some(tagName);
    }

    /**
     * finalizeTagColor: with a tag in the picker, the tag takes the new
     * colour, the colours are stored, every highlight is redrawn in the
     * colours now in force and the picker closes; with none, nothing changes.
     */
    method FinalizeTagColor(newColor: JsString)
      requires Valid()
      modifies this`tagColors, this`storedTagColors, this`tagNameForColorPicker, this`highlights, allOccurrences
      ensures Valid()
      ensures !Picked(old(tagNameForColorPicker)) ==>
        tagColors == old(tagColors) && storedTagColors == old(storedTagColors)
        && tagNameForColorPicker == old(tagNameForColorPicker) && highlights == old(highlights)
      ensures Picked(old(tagNameForColorPicker)) ==>
        tagColors == old(tagColors)[old(tagNameForColorPicker).value := newColor]
        && storedTagColors == Some(tagColors) && tagNameForColorPicker == None
    {
      if !Picked(tagNameForColorPicker) {
        return;
      }
      tagColors := tagColors[tagNameForColorPicker.value := newColor];
      storedTagColors := Some(tagColors);
      tagNameForColorPicker := None;
      Redraw(old(tagColors));
    }

    /** previewTagColor: as finalizeTagColor, but nothing is stored and the picker stays open. */
    method PreviewTagColor(newColor: JsString)
      requires Valid()
      modifies this`tagColors, this`highlights, allOccurrences
      ensures Valid()
      ensures !Picked(tagNameForColorPicker) ==> tagColors == old(tagColors) && highlights == old(highlights)
      ensures Picked(tagNameForColorPicker) ==> tagColors == old(tagColors)[tagNameForColorPicker.value := newColor]
    {
      if !Picked(tagNameForColorPicker) {
        return;
      }
      tagColors := tagColors[tagNameForColorPicker.value := newColor];
      Redraw(old(tagColors));
    }

    /** removeAllHighlights followed by reapplyAllHighlights, after a colour change. */
    method Redraw(ghost before: map<JsString, JsString>)
      requires IndexValid() && highlights == HighlightMap(Views(allOccurrences), before)
      modifies this`highlights, allOccurrences
      ensures Valid()
    {
      ghost var all, byName := allOccurrences, tagsByName;
      assert Indexed(all, byName);
      RemoveAllHighlights();
      Cleared(allOccurrences, before);
      ReapplyAllHighlights();
      EmptyUnion(HighlightMap(Views(allOccurrences), tagColors));
      assert allOccurrences == all && tagsByName == byName;
      assert IndexValid();
    }

    /** dropToFavorites: a tag not yet a favourite is appended and the favourites are stored. */
    method DropToFavorites(tagName: JsString)
      modifies this`favoriteTags, this`storedFavorites
      ensures favoriteTags == AddFavorite(old(favoriteTags), tagName)
      ensures storedFavorites == if tagName in old(favoriteTags) then old(storedFavorites) else Some(favoriteTags)
    {
      if tagName !in favoriteTags {
        favoriteTags := favoriteTags + [tagName];
        storedFavorites := Some(favoriteTags);
      }
    }

    /** dropToOthers: a favourite tag is spliced out where it first appears and the favourites are stored. */
    method DropToOthers(tagName: JsString)
      modifies this`favoriteTags, this`storedFavorites
      ensures favoriteTags == RemoveFavorite(old(favoriteTags), tagName)
      ensures storedFavorites == if tagName in old(favoriteTags) then Some(favoriteTags) else old(storedFavorites)
    {
      var idx := Position(favoriteTags, tagName);
      if idx >= 0 {
        favoriteTags := favoriteTags[..idx] + favoriteTags[idx + 1..];
        storedFavorites := Some(favoriteTags);
      }
    }

    /** toggleTheme: the theme flips and the new choice is stored. */
    method ToggleTheme()
      modifies this`isDarkTheme, this`storedTheme
      ensures isDarkTheme == !old(isDarkTheme) && storedTheme == Some(isDarkTheme)
    {
      isDarkTheme := !isDarkTheme;
      storedTheme := Some(isDarkTheme);
    }

    /**
     * main: the tags of the document are gathered; the plugin ends with an
     * alert exactly when no tag was found.
     */
    method Open(lines: seq<Line>) returns (noTags: bool)
      requires Valid()
      modifies this`tagsByName, this`allOccurrences, this`highlights
      ensures Valid()
      ensures Views(allOccurrences) == Kept(Views(old(allOccurrences)) + Candidates(lines, tagChar))
      ensures noTags <==> Views(allOccurrences) == []
    {
      GatherAllTags(lines);
      Grown(old(highlights), Views(old(allOccurrences)), Views(allOccurrences), tagColors);
      IndexedKeys(allOccurrences, tagsByName);
      noTags := tagsByName == map[];
    }
  }

/** Removing the ranges of a consistent set of highlights removes them all. */
  lemma Cleared(os: seq<Occurrence>, tagColors: map<JsString, JsString>)
    requires DistinctRanges(os)
    ensures Without(HighlightMap(Views(os), tagColors), Spans(Views(os))) == map[]
  {
    DistinctRangesSpans(os);
    WithoutAll(Views(os), tagColors);
  }

  /** Gathering into an emptied index: the highlights are those of the kept candidates. */
  lemma FromEmpty(vs: seq<Candidate>, cs: seq<Candidate>, tagColors: map<JsString, JsString>)
    ensures Views([]) == [] && Kept([] + cs) == Kept(cs)
    ensures HighlightMap(vs[0..], tagColors) == HighlightMap(vs, tagColors)
  {
    assert [] + cs == cs;
    assert vs[0..] == vs;
  }

  /** The highlights of the whole list, when those of a prefix were in place. */
  lemma Grown(h0: map<Span, JsString>, v0: seq<Candidate>, v: seq<Candidate>, tagColors: map<JsString, JsString>)
    requires h0 == HighlightMap(v0, tagColors) && |v0| <= |v| && v[..|v0|] == v0
    ensures h0 + HighlightMap(v[|v0|..], tagColors) == HighlightMap(v, tagColors)
  {
    HighlightMapAppend(v0, v[|v0|..], tagColors);
    assert v0 + v[|v0|..] == v;
  }

  /**
   * In a consistent index the keys are exactly the tags that occur, there
   * are no keys exactly when there are no occurrences, and the per-tag
   * lists together hold every occurrence once.
   */
  lemma IndexedKeys(all: seq<Occurrence>, byName: map<JsString, seq<Occurrence>>)
    requires Indexed(all, byName)
    ensures forall t :: t in byName <==> t in TagOrder(all)
    ensures byName == map[] <==> all == []
    ensures SumLengths(all, TagOrder(all)) == |all|
  {
    ListsPartition(all);
    forall t | t in byName
      ensures t in TagOrder(all)
    {
      ListHasTag(all, t);
    }
    if all != [] {
      assert all[0].tag in byName;
    }
  }

  /** The favourites from `i` on keep their first one exactly when it has a list. */
  lemma KeepTagsStep(f: seq<JsString>, i: nat, keys: set<JsString>)
    requires i < |f|
    ensures KeepTags(f[i..], keys) == (if f[i] in keys then [f[i]] else []) + KeepTags(f[i + 1..], keys)
  {
    assert f[i..][1..] == f[i + 1..];
  }

  /** One step of the backward loop: splicing out `f[i]` when it has no list keeps the loop's invariant. */
  lemma PruneStep(f: seq<JsString>, i: nat, keys: set<JsString>, fav: seq<JsString>)
    requires i < |f| && fav == f[..i + 1] + KeepTags(f[i + 1..], keys)
    ensures i < |fav| && fav[i] == f[i]
    ensures (if f[i] in keys then fav else fav[..i] + fav[i + 1..]) == f[..i] + KeepTags(f[i..], keys)
  {
    KeepTagsStep(f, i, keys);
    if f[i] in keys {
      assert f[..i + 1] == f[..i] + [f[i]];
    } else {
      SpliceAt(f[..i + 1], KeepTags(f[i + 1..], keys), i);
    }
  }

  /** Splicing out the last element of `a` from `a + r`. */
  lemma SpliceAt<T>(a: seq<T>, r: seq<T>, i: nat)
    requires i + 1 == |a|
    ensures (a + r)[..i] + (a + r)[i + 1..] == a[..i] + r
  {
    assert (a + r)[..i] == a[..i];
    assert (a + r)[i + 1..] == r;
  }

  lemma PrefixOfPrefix<T>(a: seq<T>, b: seq<T>, p: seq<T>)
    requires |p| <= |a| <= |b| && a[..|p|] == p && b[..|a|] == a
    ensures b[..|p|] == p
  {
    assert b[..|p|] == b[..|a|][..|p|];
  }

  /** One step of AddCandidates: the views and the highlights after candidate `i` are those of the candidates up to it. */
  lemma AddStep(h0: map<Span, JsString>, hBefore: map<Span, JsString>, hAfter: map<Span, JsString>, v0: seq<Candidate>, cs: seq<Candidate>, i: nat,
                v: seq<Candidate>, w: seq<Candidate>, n0: nat, tagColors: map<JsString, JsString>)
    requires i < |cs| && n0 <= |v|
    requires v == Kept(v0 + cs[..i]) && hBefore == h0 + HighlightMap(v[n0..], tagColors)
    requires w == if SpanOf(cs[i]) in Spans(v) then v else v + [cs[i]]
    requires hAfter == if SpanOf(cs[i]) in Spans(v) then hBefore else hBefore[SpanOf(cs[i]) := PickColor(tagColors, cs[i].tag)]
    ensures w == Kept(v0 + cs[..i + 1]) && hAfter == h0 + HighlightMap(w[n0..], tagColors)
  {
    PrefixSnoc(v0, cs, i);
    KeptSnoc(v0 + cs[..i], cs[i]);
    HighlightsGrow(h0, v, w, cs[i], n0, tagColors);
  }

  /** Adding a candidate's range to the highlights, or finding it there, keeps them the highlights of the views added after `n0`. */
  lemma HighlightsGrow(h0: map<Span, JsString>, v: seq<Candidate>, w: seq<Candidate>, c: Candidate, n0: nat, tagColors: map<JsString, JsString>)
    requires n0 <= |v|
    requires w == if SpanOf(c) in Spans(v) then v else v + [c]
    ensures (if SpanOf(c) in Spans(v) then h0 + HighlightMap(v[n0..], tagColors)
             else (h0 + HighlightMap(v[n0..], tagColors))[SpanOf(c) := PickColor(tagColors, c.tag)])
            == h0 + HighlightMap(w[n0..], tagColors)
  {
    if SpanOf(c) !in Spans(v) {
      SliceSnoc(v, c, n0);
      HighlightMapSnoc(v[n0..], c, tagColors);
      UnionUpdate(h0, HighlightMap(v[n0..], tagColors), SpanOf(c), PickColor(tagColors, c.tag));
    }
  }

  /**
   * The index invariant on values: no two occurrences share a range; each
   * tag's list is the flat list's occurrences of that tag, in order, and is
   * never empty; every occurrence's tag has a list.
   */
  ghost predicate Indexed(all: seq<Occurrence>, byName: map<JsString, seq<Occurrence>>) {
    DistinctRanges(all)
    && (forall t :: t in byName ==> byName[t] == OfTag(all, t) && byName[t] != [])
    && (forall k :: 0 <= k < |all| ==> all[k].tag in byName)
  }

  /** Every occurrence records the colour its tag is shown in. */
  ghost predicate ColouredBy(os: seq<Occurrence>, tagColors: map<JsString, JsString>)
    reads os
  {
    forall k :: 0 <= k < |os| ==> os[k].color == PickColor(tagColors, os[k].tag)
  }

  /** Adding an occurrence with a new range at the end of the flat list and of its tag's list keeps the index. */
  lemma IndexedSnoc(all: seq<Occurrence>, byName: map<JsString, seq<Occurrence>>, o: Occurrence)
    requires Indexed(all, byName) && forall k :: 0 <= k < |all| ==> RangeOf(all[k]) != RangeOf(o)
    ensures Indexed(all + [o], byName[o.tag := (if o.tag in byName then byName[o.tag] else []) + [o]])
  {
    SpansDistinctSnoc(all, o);
    ListsSnoc(all, byName, o);
    TagsListedSnoc(all, byName.Keys, o);
  }

  /** The range an occurrence highlights. */
  function RangeOf(o: Occurrence): Span {
    Span(o.absPos, o.matchLen)
  }

  /** No two occurrences have the same range. */
  predicate DistinctRanges(os: seq<Occurrence>) {
    forall i, j :: 0 <= i < j < |os| ==> RangeOf(os[i]) != RangeOf(os[j])
  }

  /** Distinct ranges are distinct spans of the occurrences' views. */
  lemma DistinctRangesSpans(os: seq<Occurrence>)
    ensures DistinctRanges(os) <==> NoDuplicates(Spans(Views(os)))
  {
    assert forall k :: 0 <= k < |os| ==> Spans(Views(os))[k] == RangeOf(os[k]);
  }

  lemma SpansDistinctSnoc(all: seq<Occurrence>, o: Occurrence)
    requires DistinctRanges(all) && forall k :: 0 <= k < |all| ==> RangeOf(all[k]) != RangeOf(o)
    ensures DistinctRanges(all + [o])
  {
    assert forall k :: 0 <= k < |all| ==> (all + [o])[k] == all[k];
  }

  lemma ListsSnoc(all: seq<Occurrence>, byName: map<JsString, seq<Occurrence>>, o: Occurrence)
    requires forall t :: t in byName ==> byName[t] == OfTag(all, t) && byName[t] != []
    requires forall k :: 0 <= k < |all| ==> all[k].tag in byName
    ensures var after := byName[o.tag := (if o.tag in byName then byName[o.tag] else []) + [o]];
            forall t :: t in after ==> after[t] == OfTag(all + [o], t) && after[t] != []
  {
    var list := if o.tag in byName then byName[o.tag] else [];
    var after := byName[o.tag := list + [o]];
    assert list == OfTag(all, o.tag) by {
      if o.tag !in byName {
        NoListWithoutTag(all, o.tag, byName.Keys);
      }
    }
    forall t | t in after
      ensures after[t] == OfTag(all + [o], t) && after[t] != []
    {
      OfTagSnoc(all, o, t);
    }
  }

  lemma TagsListedSnoc(all: seq<Occurrence>, keys: set<JsString>, o: Occurrence)
    requires forall k :: 0 <= k < |all| ==> all[k].tag in keys
    ensures forall k :: 0 <= k < |all + [o]| ==> (all + [o])[k].tag in keys + {o.tag}
  {
  }

  /** A list whose ranges are distinct is kept whole. */
  lemma {:induction false} KeptDistinct(cs: seq<Candidate>)
    requires NoDuplicates(Spans(cs))
    ensures Kept(cs) == cs
  {
    if cs != [] {
      var p, c := cs[..|cs| - 1], cs[|cs| - 1];
      assert cs == p + [c];
      SpansSnoc(p, c);
      assert NoDuplicates(Spans(p)) by {
        assert forall i :: 0 <= i < |p| ==> Spans(p)[i] == Spans(cs)[i];
      }
      KeptDistinct(p);
    }
  }

  lemma KeptSnoc(cs: seq<Candidate>, c: Candidate)
    ensures Kept(cs + [c]) == if SpanOf(c) in Spans(Kept(cs)) then Kept(cs) else Kept(cs) + [c]
  {
    assert (cs + [c])[..|cs|] == cs;
  }

  lemma HighlightMapSnoc(cs: seq<Candidate>, c: Candidate, tagColors: map<JsString, JsString>)
    ensures HighlightMap(cs + [c], tagColors) == HighlightMap(cs, tagColors)[SpanOf(c) := PickColor(tagColors, c.tag)]
  {
    assert (cs + [c])[..|cs|] == cs;
  }

  /** A range is among the spans of the candidates the occurrences show exactly when an occurrence has it. */
  lemma HasRange(os: seq<Occurrence>, cs: seq<Candidate>, s: Span)
    requires cs == Views(os)
    ensures s in Spans(cs) <==> exists k :: 0 <= k < |os| && RangeOf(os[k]) == s
  {
    if s in Spans(cs) {
      var k :| 0 <= k < |cs| && Spans(cs)[k] == s;
      assert RangeOf(os[k]) == s;
    }
    if exists k :: 0 <= k < |os| && RangeOf(os[k]) == s {
      var k :| 0 <= k < |os| && RangeOf(os[k]) == s;
      assert Spans(cs)[k] == s;
    }
  }

  lemma PrefixSnoc<T>(a: seq<T>, b: seq<T>, i: nat)
    requires i < |b|
    ensures a + b[..i + 1] == (a + b[..i]) + [b[i]]
  {
    assert b[..i + 1] == b[..i] + [b[i]];
  }

  lemma EmptyUnion<K, V>(m: map<K, V>)
    ensures map[] + m == m
  {
  }

  lemma TakeSnoc<T>(s: seq<T>, i: nat)
    requires i < |s|
    ensures s[..i + 1] == s[..i] + [s[i]]
  {
  }

  lemma SnocOfPrefix<T>(s: seq<T>, p: seq<T>)
    requires |s| == |p| + 1 && s[..|p|] == p
    ensures s == p + [s[|p|]]
  {
  }

  lemma SliceSnoc<T>(s: seq<T>, x: T, n: nat)
    requires n <= |s|
    ensures (s + [x])[n..] == s[n..] + [x]
  {
  }

  lemma ColouredSnoc(os: seq<Occurrence>, tagColors: map<JsString, JsString>, o: Occurrence)
    requires ColouredBy(os, tagColors) && o.color == PickColor(tagColors, o.tag)
    ensures ColouredBy(os + [o], tagColors)
  {
  }

  lemma ViewsSnoc(os: seq<Occurrence>, o: Occurrence)
    ensures Views(os + [o]) == Views(os) + [View(o)]
  {
  }

  /** A tag that no occurrence carries has no occurrences. */
  lemma {:induction false} NoListWithoutTag(os: seq<Occurrence>, t: JsString, keys: set<JsString>)
    requires t !in keys && forall k :: 0 <= k < |os| ==> os[k].tag in keys
    ensures OfTag(os, t) == []
  {
    if os != [] {
      var p, o := os[..|os| - 1], os[|os| - 1];
      assert os == p + [o];
      NoListWithoutTag(p, t, keys);
      OfTagSnoc(p, o, t);
    }
  }
}
