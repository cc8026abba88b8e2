/**
 * The two string escapers of the cue manager (QMan.js, escapeForJS and
 * escapeHTML): each is a chain of global replaces, and each is shown equal
 * to a one-pass, unit-by-unit escaper whose output decodes back to the
 * input.
 */
module QManEscape {
  import opened JsText
  import opened JsValues

  const BACKSLASH: CodeUnit := 0x5C
  const SQUOTE: CodeUnit := 0x27
  const DQUOTE: CodeUnit := 0x22
  const LF: CodeUnit := 0x0A
  const CR: CodeUnit := 0x0D
  const TAB: CodeUnit := 0x09
  const AMP: CodeUnit := 0x26
  const LT: CodeUnit := 0x3C
  const GT: CodeUnit := 0x3E

  // ---------------------------------------------------------------------
  // escapeForJS
  // ---------------------------------------------------------------------

  /** The six replaces of escapeForJS, in the order the source applies them. */
  function JsReplaceChain(s: JsString): JsString {
    var s1 := ReplaceAll(s, BACKSLASH, [BACKSLASH, BACKSLASH]);
    var s2 := ReplaceAll(s1, SQUOTE, [BACKSLASH, SQUOTE]);
    var s3 := ReplaceAll(s2, DQUOTE, [BACKSLASH, DQUOTE]);
    var s4 := ReplaceAll(s3, LF, [BACKSLASH, 'n' as int]);
    var s5 := ReplaceAll(s4, CR, [BACKSLASH, 'r' as int]);
    ReplaceAll(s5, TAB, [BACKSLASH, 't' as int])
  }

  /** How escapeForJS writes one code unit inside a single-quoted JavaScript literal. */
  function JsEscapeUnit(c: CodeUnit): JsString {
    if c == BACKSLASH then [BACKSLASH, BACKSLASH]
    else if c == SQUOTE then [BACKSLASH, SQUOTE]
    else if c == DQUOTE then [BACKSLASH, DQUOTE]
    else if c == LF then [BACKSLASH, 'n' as int]
    else if c == CR then [BACKSLASH, 'r' as int]
    else if c == TAB then [BACKSLASH, 't' as int]
    else [c]
  }

  /** The one-pass escaper: every unit replaced by its own escape. */
  function JsEscapeEach(s: JsString): (r: JsString)
    ensures LF !in r && CR !in r && TAB !in r
  {
    if s == [] then [] else JsEscapeUnit(s[0]) + JsEscapeEach(s[1..])
  }

  /** escapeForJS: a string escaped for a single-quoted literal; any other value gives "". */
  function EscapeForJS(v: JsValue): (r: JsString)
    ensures !v.JString? ==> r == []
    ensures v.JString? ==> DecodeJsLiteral(r) == Some(v.s)
    ensures LF !in r && CR !in r && TAB !in r
  {
    if v.JString? then
      JsChainIsOnePass(v.s);
      JsRoundTrip(v.s);
      JsReplaceChain(v.s)
    else []
  }

  /**
   * The body of a single-quoted JavaScript literal, decoded; None when the
   * text could not stand between the quotes (a bare quote, a raw line break,
   * a dangling backslash) or uses an escape the escaper never writes.
   */
  function DecodeJsLiteral(t: JsString): Option<JsString>
    decreases |t|
  {
    if t == [] then Some([])
    else if t[0] == BACKSLASH then
      if |t| < 2 then None
      else
        var e := t[1];
        var c: Option<CodeUnit> :=
          if e == 'n' as int then Some(LF)
          else if e == 'r' as int then Some(CR)
          else if e == 't' as int then Some(TAB)
          else if e == BACKSLASH || e == SQUOTE || e == DQUOTE then Some(e)
          else None;
        match (c, DecodeJsLiteral(t[2..]))
        case (Some(u), Some(rest)) => Some([u] + rest)
        case _ => None
    else if t[0] == SQUOTE || t[0] == LF || t[0] == CR then None
    else
      match DecodeJsLiteral(t[1..])
      case Some(rest) => Some([t[0]] + rest)
      case None => None
  }

  lemma JsChainUnit(c: CodeUnit)
    ensures JsReplaceChain([c]) == JsEscapeUnit(c)
  {
    var s1 := ReplaceAll([c], BACKSLASH, [BACKSLASH, BACKSLASH]);
    var s2 := ReplaceAll(s1, SQUOTE, [BACKSLASH, SQUOTE]);
    var s3 := ReplaceAll(s2, DQUOTE, [BACKSLASH, DQUOTE]);
    var s4 := ReplaceAll(s3, LF, [BACKSLASH, 'n' as int]);
    var s5 := ReplaceAll(s4, CR, [BACKSLASH, 'r' as int]);
    assert s1 == if c == BACKSLASH then [BACKSLASH, BACKSLASH] else [c];
    assert s2 == if c == SQUOTE then [BACKSLASH, SQUOTE] else s1;
    assert s3 == if c == DQUOTE then [BACKSLASH, DQUOTE] else s2;
    assert s4 == if c == LF then [BACKSLASH, 'n' as int] else s3;
    assert s5 == if c == CR then [BACKSLASH, 'r' as int] else s4;
  }

  lemma {:induction false} JsChainAppend(s: JsString, t: JsString)
    ensures JsReplaceChain(s + t) == JsReplaceChain(s) + JsReplaceChain(t)
  {
    var s1, t1 := ReplaceAll(s, BACKSLASH, [BACKSLASH, BACKSLASH]), ReplaceAll(t, BACKSLASH, [BACKSLASH, BACKSLASH]);
    ReplaceAllAppend(s, t, BACKSLASH, [BACKSLASH, BACKSLASH]);
    var s2, t2 := ReplaceAll(s1, SQUOTE, [BACKSLASH, SQUOTE]), ReplaceAll(t1, SQUOTE, [BACKSLASH, SQUOTE]);
    ReplaceAllAppend(s1, t1, SQUOTE, [BACKSLASH, SQUOTE]);
    var s3, t3 := ReplaceAll(s2, DQUOTE, [BACKSLASH, DQUOTE]), ReplaceAll(t2, DQUOTE, [BACKSLASH, DQUOTE]);
    ReplaceAllAppend(s2, t2, DQUOTE, [BACKSLASH, DQUOTE]);
    var s4, t4 := ReplaceAll(s3, LF, [BACKSLASH, 'n' as int]), ReplaceAll(t3, LF, [BACKSLASH, 'n' as int]);
    ReplaceAllAppend(s3, t3, LF, [BACKSLASH, 'n' as int]);
    var s5, t5 := ReplaceAll(s4, CR, [BACKSLASH, 'r' as int]), ReplaceAll(t4, CR, [BACKSLASH, 'r' as int]);
    ReplaceAllAppend(s4, t4, CR, [BACKSLASH, 'r' as int]);
    ReplaceAllAppend(s5, t5, TAB, [BACKSLASH, 't' as int]);
  }

  /** Replacing the backslash first means no escape is escaped again: the chain is a one-pass escaper. */
  lemma {:induction false} JsChainIsOnePass(s: JsString)
    ensures JsReplaceChain(s) == JsEscapeEach(s)
  {
    if s != [] {
      assert s == [s[0]] + s[1..];
      JsChainAppend([s[0]], s[1..]);
      JsChainUnit(s[0]);
      JsChainIsOnePass(s[1..]);
    }
  }

  /** Decoding the escaped text gives back the original string. */
  lemma {:induction false} JsRoundTrip(s: JsString)
    ensures DecodeJsLiteral(JsEscapeEach(s)) == Some(s)
  {
    if s != [] {
      JsRoundTrip(s[1..]);
      var u := JsEscapeUnit(s[0]);
      var t := u + JsEscapeEach(s[1..]);
      if |u| == 2 {
        assert t[2..] == JsEscapeEach(s[1..]);
      } else {
        assert t[1..] == JsEscapeEach(s[1..]);
      }
      assert [s[0]] + s[1..] == s;
    }
  }

  // ---------------------------------------------------------------------
  // escapeHTML
  // ---------------------------------------------------------------------

  const AMP_ENTITY: JsString := [AMP, 'a' as int, 'm' as int, 'p' as int, ';' as int]
  const LT_ENTITY: JsString := [AMP, 'l' as int, 't' as int, ';' as int]
  const GT_ENTITY: JsString := [AMP, 'g' as int, 't' as int, ';' as int]
  const QUOT_ENTITY: JsString := [AMP, 'q' as int, 'u' as int, 'o' as int, 't' as int, ';' as int]
  const APOS_ENTITY: JsString := [AMP, '#' as int, '0' as int, '3' as int, '9' as int, ';' as int]

  /** The five replaces of escapeHTML, ampersand first. */
  function HtmlReplaceChain(s: JsString): JsString {
    var s1 := ReplaceAll(s, AMP, AMP_ENTITY);
    var s2 := ReplaceAll(s1, LT, LT_ENTITY);
    var s3 := ReplaceAll(s2, GT, GT_ENTITY);
    var s4 := ReplaceAll(s3, DQUOTE, QUOT_ENTITY);
    ReplaceAll(s4, SQUOTE, APOS_ENTITY)
  }

  function HtmlEscapeUnit(c: CodeUnit): JsString {
    if c == AMP then AMP_ENTITY
    else if c == LT then LT_ENTITY
    else if c == GT then GT_ENTITY
    else if c == DQUOTE then QUOT_ENTITY
    else if c == SQUOTE then APOS_ENTITY
    else [c]
  }

  function HtmlEscapeEach(s: JsString): (r: JsString)
    ensures LT !in r && GT !in r && DQUOTE !in r && SQUOTE !in r
  {
    if s == [] then [] else HtmlEscapeUnit(s[0]) + HtmlEscapeEach(s[1..])
  }

  /** escapeHTML: markup-safe text for a string; any other value gives "". */
  function EscapeHTML(v: JsValue): (r: JsString)
    ensures !v.JString? ==> r == []
    ensures v.JString? ==> DecodeHtml(r) == Some(v.s)
    ensures LT !in r && GT !in r && DQUOTE !in r && SQUOTE !in r
  {
    if v.JString? then
      HtmlChainIsOnePass(v.s);
      HtmlRoundTrip(v.s);
      HtmlReplaceChain(v.s)
    else []
  }

  /**
   * Markup text decoded with the five entities escapeHTML writes; None when
   * it holds a raw `<`, `>`, `"`, `'` or an `&` that starts none of them.
   */
  function DecodeHtml(t: JsString): Option<JsString>
    decreases |t|
  {
    if t == [] then Some([])
    else if t[0] == AMP then
      match EntityAt(t)
      case None => None
      case Some(c) =>
        var n := |HtmlEscapeUnit(c)|;
        match DecodeHtml(t[n..])
        case Some(rest) => Some([c] + rest)
        case None => None
    else if t[0] == LT || t[0] == GT || t[0] == DQUOTE || t[0] == SQUOTE then None
    else
      match DecodeHtml(t[1..])
      case Some(rest) => Some([t[0]] + rest)
      case None => None
  }

  /** The character whose entity `t` starts with, if any. */
  function EntityAt(t: JsString): (r: Option<CodeUnit>)
    ensures r.Some? ==> StartsWith(t, HtmlEscapeUnit(r.value)) && |HtmlEscapeUnit(r.value)| > 1
  {
    if StartsWith(t, AMP_ENTITY) then Some(AMP)
    else if StartsWith(t, LT_ENTITY) then Some(LT)
    else if StartsWith(t, GT_ENTITY) then Some(GT)
    else if StartsWith(t, QUOT_ENTITY) then Some(DQUOTE)
    else if StartsWith(t, APOS_ENTITY) then Some(SQUOTE)
    else None
  }

  lemma HtmlChainUnit(c: CodeUnit)
    ensures HtmlReplaceChain([c]) == HtmlEscapeUnit(c)
  {
    var s1 := ReplaceAll([c], AMP, AMP_ENTITY);
    var s2 := ReplaceAll(s1, LT, LT_ENTITY);
    var s3 := ReplaceAll(s2, GT, GT_ENTITY);
    var s4 := ReplaceAll(s3, DQUOTE, QUOT_ENTITY);
    assert s1 == if c == AMP then AMP_ENTITY else [c];
    assert s2 == if c == LT then LT_ENTITY else s1;
    assert s3 == if c == GT then GT_ENTITY else s2;
    assert s4 == if c == DQUOTE then QUOT_ENTITY else s3;
  }

  lemma {:induction false} HtmlChainAppend(s: JsString, t: JsString)
    ensures HtmlReplaceChain(s + t) == HtmlReplaceChain(s) + HtmlReplaceChain(t)
  {
    var s1, t1 := ReplaceAll(s, AMP, AMP_ENTITY), ReplaceAll(t, AMP, AMP_ENTITY);
    ReplaceAllAppend(s, t, AMP, AMP_ENTITY);
    var s2, t2 := ReplaceAll(s1, LT, LT_ENTITY), ReplaceAll(t1, LT, LT_ENTITY);
    ReplaceAllAppend(s1, t1, LT, LT_ENTITY);
    var s3, t3 := ReplaceAll(s2, GT, GT_ENTITY), ReplaceAll(t2, GT, GT_ENTITY);
    ReplaceAllAppend(s2, t2, GT, GT_ENTITY);
    var s4, t4 := ReplaceAll(s3, DQUOTE, QUOT_ENTITY), ReplaceAll(t3, DQUOTE, QUOT_ENTITY);
    ReplaceAllAppend(s3, t3, DQUOTE, QUOT_ENTITY);
    ReplaceAllAppend(s4, t4, SQUOTE, APOS_ENTITY);
  }

  /** Replacing `&` first means no entity is escaped a second time: the chain is a one-pass escaper. */
  lemma {:induction false} HtmlChainIsOnePass(s: JsString)
    ensures HtmlReplaceChain(s) == HtmlEscapeEach(s)
  {
    if s != [] {
      assert s == [s[0]] + s[1..];
      HtmlChainAppend([s[0]], s[1..]);
      HtmlChainUnit(s[0]);
      HtmlChainIsOnePass(s[1..]);
    }
  }

  /** Decoding the five entities gives back the original string. */
  lemma {:induction false} HtmlRoundTrip(s: JsString)
    ensures DecodeHtml(HtmlEscapeEach(s)) == Some(s)
  {
    if s != [] {
      HtmlRoundTrip(s[1..]);
      var u := HtmlEscapeUnit(s[0]);
      var t := u + HtmlEscapeEach(s[1..]);
      assert t[|u|..] == HtmlEscapeEach(s[1..]);
      assert t[..|u|] == u;
      if s[0] == AMP {
        assert EntityAt(t) == Some(AMP);
      } else if s[0] == LT {
        assert t[1] == 'l' as int;
        assert EntityAt(t) == Some(LT);
      } else if s[0] == GT {
        assert t[1] == 'g' as int;
        assert EntityAt(t) == Some(GT);
      } else if s[0] == DQUOTE {
        assert t[1] == 'q' as int;
        assert EntityAt(t) == Some(DQUOTE);
      } else if s[0] == SQUOTE {
        assert t[1] == '#' as int;
        assert EntityAt(t) == Some(SQUOTE);
      }
      assert [s[0]] + s[1..] == s;
    }
  }
}
