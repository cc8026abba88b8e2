/**
 * Replacing ranges of the editor's text, and the reference both document
 * rewrites of the cue manager are proved against. A rewrite decides, for
 * each item it walks over (a cue, a line), whether to replace a range of
 * the ORIGINAL text and by what; the reference applies all of these at
 * once, keeping the text between the ranges. Items are addressed by index,
 * `None` standing for an item that is left alone.
 */
module TextEdits {
  import opened JsText

  /** Replace `len` units at `pos` by `repl`. */
  datatype Edit<T> = Edit(pos: int, len: int, repl: seq<T>)

  /** `replaceRange` on a text that holds the range. */
  function Splice<T>(text: seq<T>, pos: nat, len: nat, repl: seq<T>): (r: seq<T>)
    requires pos + len <= |text|
    ensures |r| == |text| - len + |repl|
  {
    text[..pos] + repl + text[pos + len..]
  }

  /**
   * The edits of items `i` up to `j` lie at or after `from`, in ascending
   * order and without overlap, inside a text of length `n`.
   */
  predicate Fits<T>(n: nat, es: seq<Option<Edit<T>>>, i: nat, j: nat, from: nat)
    requires i <= j <= |es|
    decreases j - i
  {
    if i == j then from <= n
    else
      match es[i]
      case None => Fits(n, es, i + 1, j, from)
      case Some(e) => from <= e.pos && 0 <= e.len && e.pos + e.len <= n && Fits(n, es, i + 1, j, e.pos + e.len)
  }

  /** How much longer the edits of items `i` up to `j` make the text. */
  function Growth<T>(es: seq<Option<Edit<T>>>, i: nat, j: nat): int
    requires i <= j <= |es|
    decreases j - i
  {
    if i == j then 0
    else
      match es[i]
      case None => Growth(es, i + 1, j)
      case Some(e) => |e.repl| - e.len + Growth(es, i + 1, j)
  }

  /** Where the last of the edits of items `i` up to `j` ends (`from` when there is none). */
  function End<T>(es: seq<Option<Edit<T>>>, i: nat, j: nat, from: int): int
    requires i <= j <= |es|
    decreases j - i
  {
    if i == j then from
    else
      match es[i]
      case None => End(es, i + 1, j, from)
      case Some(e) => End(es, i + 1, j, e.pos + e.len)
  }

  /** Where the first of the edits of items `i` up to `j` starts (`n` when there is none). */
  function Start<T>(es: seq<Option<Edit<T>>>, i: nat, j: nat, n: int): int
    requires i <= j <= |es|
    decreases j - i
  {
    if i == j then n
    else
      match es[i]
      case None => Start(es, i + 1, j, n)
      case Some(e) => e.pos
  }

  /** The text from `from` on, with the edits of items `i` up to `j` applied at their original positions. */
  function Apply<T>(text: seq<T>, es: seq<Option<Edit<T>>>, i: nat, j: nat, from: nat): seq<T>
    requires i <= j <= |es| && Fits(|text|, es, i, j, from)
    decreases j - i
  {
    if i == j then text[from..]
    else
      match es[i]
      case None => Apply(text, es, i + 1, j, from)
      case Some(e) => text[from..e.pos] + e.repl + Apply(text, es, i + 1, j, e.pos + e.len)
  }

  /** The whole text with every edit applied. */
  function ApplyAll<T>(text: seq<T>, es: seq<Option<Edit<T>>>): seq<T>
    requires Fits(|text|, es, 0, |es|, 0)
  {
    Apply(text, es, 0, |es|, 0)
  }

  /**
   * The sequence f(0), f(1), ..., f(n - 1), built item by item. Its items
   * are known only through TabulateAt, so a proof that holds such a
   * sequence does not unfold every f(i).
   */
  function Tabulate<T>(n: nat, f: nat -> T): (r: seq<T>)
    ensures |r| == n
  {
    if n == 0 then [] else Tabulate(n - 1, f) + [f(n - 1)]
  }

  lemma {:induction false} TabulateAt<T>(n: nat, f: nat -> T, i: nat)
    requires i < n
    ensures Tabulate(n, f)[i] == f(i)
  {
    if i < n - 1 {
      TabulateAt(n - 1, f, i);
    }
  }

  /**
   * Edits fit when item k's edit (if any) starts at `start(k)` and ends by
   * `start(k + 1)`, the starts never going back and never past `n`.
   */
  lemma {:induction false} FitsByStarts<T>(n: nat, es: seq<Option<Edit<T>>>, start: nat -> int, i: nat, from: nat)
    requires i <= |es| && from <= start(i)
    requires forall k :: 0 <= k <= |es| ==> start(k) <= n
    requires forall k :: 0 <= k < |es| ==> start(k) <= start(k + 1)
    requires forall k :: 0 <= k < |es| && es[k].Some? ==>
               es[k].value.pos == start(k) && 0 <= es[k].value.len && es[k].value.pos + es[k].value.len <= start(k + 1)
    ensures Fits(n, es, i, |es|, from)
    decreases |es| - i
  {
    if i < |es| {
      if es[i].Some? {
        var e := es[i].value;
        FitsByStarts(n, es, start, i + 1, e.pos + e.len);
      } else {
        FitsByStarts(n, es, start, i + 1, from);
      }
    }
  }

  lemma {:induction false} FitsBounds<T>(n: nat, es: seq<Option<Edit<T>>>, i: nat, j: nat, from: nat)
    requires i <= j <= |es| && Fits(n, es, i, j, from)
    ensures from <= Start(es, i, j, n) <= n && from <= End(es, i, j, from) <= n
    decreases j - i
  {
    if i < j {
      match es[i]
      case None => FitsBounds(n, es, i + 1, j, from);
      case Some(e) => FitsBounds(n, es, i + 1, j, e.pos + e.len);
    }
  }

  /** Moving the start back over untouched text. */
  lemma {:induction false} FitsEarlier<T>(n: nat, es: seq<Option<Edit<T>>>, i: nat, j: nat, a: nat, b: nat)
    requires i <= j <= |es| && a <= b && Fits(n, es, i, j, b)
    ensures Fits(n, es, i, j, a)
    decreases j - i
  {
    if i < j && es[i].None? {
      FitsEarlier(n, es, i + 1, j, a, b);
    }
  }

  /** Each edit changes the length by the length of its text less the length it replaces. */
  lemma {:induction false} ApplyLength<T>(text: seq<T>, es: seq<Option<Edit<T>>>, i: nat, j: nat, from: nat)
    requires i <= j <= |es| && Fits(|text|, es, i, j, from)
    ensures |Apply(text, es, i, j, from)| == |text| - from + Growth(es, i, j)
    decreases j - i
  {
    if i < j {
      match es[i]
      case None => ApplyLength(text, es, i + 1, j, from);
      case Some(e) => ApplyLength(text, es, i + 1, j, e.pos + e.len);
    }
  }

  /** One unfolding of Apply at an item with an edit. */
  lemma ApplySome<T>(text: seq<T>, es: seq<Option<Edit<T>>>, i: nat, j: nat, from: nat)
    requires i < j <= |es| && es[i].Some? && Fits(|text|, es, i, j, from)
    ensures from <= es[i].value.pos && 0 <= es[i].value.len && Fits(|text|, es, i + 1, j, es[i].value.pos + es[i].value.len)
    ensures Apply(text, es, i, j, from)
            == text[from..es[i].value.pos] + es[i].value.repl + Apply(text, es, i + 1, j, es[i].value.pos + es[i].value.len)
  {
  }

  /** One unfolding of Apply at an item without an edit. */
  lemma ApplyNone<T>(text: seq<T>, es: seq<Option<Edit<T>>>, i: nat, j: nat, from: nat)
    requires i < j <= |es| && es[i].None? && Fits(|text|, es, i, j, from)
    ensures Fits(|text|, es, i + 1, j, from) && Apply(text, es, i, j, from) == Apply(text, es, i + 1, j, from)
  {
  }

  /** A slice cut in two. */
  lemma SliceSplit<T>(s: seq<T>, a: nat, p: nat, b: nat)
    requires a <= p <= b <= |s|
    ensures s[a..b] == s[a..p] + s[p..b]
  {
  }

  /** A suffix cut in two. */
  lemma SuffixSplit<T>(s: seq<T>, a: nat, p: nat)
    requires a <= p <= |s|
    ensures s[a..] == s[a..p] + s[p..]
  {
  }

  /** Two texts that agree from some point on agree from any later point on. */
  lemma SuffixesAgree<T>(cur: seq<T>, text: seq<T>, a: nat, b: nat, d: nat)
    requires a <= |cur| && b + d <= |text| && cur[a..] == text[b..]
    ensures a + d <= |cur| && cur[a + d..] == text[b + d..]
  {
    assert cur[a + d..] == cur[a..][d..];
    assert text[b + d..] == text[b..][d..];
  }

  /** Two texts that agree from some point on agree on any range after it. */
  lemma SlicesAgree<T>(cur: seq<T>, text: seq<T>, a: nat, b: nat, i: nat, j: nat)
    requires a <= |cur| && b <= |text| && cur[a..] == text[b..] && i <= j <= |text| - b
    ensures a + j <= |cur| && cur[a + i..a + j] == text[b + i..b + j]
  {
    assert |cur| - a == |text| - b;
    var x, y := cur[a + i..a + j], text[b + i..b + j];
    forall k | 0 <= k < j - i
      ensures x[k] == y[k]
    {
      assert cur[a..][i + k] == text[b..][i + k];
    }
  }

  /** Two texts that agree up to some point agree on any range before it. */
  lemma PrefixesAgree<T>(cur: seq<T>, text: seq<T>, n: nat, i: nat, j: nat)
    requires n <= |cur| && n <= |text| && cur[..n] == text[..n] && i <= j <= n
    ensures cur[i..j] == text[i..j]
  {
    forall k | i <= k < j
      ensures cur[k] == text[k]
    {
      assert cur[..n][k] == text[..n][k];
    }
  }

  lemma Regroup<T>(x: seq<T>, y: seq<T>, r: seq<T>, t: seq<T>)
    ensures x + y + r + t == x + (y + r + t)
  {
  }

  /** ApplySplit at an item with an edit. */
  lemma ApplySplitSome<T>(text: seq<T>, es: seq<Option<Edit<T>>>, i: nat, j: nat, a: nat, p: nat)
    requires i < j <= |es| && es[i].Some? && a <= p && Fits(|text|, es, i, j, p)
    ensures Fits(|text|, es, i, j, a)
    ensures Apply(text, es, i, j, a) == text[a..p] + Apply(text, es, i, j, p)
  {
    var e := es[i].value;
    var t := Apply(text, es, i + 1, j, e.pos + e.len);
    var x, y := text[a..p], text[p..e.pos];
    assert Apply(text, es, i, j, p) == y + e.repl + t;
    SliceSplit(text, a, p, e.pos);
    assert Apply(text, es, i, j, a) == x + y + e.repl + t;
    Regroup(x, y, e.repl, t);
  }

  /** The untouched text before the first edit can be split off. */
  lemma {:induction false} ApplySplit<T>(text: seq<T>, es: seq<Option<Edit<T>>>, i: nat, j: nat, a: nat, p: nat)
    requires i <= j <= |es| && a <= p && Fits(|text|, es, i, j, p)
    ensures p <= |text| && Fits(|text|, es, i, j, a)
    ensures Apply(text, es, i, j, a) == text[a..p] + Apply(text, es, i, j, p)
    decreases j - i
  {
    FitsBounds(|text|, es, i, j, p);
    if i == j {
      SuffixSplit(text, a, p);
    } else if es[i].None? {
      ApplySplit(text, es, i + 1, j, a, p);
      ApplyNone(text, es, i, j, a);
      ApplyNone(text, es, i, j, p);
    } else {
      ApplySplitSome(text, es, i, j, a, p);
    }
  }

  /** Replacing a range behind an untouched prefix. */
  lemma SpliceAfter<T>(x: seq<T>, y: seq<T>, q: nat, len: nat, repl: seq<T>)
    requires q + len <= |y|
    ensures Splice(x + y, |x| + q, len, repl) == x + Splice(y, q, len, repl)
  {
    assert (x + y)[..|x| + q] == x + y[..q];
    assert (x + y)[|x| + q + len..] == y[q + len..];
  }

  /**
   * Applying the edit of item `i` in front of the edits of the later items,
   * which are already applied, at its original position: what a loop from
   * the last item to the first does.
   */
  lemma SpliceInFront<T>(text: seq<T>, es: seq<Option<Edit<T>>>, i: nat, j: nat)
    requires i < j <= |es| && es[i].Some? && Fits(|text|, es, i, j, 0)
    ensures Fits(|text|, es, i + 1, j, 0)
    ensures es[i].value.pos + es[i].value.len <= |Apply(text, es, i + 1, j, 0)|
    ensures Splice(Apply(text, es, i + 1, j, 0), es[i].value.pos, es[i].value.len, es[i].value.repl) == Apply(text, es, i, j, 0)
  {
    var e := es[i].value;
    var p := e.pos + e.len;
    ApplySplit(text, es, i + 1, j, 0, p);
    var tail := Apply(text, es, i + 1, j, p);
    var cur := text[..p] + tail;
    assert cur[..e.pos] == text[..e.pos];
    assert cur[p..] == tail;
  }

  /** The edits fit from wherever the first of them starts. */
  lemma {:induction false} FitsStart<T>(n: nat, es: seq<Option<Edit<T>>>, i: nat, j: nat, from: nat, p: nat)
    requires i <= j <= |es| && Fits(n, es, i, j, from) && p <= Start(es, i, j, n)
    ensures Fits(n, es, i, j, p)
    decreases j - i
  {
    if i < j && es[i].None? {
      FitsStart(n, es, i + 1, j, from, p);
    }
  }

  /** The text a loop from the last item to the first sees, before the range of its next edit, is still the original text. */
  lemma ApplyKeepsPrefix<T>(text: seq<T>, es: seq<Option<Edit<T>>>, i: nat, j: nat, p: nat)
    requires i <= j <= |es| && Fits(|text|, es, i, j, 0) && p <= Start(es, i, j, |text|)
    ensures p <= |text| && p <= |Apply(text, es, i, j, 0)| && Apply(text, es, i, j, 0)[..p] == text[..p]
  {
    FitsStart(|text|, es, i, j, 0, p);
    ApplySplit(text, es, i, j, 0, p);
    assert (text[..p] + Apply(text, es, i, j, p))[..p] == text[..p];
  }

  /** Items without an edit can be dropped from the end of the range. */
  lemma {:induction false} ApplyBehindNone<T>(text: seq<T>, es: seq<Option<Edit<T>>>, i: nat, k: nat, from: nat)
    requires i <= k < |es| && es[k].None? && Fits(|text|, es, i, k + 1, from)
    ensures Fits(|text|, es, i, k, from) && Growth(es, i, k + 1) == Growth(es, i, k)
    ensures End(es, i, k + 1, from) == End(es, i, k, from)
    ensures Apply(text, es, i, k + 1, from) == Apply(text, es, i, k, from)
    decreases k - i
  {
    if i < k {
      match es[i]
      case None => ApplyBehindNone(text, es, i + 1, k, from);
      case Some(e) => ApplyBehindNone(text, es, i + 1, k, e.pos + e.len);
    }
  }

  lemma Assoc<T>(x: seq<T>, y: seq<T>, z: seq<T>)
    ensures x + (y + z) == x + y + z
  {
  }

  lemma Regroup4<T>(x: seq<T>, d: seq<T>, m: seq<T>, r: seq<T>)
    ensures x + (d + m + r) == x + d + m + r
  {
  }

  /**
   * The text from `from` up to the end of the last of the edits of items
   * `i` up to `j`, with those edits applied.
   */
  function Done<T>(text: seq<T>, es: seq<Option<Edit<T>>>, i: nat, j: nat, from: nat): seq<T>
    requires i <= j <= |es| && Fits(|text|, es, i, j, from)
    decreases j - i
  {
    if i == j then []
    else
      match es[i]
      case None => Done(text, es, i + 1, j, from)
      case Some(e) => text[from..e.pos] + e.repl + Done(text, es, i + 1, j, e.pos + e.len)
  }

  /** ApplyDone at an item with an edit, given ApplyDone for the items after it. */
  lemma ApplyDoneSome<T>(text: seq<T>, es: seq<Option<Edit<T>>>, i: nat, j: nat, from: nat, e: Edit<T>)
    requires i < j <= |es| && es[i] == Some(e) && Fits(|text|, es, i, j, from)
    requires 0 <= End(es, i + 1, j, e.pos + e.len) <= |text|
    requires Apply(text, es, i + 1, j, e.pos + e.len)
             == Done(text, es, i + 1, j, e.pos + e.len) + text[End(es, i + 1, j, e.pos + e.len)..]
    ensures Apply(text, es, i, j, from) == Done(text, es, i, j, from) + text[End(es, i, j, from)..]
  {
    var f := e.pos + e.len;
    ApplySome(text, es, i, j, from);
    Assoc(text[from..e.pos] + e.repl, Done(text, es, i + 1, j, f), text[End(es, i + 1, j, f)..]);
  }

  /** The edited text is the edited part followed by the original text past the last edit. */
  lemma {:induction false} ApplyDone<T>(text: seq<T>, es: seq<Option<Edit<T>>>, i: nat, j: nat, from: nat)
    requires i <= j <= |es| && Fits(|text|, es, i, j, from)
    ensures 0 <= End(es, i, j, from) <= |text|
    ensures Apply(text, es, i, j, from) == Done(text, es, i, j, from) + text[End(es, i, j, from)..]
    decreases j - i
  {
    FitsBounds(|text|, es, i, j, from);
    if i == j {
      assert [] + text[from..] == text[from..];
    } else if es[i].None? {
      ApplyDone(text, es, i + 1, j, from);
      ApplyNone(text, es, i, j, from);
    } else {
      var e := es[i].value;
      ApplyDone(text, es, i + 1, j, e.pos + e.len);
      ApplyDoneSome(text, es, i, j, from, e);
    }
  }

  lemma {:induction false} DoneLength<T>(text: seq<T>, es: seq<Option<Edit<T>>>, i: nat, j: nat, from: nat)
    requires i <= j <= |es| && Fits(|text|, es, i, j, from)
    ensures |Done(text, es, i, j, from)| == End(es, i, j, from) - from + Growth(es, i, j)
    decreases j - i
  {
    if i < j {
      match es[i]
      case None => DoneLength(text, es, i + 1, j, from);
      case Some(e) => DoneLength(text, es, i + 1, j, e.pos + e.len);
    }
  }

  /** Taking in one more item with an edit moves the end to that edit's end and adds its growth. */
  lemma {:induction false} EndGrowthSnoc<T>(n: nat, es: seq<Option<Edit<T>>>, i: nat, k: nat, from: int, e: Edit<T>)
    requires i <= k < |es| && es[k] == Some(e)
    ensures End(es, i, k + 1, from) == e.pos + e.len
    ensures Growth(es, i, k + 1) == Growth(es, i, k) + |e.repl| - e.len
    decreases k - i
  {
    if i < k {
      match es[i]
      case None => EndGrowthSnoc(n, es, i + 1, k, from, e);
      case Some(h) => EndGrowthSnoc(n, es, i + 1, k, h.pos + h.len, e);
    }
  }

  /** Taking in one more item with an edit adds the untouched text before it and its replacement. */
  lemma {:induction false} DoneSnoc<T>(text: seq<T>, es: seq<Option<Edit<T>>>, i: nat, k: nat, from: nat, e: Edit<T>)
    requires i <= k < |es| && es[k] == Some(e) && Fits(|text|, es, i, k + 1, from)
    ensures Fits(|text|, es, i, k, from) && from <= End(es, i, k, from) <= e.pos
    ensures 0 <= e.len && e.pos + e.len <= |text|
    ensures Done(text, es, i, k + 1, from) == Done(text, es, i, k, from) + text[End(es, i, k, from)..e.pos] + e.repl
    decreases k - i
  {
    if i == k {
      assert [] + text[from..e.pos] + e.repl == text[from..e.pos] + e.repl + [];
    } else if es[i].None? {
      DoneSnoc(text, es, i + 1, k, from, e);
    } else {
      var h := es[i].value;
      var f := h.pos + h.len;
      DoneSnoc(text, es, i + 1, k, f, e);
      FitsBounds(|text|, es, i + 1, k, f);
      Regroup4(text[from..h.pos] + h.repl, Done(text, es, i + 1, k, f), text[End(es, i + 1, k, f)..e.pos], e.repl);
    }
  }

  /** Replacing a range of the untouched text behind an edited part `d` that has grown by `g`. */
  lemma SpliceTail<T>(cur: seq<T>, next: seq<T>, d: seq<T>, text: seq<T>, end: nat, g: int, e: Edit<T>)
    requires end <= e.pos && 0 <= e.len && e.pos + e.len <= |text|
    requires cur == d + text[end..] && |d| == end + g
    requires next == d + text[end..e.pos] + e.repl + text[e.pos + e.len..]
    ensures 0 <= e.pos + g && e.pos + g + e.len <= |cur|
    ensures Splice(cur, e.pos + g, e.len, e.repl) == next
  {
    var y := text[end..];
    var q := e.pos - end;
    SpliceAfter(d, y, q, e.len, e.repl);
    assert y[..q] == text[end..e.pos];
    assert y[q + e.len..] == text[e.pos + e.len..];
    Regroup4(d, text[end..e.pos], e.repl, text[e.pos + e.len..]);
  }

  /** The text with the edits up to item `k`, and up to item `k + 1` when item `k` has edit `e`, cut at the last edit. */
  lemma ApplySnoc<T>(text: seq<T>, es: seq<Option<Edit<T>>>, k: nat, e: Edit<T>)
    requires k < |es| && es[k] == Some(e) && Fits(|text|, es, 0, k + 1, 0)
    ensures Fits(|text|, es, 0, k, 0) && 0 <= End(es, 0, k, 0) <= e.pos && 0 <= e.len && e.pos + e.len <= |text|
    ensures Apply(text, es, 0, k, 0) == Done(text, es, 0, k, 0) + text[End(es, 0, k, 0)..]
    ensures |Done(text, es, 0, k, 0)| == End(es, 0, k, 0) + Growth(es, 0, k)
    ensures Apply(text, es, 0, k + 1, 0)
            == Done(text, es, 0, k, 0) + text[End(es, 0, k, 0)..e.pos] + e.repl + text[e.pos + e.len..]
  {
    ApplyBefore(text, es, k, e);
    ApplyThrough(text, es, k, e);
  }

  /** The text with the edits of the items before item `k`, cut at the last edit. */
  lemma ApplyBefore<T>(text: seq<T>, es: seq<Option<Edit<T>>>, k: nat, e: Edit<T>)
    requires k < |es| && es[k] == Some(e) && Fits(|text|, es, 0, k + 1, 0)
    ensures Fits(|text|, es, 0, k, 0) && 0 <= End(es, 0, k, 0) <= e.pos && 0 <= e.len && e.pos + e.len <= |text|
    ensures Apply(text, es, 0, k, 0) == Done(text, es, 0, k, 0) + text[End(es, 0, k, 0)..]
    ensures |Done(text, es, 0, k, 0)| == End(es, 0, k, 0) + Growth(es, 0, k)
  {
    DoneSnoc(text, es, 0, k, 0, e);
    ApplyDone(text, es, 0, k, 0);
    DoneLength(text, es, 0, k, 0);
  }

  /** The text with the edits up to item `k` included, cut at the last edit. */
  lemma ApplyThrough<T>(text: seq<T>, es: seq<Option<Edit<T>>>, k: nat, e: Edit<T>)
    requires k < |es| && es[k] == Some(e) && Fits(|text|, es, 0, k + 1, 0)
    ensures Fits(|text|, es, 0, k, 0) && 0 <= End(es, 0, k, 0) <= e.pos && 0 <= e.len && e.pos + e.len <= |text|
    ensures Apply(text, es, 0, k + 1, 0)
            == Done(text, es, 0, k, 0) + text[End(es, 0, k, 0)..e.pos] + e.repl + text[e.pos + e.len..]
  {
    DoneSnoc(text, es, 0, k, 0, e);
    EndGrowthSnoc(|text|, es, 0, k, 0, e);
    ApplyDone(text, es, 0, k + 1, 0);
  }

  /**
   * Applying the edit `e` of item `k` to the text with the edits of the
   * items before it applied, at its position moved by their growth: what a
   * loop from the first item to the last does when the editor keeps
   * positions current.
   */
  lemma SpliceBehind<T>(text: seq<T>, es: seq<Option<Edit<T>>>, k: nat, e: Edit<T>)
    requires k < |es| && es[k] == Some(e) && Fits(|text|, es, 0, k + 1, 0)
    ensures Fits(|text|, es, 0, k, 0) && End(es, 0, k, 0) <= e.pos && 0 <= e.len
    ensures 0 <= e.pos + Growth(es, 0, k) && e.pos + Growth(es, 0, k) + e.len <= |Apply(text, es, 0, k, 0)|
    ensures Splice(Apply(text, es, 0, k, 0), e.pos + Growth(es, 0, k), e.len, e.repl) == Apply(text, es, 0, k + 1, 0)
  {
    ApplySnoc(text, es, k, e);
    SpliceTail(Apply(text, es, 0, k, 0), Apply(text, es, 0, k + 1, 0), Done(text, es, 0, k, 0), text, End(es, 0, k, 0), Growth(es, 0, k), e);
  }

  /** Past the last edit, the edited text is the original text moved by the growth. */
  lemma ApplyTail<T>(text: seq<T>, es: seq<Option<Edit<T>>>, j: nat)
    requires j <= |es| && Fits(|text|, es, 0, j, 0)
    ensures 0 <= End(es, 0, j, 0) <= |text| && 0 <= End(es, 0, j, 0) + Growth(es, 0, j)
    ensures |Apply(text, es, 0, j, 0)| == |text| + Growth(es, 0, j)
    ensures Apply(text, es, 0, j, 0)[End(es, 0, j, 0) + Growth(es, 0, j)..] == text[End(es, 0, j, 0)..]
  {
    ApplyDone(text, es, 0, j, 0);
    DoneLength(text, es, 0, j, 0);
    FitsBounds(|text|, es, 0, j, 0);
  }

  /** The edits of the first items of a range that fits fit as well. */
  lemma {:induction false} FitsPrefix<T>(n: nat, es: seq<Option<Edit<T>>>, i: nat, k: nat, j: nat, from: nat)
    requires i <= k <= j <= |es| && Fits(n, es, i, j, from)
    ensures Fits(n, es, i, k, from)
    decreases k - i
  {
    FitsBounds(n, es, i, j, from);
    if i < k {
      match es[i]
      case None => FitsPrefix(n, es, i + 1, k, j, from);
      case Some(e) => FitsPrefix(n, es, i + 1, k, j, e.pos + e.len);
    }
  }

  /** The edits of the last items of a range that fits fit from the start of the text. */
  lemma {:induction false} FitsSuffix<T>(n: nat, es: seq<Option<Edit<T>>>, i: nat, k: nat, j: nat, from: nat)
    requires i <= k <= j <= |es| && Fits(n, es, i, j, from)
    ensures Fits(n, es, k, j, 0)
    decreases k - i
  {
    if i < k {
      match es[i]
      case None => FitsSuffix(n, es, i + 1, k, j, from);
      case Some(e) => FitsSuffix(n, es, i + 1, k, j, e.pos + e.len);
    } else {
      FitsEarlier(n, es, i, j, 0, from);
    }
  }
}
