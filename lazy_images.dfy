/**
 * The lazy-image rewrite of `getWikiContent` (src/app/actions.ts, lines 58-73): the global
 * replace of `/<img[^>]*data-src="([^"]+)"[^>]*>/g` whose callback edits each matched tag
 * with five first-match replaces.
 *
 * Each regular expression is written out as a search. A `Find…` function returns a match
 * and promises that it is one, by a declarative predicate saying what a match is
 * (`ImgMatchAt`, `AttrSpan`, `ClassSpan`, `TwoSpaces`); a lemma beside it proves that the
 * match is the leftmost one, and another states each edit against those predicates.
 */
module LazyImages {
  import opened Wrappers
  import opened Text
  import opened Substitution

  const ImgOpen := "<img"
  const DataSrcOpen := "data-src=\""
  const SrcOpen := "src=\""
  const ClassOpen := "class=\""
  const LazyWord := "lazyload"
  const DataImageNameOpen := "data-image-name=\""
  const DataImageKeyOpen := "data-image-key=\""
  /** The class text for which the callback drops the attribute altogether. */
  const EmptyClass := "class=\"\""

  // ----- The outer pattern: <img[^>]*data-src="([^"]+)"[^>]*> -----

  /** The part of the pattern after the leading `[^>]*` matches from `a`: `data-src="` at `a`,
      a non-empty value `s[a+10..q]` free of `"`, the quote at `q`, then text free of `>` up
      to the `>` at `c`. The value may hold `>`: `[^"]` does not exclude it. */
  predicate TailMatch(s: string, a: nat, q: nat, c: nat) {
    && StartsWith(s, a, DataSrcOpen)
    && a + 10 < q < |s| && s[q] == '"' && NoneOf(s, a + 10, q, '"')
    && q < c < |s| && s[c] == '>' && NoneOf(s, q + 1, c, '>')
  }

  /** The whole pattern matches `s[p..c+1]`, its leading `[^>]*` ending at `a` and its
      capture being `s[a+10..q]`. */
  predicate ImgMatchAt(s: string, p: nat, a: nat, q: nat, c: nat) {
    && StartsWith(s, p, ImgOpen)
    && p + 4 <= a && NoneOf(s, p + 4, a, '>')
    && TailMatch(s, a, q, c)
  }

  /** Where the tail of the pattern ends when it starts at `a`, if it matches there. */
  function TailEnds(s: string, a: nat): (r: Option<(nat, nat)>)
    ensures r.Some? ==> TailMatch(s, a, r.value.0, r.value.1)
  {
    if !StartsWith(s, a, DataSrcOpen) then None
    else
      var q := IndexOfFrom(s, a + 10, '"');
      if q == a + 10 || q == |s| then None
      else
        var c := IndexOfFrom(s, q + 1, '>');
        if c == |s| then None else Some((q, c))
  }

  /** The quote and the `>` the tail stops at are the only ones possible. */
  lemma TailEndsUnique(s: string, a: nat, q: nat, c: nat)
    requires TailMatch(s, a, q, c)
    ensures TailEnds(s, a) == Some((q, c))
  {
    IndexOfFromUnique(s, a + 10, '"', q);
    IndexOfFromUnique(s, q + 1, '>', c);
  }

  /** The tail of the pattern matches from the given index. */
  function TailStarts(s: string): nat -> bool {
    (a: nat) => TailEnds(s, a).Some?
  }

  /** The three positions that describe one match of the outer pattern. */
  datatype ImgMatch = ImgMatch(attr: nat, valueEnd: nat, close: nat)

  /** The match of the outer pattern at `p`, if any. The leading `[^>]*` is greedy, so of all
      the ways to match, the one whose `data-src="` starts last is taken. */
  function MatchImgAt(s: string, p: nat): (r: Option<ImgMatch>)
    ensures r.Some? ==> ImgMatchAt(s, p, r.value.attr, r.value.valueEnd, r.value.close)
  {
    if !StartsWith(s, p, ImgOpen) then None
    else
      var g := IndexOfFrom(s, p + 4, '>');
      match LastWhere(p + 4, g + 1, TailStarts(s))
      case None => None
      case Some(a) =>
        var qc := TailEnds(s, a).value;
        Some(ImgMatch(a, qc.0, qc.1))
  }

  /** Any way of matching at `p` is found, and its `data-src="` starts no later than that
      of the reported match. */
  lemma MatchImgAtLast(s: string, p: nat, a: nat, q: nat, c: nat)
    requires ImgMatchAt(s, p, a, q, c)
    ensures MatchImgAt(s, p).Some? && a <= MatchImgAt(s, p).value.attr
  {
    var g := IndexOfFrom(s, p + 4, '>');
    assert a <= g;
    TailEndsUnique(s, a, q, c);
    assert TailStarts(s)(a);
  }

  /** The match the search reports at `p` is the one whose `data-src="` starts last: the
      captured value is that of the last non-empty `data-src` before the first `>` of the
      tag; with no way of matching at `p` there is none. */
  lemma MatchImgAtGreatest(s: string, p: nat)
    ensures MatchImgAt(s, p).None? ==> forall a: nat, q: nat, c: nat :: !ImgMatchAt(s, p, a, q, c)
    ensures MatchImgAt(s, p).Some? ==>
      forall a: nat, q: nat, c: nat :: ImgMatchAt(s, p, a, q, c) ==> a <= MatchImgAt(s, p).value.attr
  {
    forall a: nat, q: nat, c: nat | ImgMatchAt(s, p, a, q, c)
      ensures MatchImgAt(s, p).Some? && a <= MatchImgAt(s, p).value.attr
    {
      MatchImgAtLast(s, p, a, q, c);
    }
  }

  /** A match whose `data-src="` starts last is the one reported. */
  lemma MatchImgAtIsLast(s: string, p: nat, a: nat, q: nat, c: nat)
    requires ImgMatchAt(s, p, a, q, c)
    requires forall a': nat, q': nat, c': nat :: ImgMatchAt(s, p, a', q', c') ==> a' <= a
    ensures MatchImgAt(s, p) == Some(ImgMatch(a, q, c))
  {
    MatchImgAtLast(s, p, a, q, c);
    var m := MatchImgAt(s, p).value;
    assert ImgMatchAt(s, p, m.attr, m.valueEnd, m.close);
    assert m.attr == a;
    TailEndsUnique(s, a, q, c);
    TailEndsUnique(s, a, m.valueEnd, m.close);
  }

  /** The match `m` found at `p` lies inside `s` and ends at or after `p`. */
  predicate Fits(s: string, p: nat, m: ImgMatch) {
    p <= m.close < |s| && m.attr + 10 <= m.valueEnd <= |s|
  }

  /** A search for one match starting exactly at a given index, as a regular expression of
      the shape of the outer pattern performs it. */
  type Matcher = f: (string, nat) -> Option<ImgMatch> | forall s: string, p: nat :: f(s, p).Some? ==> Fits(s, p, f(s, p).value)
    witness (s: string, p: nat) => None

  /** The global replace with a callback, resumed at index `i`: at each index the pattern
      `matcher` is tried; a match is handed to `callback` with its matched text and its
      capture, the callback's result is used as it is, and the scan resumes after the match;
      elsewhere one character is copied. */
  function ImgPassFrom(s: string, i: nat, matcher: Matcher, callback: (string, string) -> string): string
    requires i <= |s|
    decreases |s| - i
  {
    if i == |s| then []
    else
      match matcher(s, i)
      case Some(m) => callback(s[i..m.close + 1], s[m.attr + 10..m.valueEnd]) + ImgPassFrom(s, m.close + 1, matcher, callback)
      case None => [s[i]] + ImgPassFrom(s, i + 1, matcher, callback)
  }

  /** The outer pattern `/<img[^>]*data-src="([^"]+)"[^>]*>/` as a search. */
  const ImgPattern: Matcher := MatchImgAt

  /** `content.replace(/<img[^>]*data-src="([^"]+)"[^>]*>/g, (match, dataSrc) => …)`. */
  function ImgPass(s: string): string {
    ImgPassFrom(s, 0, ImgPattern, RewriteTag)
  }

  /** Where the pattern does not match, the scan copies one character. */
  lemma ImgPassCopyStep(s: string, i: nat, matcher: Matcher, callback: (string, string) -> string)
    requires i < |s| && matcher(s, i).None?
    ensures ImgPassFrom(s, i, matcher, callback) == [s[i]] + ImgPassFrom(s, i + 1, matcher, callback)
  {
  }

  /** Text where the pattern matches nowhere is copied unchanged. */
  lemma {:induction false} ImgPassCopies(s: string, i: nat, j: nat, matcher: Matcher, callback: (string, string) -> string)
    requires i <= j <= |s|
    requires forall p: nat :: i <= p < j ==> matcher(s, p).None?
    ensures ImgPassFrom(s, i, matcher, callback) == s[i..j] + ImgPassFrom(s, j, matcher, callback)
    decreases j - i
  {
    if i < j {
      ImgPassCopyStep(s, i, matcher, callback);
      ImgPassCopies(s, i + 1, j, matcher, callback);
      var rest := ImgPassFrom(s, j, matcher, callback);
      assert s[i..j] == [s[i]] + s[i + 1..j];
      ConcatAssoc([s[i]], s[i + 1..j], rest);
    }
  }

  /** Where the pattern matches, the scan emits the callback's result and resumes after
      the match. */
  lemma ImgPassMatchStep(s: string, p: nat, matcher: Matcher, a: nat, q: nat, c: nat, callback: (string, string) -> string)
    requires p < |s| && matcher(s, p) == Some(ImgMatch(a, q, c))
    ensures p <= c < |s| && a + 10 <= q <= |s|
    ensures ImgPassFrom(s, p, matcher, callback) == callback(s[p..c + 1], s[a + 10..q]) + ImgPassFrom(s, c + 1, matcher, callback)
  {
    assert Fits(s, p, ImgMatch(a, q, c));
  }

  /** No tag matches where no `<img` starts. */
  lemma NoImgNoMatch(s: string, p: nat)
    requires !StartsWith(s, p, ImgOpen)
    ensures MatchImgAt(s, p).None?
  {
  }

  /** Content with no `<img` is left exactly as it is. */
  lemma ImgPassWithoutImg(s: string)
    requires forall p: nat :: !StartsWith(s, p, ImgOpen)
    ensures ImgPass(s) == s
  {
    forall p: nat | p < |s| ensures ImgPattern(s, p).None? {
      NoImgNoMatch(s, p);
    }
    ImgPassCopies(s, 0, |s|, ImgPattern, RewriteTag);
  }

  /** A match is replaced by the callback's result for that tag and its own capture: the
      value of the last non-empty `data-src` in it. Scanning resumes after its `>`. */
  lemma ImgPassAtMatch(s: string, p: nat, a: nat, q: nat, c: nat, callback: (string, string) -> string)
    requires ImgMatchAt(s, p, a, q, c)
    requires forall a': nat, q': nat, c': nat :: ImgMatchAt(s, p, a', q', c') ==> a' <= a
    ensures ImgPassFrom(s, p, ImgPattern, callback) == callback(s[p..c + 1], s[a + 10..q]) + ImgPassFrom(s, c + 1, ImgPattern, callback)
  {
    MatchImgAtIsLast(s, p, a, q, c);
    ImgPassAtFound(s, p, a, q, c, callback);
  }

  /** The scan at a match the search reports. */
  lemma ImgPassAtFound(s: string, p: nat, a: nat, q: nat, c: nat, callback: (string, string) -> string)
    requires MatchImgAt(s, p) == Some(ImgMatch(a, q, c))
    ensures ImgPassFrom(s, p, ImgPattern, callback) == callback(s[p..c + 1], s[a + 10..q]) + ImgPassFrom(s, c + 1, ImgPattern, callback)
  {
    assert ImgPattern(s, p) == Some(ImgMatch(a, q, c));
    ImgPassMatchStep(s, p, ImgPattern, a, q, c, callback);
  }

  /** A tag whose every `data-src` is empty is not a match, whatever the other tags of
      the content hold: only the `data-src="` openings between `<img` and the tag's first
      `>` are looked at. */
  lemma EmptyDataSrcNotMatched(s: string, p: nat)
    requires forall a: nat :: p + 4 <= a && NoneOf(s, p + 4, a, '>') && StartsWith(s, a, DataSrcOpen) ==>
      a + 10 < |s| && s[a + 10] == '"'
    ensures MatchImgAt(s, p).None?
  {
  }

  // ----- Attributes: name="[^"]*" -----

  /** `t[k..e]` is `open` (an attribute name with `="`), a value free of `"`, and `"`. */
  predicate AttrSpan(t: string, k: nat, e: nat, open: string) {
    && StartsWith(t, k, open)
    && k + |open| < e <= |t| && t[e - 1] == '"' && NoneOf(t, k + |open|, e - 1, '"')
  }

  /** `t[k..e]` is the leftmost match of the attribute pattern. */
  ghost predicate LeftmostAttr(t: string, k: nat, e: nat, open: string) {
    AttrSpan(t, k, e, open) && forall k': nat, e': nat :: k' < k ==> !AttrSpan(t, k', e', open)
  }

  /** An attribute match starts at the given index. */
  function AttrStarts(t: string, open: string): nat -> bool {
    (k: nat) => StartsWith(t, k, open) && IndexOfFrom(t, k + |open|, '"') < |t|
  }

  /** A match of `open` followed by `[^"]*"`, found left to right. */
  function FindAttr(t: string, open: string): (r: Option<(nat, nat)>)
    ensures r.Some? ==> AttrSpan(t, r.value.0, r.value.1, open)
  {
    var k := FirstWhere(0, |t| + 1, AttrStarts(t, open));
    if k == |t| + 1 then None
    else Some((k, IndexOfFrom(t, k + |open|, '"') + 1))
  }

  /** An attribute match ends at the first quote after its name. */
  lemma AttrSpanEnd(t: string, k: nat, e: nat, open: string)
    requires AttrSpan(t, k, e, open)
    ensures AttrStarts(t, open)(k) && e == IndexOfFrom(t, k + |open|, '"') + 1
  {
    IndexOfFromUnique(t, k + |open|, '"', e - 1);
  }

  /** The match `FindAttr` reports is the leftmost one; it reports none only when there is
      none. */
  lemma FindAttrLeftmost(t: string, open: string)
    ensures FindAttr(t, open).None? ==> forall k: nat, e: nat :: !AttrSpan(t, k, e, open)
    ensures FindAttr(t, open).Some? ==> LeftmostAttr(t, FindAttr(t, open).value.0, FindAttr(t, open).value.1, open)
  {
    var k0 := FirstWhere(0, |t| + 1, AttrStarts(t, open));
    forall k: nat, e: nat | AttrSpan(t, k, e, open) ensures k0 <= k {
      AttrSpanEnd(t, k, e, open);
    }
  }

  /** Any leftmost attribute match is the one `FindAttr` reports. */
  lemma FindAttrAt(t: string, open: string, k: nat, e: nat)
    requires LeftmostAttr(t, k, e, open)
    ensures FindAttr(t, open) == Some((k, e))
  {
    FindAttrLeftmost(t, open);
    var ke := FindAttr(t, open).value;
    assert !(k < ke.0) && !(ke.0 < k);
    AttrSpanEnd(t, k, e, open);
    AttrSpanEnd(t, k, ke.1, open);
  }

  /** `t.replace(/<open>[^"]*"/, '')`. */
  function RemoveFirstAttr(t: string, open: string): (r: string)
    ensures |r| <= |t|
  {
    match FindAttr(t, open)
    case None => t
    case Some(ke) => t[..ke.0] + t[ke.1..]
  }

  /** The leftmost such attribute is deleted and nothing else, surrounding spaces included;
      a tag without one is left alone. */
  lemma RemoveFirstAttrEdits(t: string, open: string)
    ensures (forall k: nat, e: nat :: !AttrSpan(t, k, e, open)) ==> RemoveFirstAttr(t, open) == t
    ensures forall k: nat, e: nat :: LeftmostAttr(t, k, e, open) ==> RemoveFirstAttr(t, open) == t[..k] + t[e..]
  {
    forall k: nat, e: nat | LeftmostAttr(t, k, e, open) ensures RemoveFirstAttr(t, open) == t[..k] + t[e..] {
      FindAttrAt(t, open, k, e);
    }
  }

  /** `t.replace(/src="[^"]*"/, `src="${v}"`)`: the template is expanded against the match. */
  function ReplaceFirstSrc(t: string, v: string): string {
    match FindAttr(t, SrcOpen)
    case None => t
    case Some(ke) =>
      var k, e := ke.0, ke.1;
      t[..k] + Substitute(SrcOpen + v + "\"", MatchContext(t[k..e], t[..k], t[e..], [])) + t[e..]
  }

  /** A value free of `$` leaves the template free of `$`. */
  lemma SrcTemplateLiteral(v: string)
    requires '$' !in v
    ensures '$' !in SrcOpen + v + "\""
  {
    var tmpl := SrcOpen + v + "\"";
    forall j | 0 <= j < |tmpl| ensures tmpl[j] != '$' {
      if 5 <= j < 5 + |v| { assert tmpl[j] == v[j - 5]; }
    }
  }

  /** For a value free of `$`, the leftmost `src="…"` becomes `src="<v>"`. */
  lemma ReplaceFirstSrcAt(t: string, v: string, k: nat, e: nat)
    requires LeftmostAttr(t, k, e, SrcOpen) && '$' !in v
    ensures ReplaceFirstSrc(t, v) == t[..k] + (SrcOpen + v + "\"") + t[e..]
  {
    FindAttrAt(t, SrcOpen, k, e);
    SrcTemplateLiteral(v);
  }

  /** The leftmost `src="…"`, which may be the tail of `data-src="…"`, is replaced by the
      template `src="<v>"` expanded for that match; a tag without one is left alone. */
  lemma ReplaceFirstSrcEdits(t: string, v: string)
    ensures (forall k: nat, e: nat :: !AttrSpan(t, k, e, SrcOpen)) ==> ReplaceFirstSrc(t, v) == t
    ensures forall k: nat, e: nat :: LeftmostAttr(t, k, e, SrcOpen) ==>
      ReplaceFirstSrc(t, v) == t[..k] + Substitute(SrcOpen + v + "\"", MatchContext(t[k..e], t[..k], t[e..], [])) + t[e..]
  {
    FindAttrLeftmost(t, SrcOpen);
    forall k: nat, e: nat | LeftmostAttr(t, k, e, SrcOpen)
      ensures ReplaceFirstSrc(t, v) == t[..k] + Substitute(SrcOpen + v + "\"", MatchContext(t[k..e], t[..k], t[e..], [])) + t[e..]
    {
      FindAttrAt(t, SrcOpen, k, e);
    }
  }

  /** `data-src="…"` at `a` holds a match of `src="…"` five characters in. */
  lemma SrcInsideDataSrc(t: string, a: nat, e: nat)
    requires AttrSpan(t, a, e, DataSrcOpen)
    ensures AttrSpan(t, a + 5, e, SrcOpen) && t[a + 5..e] == SrcOpen + t[a + 10..e - 1] + "\""
  {
    assert t[a + 5..a + 10] == t[a..a + 10][5..];
  }

  /** Putting back a slice where it was taken from gives the text again. */
  lemma Reassemble(t: string, k: nat, e: nat, w: string)
    requires k <= e <= |t| && t[k..e] == w
    ensures t[..k] + w + t[e..] == t
  {
  }

  /** When `data-src` comes before any `src`, the leftmost `src="…"` is the tail of
      `data-src="…"`: whatever value the callback was given, the edit happens inside that
      span, so the captured value lands in `data-src` and the tag's real `src`, before or
      after it, keeps its old value. */
  lemma DataSrcReceivesValue(t: string, a: nat, e: nat, v: string)
    requires AttrSpan(t, a, e, DataSrcOpen)
    requires forall k: nat, e': nat :: k < a + 5 ==> !AttrSpan(t, k, e', SrcOpen)
    ensures ReplaceFirstSrc(t, v) ==
      t[..a + 5] + Substitute(SrcOpen + v + "\"", MatchContext(t[a + 5..e], t[..a + 5], t[e..], [])) + t[e..]
    ensures '$' !in v ==> ReplaceFirstSrc(t, v) == t[..a + 5] + (SrcOpen + v + "\"") + t[e..]
  {
    SrcInsideDataSrc(t, a, e);
    assert LeftmostAttr(t, a + 5, e, SrcOpen);
    ReplaceFirstSrcEdits(t, v);
    if '$' !in v {
      ReplaceFirstSrcAt(t, v, a + 5, e);
    }
  }

  /** In particular, when the value given is the first `data-src`'s own, as it is for a tag
      with a single `data-src`, the edit writes it back where it was and the tag is
      unchanged. */
  lemma DataSrcShadowsSrc(t: string, a: nat, e: nat)
    requires AttrSpan(t, a, e, DataSrcOpen)
    requires forall k: nat, e': nat :: k < a + 5 ==> !AttrSpan(t, k, e', SrcOpen)
    ensures ReplaceFirstSrc(t, t[a + 10..e - 1]) == t || '$' in t[a + 10..e - 1]
  {
    var v := t[a + 10..e - 1];
    if '$' !in v {
      SrcInsideDataSrc(t, a, e);
      DataSrcReceivesValue(t, a, e, v);
      Reassemble(t, a + 5, e, SrcOpen + v + "\"");
    }
  }

  // ----- Case-insensitive searches -----

  /** `w` occurs in `x` at `m`, ignoring ASCII case, and at no earlier index. */
  ghost predicate LeftmostCi(x: string, m: nat, w: string) {
    CiStartsWith(x, m, w) && forall m': nat :: m' < m ==> !CiStartsWith(x, m', w)
  }

  /** `w` occurs in `x` at the given index, ignoring ASCII case. */
  function CiAt(x: string, w: string): nat -> bool {
    (m: nat) => CiStartsWith(x, m, w)
  }

  /** An occurrence of `w` ignoring ASCII case inside `x[lo..hi]`, found left to right. */
  function FirstCi(x: string, lo: nat, hi: nat, w: string): (r: Option<nat>)
    ensures r.Some? ==> lo <= r.value && r.value + |w| <= hi && CiStartsWith(x, r.value, w)
  {
    if hi < lo + |w| then None
    else
      var m := FirstWhere(lo, hi - |w| + 1, CiAt(x, w));
      if m == hi - |w| + 1 then None else Some(m)
  }

  /** The occurrence `FirstCi` reports is the leftmost in range; it reports none only when
      there is none. */
  lemma FirstCiLeftmost(x: string, lo: nat, hi: nat, w: string)
    ensures FirstCi(x, lo, hi, w).Some? ==> forall m: nat :: lo <= m < FirstCi(x, lo, hi, w).value ==> !CiStartsWith(x, m, w)
    ensures FirstCi(x, lo, hi, w).None? ==> forall m: nat :: lo <= m && m + |w| <= hi ==> !CiStartsWith(x, m, w)
  {
    if lo + |w| <= hi {
      var P := CiAt(x, w);
      var m := FirstWhere(lo, hi - |w| + 1, P);
      forall m': nat | lo <= m' < m ensures !CiStartsWith(x, m', w) { assert !P(m'); }
    }
  }

  /** `x.replace(/<w>/i, '')`. */
  function RemoveFirstCi(x: string, w: string): (r: string)
    ensures |r| <= |x|
  {
    match FirstCi(x, 0, |x|, w)
    case None => x
    case Some(m) => x[..m] + x[m + |w|..]
  }

  /** The leftmost occurrence of `w`, in any ASCII case, is cut out. */
  lemma RemoveFirstCiAt(x: string, w: string, m: nat)
    requires LeftmostCi(x, m, w)
    ensures RemoveFirstCi(x, w) == x[..m] + x[m + |w|..]
  {
    FirstCiLeftmost(x, 0, |x|, w);
    var m0 := FirstCi(x, 0, |x|, w).value;
    assert !(m < m0) && !(m0 < m);
  }

  /** The leftmost occurrence is cut out; text without one is left alone. */
  lemma RemoveFirstCiEdits(x: string, w: string)
    ensures (forall m: nat :: !CiStartsWith(x, m, w)) ==> RemoveFirstCi(x, w) == x
    ensures forall m: nat :: LeftmostCi(x, m, w) ==> RemoveFirstCi(x, w) == x[..m] + x[m + |w|..]
  {
    FirstCiLeftmost(x, 0, |x|, w);
    forall m: nat | LeftmostCi(x, m, w) ensures RemoveFirstCi(x, w) == x[..m] + x[m + |w|..] {
      RemoveFirstCiAt(x, w, m);
    }
  }

  // ----- White-space runs: \s{2,} -----

  /** Two white-space characters start at `k`. */
  predicate TwoSpaces(x: string, k: nat) {
    k + 1 < |x| && IsSpace(x[k]) && IsSpace(x[k + 1])
  }

  /** The leftmost run of two or more white-space characters starts at `k`. */
  ghost predicate LeftmostRun(x: string, k: nat) {
    TwoSpaces(x, k) && forall k': nat :: k' < k ==> !TwoSpaces(x, k')
  }

  /** Two white-space characters start at the given index. */
  function RunAt(x: string): nat -> bool {
    (k: nat) => TwoSpaces(x, k)
  }

  /** Where a run of two or more white-space characters starts, found left to right. */
  function FirstRun(x: string): (r: Option<nat>)
    ensures r.Some? ==> TwoSpaces(x, r.value)
  {
    var k := FirstWhere(0, |x|, RunAt(x));
    if k == |x| then None else Some(k)
  }

  /** The run `FirstRun` reports is the leftmost one; it reports none only when there is
      none. */
  lemma FirstRunLeftmost(x: string)
    ensures FirstRun(x).Some? ==> LeftmostRun(x, FirstRun(x).value)
    ensures FirstRun(x).None? ==> forall k: nat :: !TwoSpaces(x, k)
  {
    var P := RunAt(x);
    var k0 := FirstWhere(0, |x|, P);
    forall k: nat | k < k0 ensures !TwoSpaces(x, k) { assert !P(k); }
  }

  /** `x.replace(/\s{2,}/, ' ')`. */
  function CollapseFirstRun(x: string): (r: string)
    ensures |r| <= |x|
  {
    match FirstRun(x)
    case None => x
    case Some(k) => x[..k] + " " + x[SpaceRunEnd(x, k)..]
  }

  /** The leftmost run of two or more white-space characters, taken whole, becomes one
      space. */
  lemma CollapseFirstRunAt(x: string, k: nat, e: nat)
    requires LeftmostRun(x, k) && e == SpaceRunEnd(x, k)
    ensures CollapseFirstRun(x) == x[..k] + " " + x[e..]
  {
    FirstRunLeftmost(x);
    var k0 := FirstRun(x).value;
    assert !(k < k0) && !(k0 < k);
  }

  /** The leftmost run is collapsed to one space; text without one is left alone. */
  lemma CollapseFirstRunEdits(x: string)
    ensures (forall k: nat :: !TwoSpaces(x, k)) ==> CollapseFirstRun(x) == x
    ensures forall k: nat :: LeftmostRun(x, k) ==> CollapseFirstRun(x) == x[..k] + " " + x[SpaceRunEnd(x, k)..]
  {
    FirstRunLeftmost(x);
    forall k: nat | LeftmostRun(x, k) ensures CollapseFirstRun(x) == x[..k] + " " + x[SpaceRunEnd(x, k)..] {
      CollapseFirstRunAt(x, k, SpaceRunEnd(x, k));
    }
  }

  // ----- The class fix: /\s*class="[^"]*lazyload[^"]*"/i -----

  /** `lazyload`, in any ASCII case, occurs inside `t[lo..hi]`. */
  predicate HasLazy(t: string, lo: nat, hi: nat) {
    exists m: nat :: lo <= m && m + |LazyWord| <= hi && CiStartsWith(t, m, LazyWord)
  }

  /** `t[st..q+1]` matches the class pattern: white space `t[st..b]`, `class="` at `b` in any
      ASCII case, a value `t[b+7..q]` free of `"` that holds `lazyload`, and the closing `"`
      at `q`. (`\s*` can only stop at the end of the white-space run, since `c` is no space.) */
  predicate ClassSpan(t: string, st: nat, b: nat, q: nat) {
    && st <= b && AllSpace(t, st, b)
    && CiStartsWith(t, b, ClassOpen)
    && b + 7 <= q < |t| && t[q] == '"' && NoneOf(t, b + 7, q, '"')
    && HasLazy(t, b + 7, q)
  }

  /** `t[st..q+1]` is the leftmost match of the class pattern. */
  ghost predicate LeftmostClass(t: string, st: nat, b: nat, q: nat) {
    ClassSpan(t, st, b, q) && forall st': nat, b': nat, q': nat :: st' < st ==> !ClassSpan(t, st', b', q')
  }

  /** Where the closing quote of the class pattern is when its `class="` starts at `b`. */
  function ClassTail(t: string, b: nat): (r: Option<nat>)
    ensures r.Some? ==> CiStartsWith(t, b, ClassOpen) && b + 7 <= r.value < |t| && t[r.value] == '"'
                        && NoneOf(t, b + 7, r.value, '"') && HasLazy(t, b + 7, r.value)
  {
    if !CiStartsWith(t, b, ClassOpen) then None
    else
      var q := IndexOfFrom(t, b + 7, '"');
      if q == |t| then None
      else
        match FirstCi(t, b + 7, q, LazyWord)
        case Some(m) => Some(q)
        case None => None
  }

  /** After `class="`, the first quote is the only one that can close the match, and it
      does so exactly when the value holds `lazyload`. */
  lemma ClassTailUnique(t: string, b: nat, q: nat)
    requires CiStartsWith(t, b, ClassOpen) && b + 7 <= q < |t| && t[q] == '"'
    requires NoneOf(t, b + 7, q, '"') && HasLazy(t, b + 7, q)
    ensures ClassTail(t, b) == Some(q)
  {
    IndexOfFromUnique(t, b + 7, '"', q);
    FirstCiLeftmost(t, b + 7, q, LazyWord);
  }

  /** A class match is fixed by where it starts: its `class="` begins where the white space
      ends, and its quote is the one `ClassTail` finds. */
  lemma ClassSpanAt(t: string, st: nat, b: nat, q: nat)
    requires ClassSpan(t, st, b, q)
    ensures b == SpaceRunEnd(t, st) && ClassTail(t, b) == Some(q)
  {
    assert !IsSpace(t[b]) by {
      assert CiCharEq(t[b], ClassOpen[0]);
    }
    SpaceRunEndUnique(t, st, b);
    ClassTailUnique(t, b, q);
  }

  /** A class match starts at the given index. */
  function ClassStarts(t: string): nat -> bool {
    (st: nat) => st <= |t| && ClassTail(t, SpaceRunEnd(t, st)).Some?
  }

  /** A match of the class pattern, found left to right, as its start, the start of its
      `class="` and its closing quote. */
  function FindClass(t: string): (r: Option<(nat, nat, nat)>)
    ensures r.Some? ==> ClassSpan(t, r.value.0, r.value.1, r.value.2)
  {
    var st := FirstWhere(0, |t| + 1, ClassStarts(t));
    if st == |t| + 1 then None
    else
      var b := SpaceRunEnd(t, st);
      var q := ClassTail(t, b).value;
      assert ClassSpan(t, st, b, q);
      Some((st, b, q))
  }

  /** The match `FindClass` reports is the leftmost one; it reports none only when there is
      none. */
  lemma FindClassLeftmost(t: string)
    ensures FindClass(t).None? ==> forall st: nat, b: nat, q: nat :: !ClassSpan(t, st, b, q)
    ensures FindClass(t).Some? ==> LeftmostClass(t, FindClass(t).value.0, FindClass(t).value.1, FindClass(t).value.2)
  {
    var P := ClassStarts(t);
    var st0 := FirstWhere(0, |t| + 1, P);
    forall st: nat, b: nat, q: nat | ClassSpan(t, st, b, q) ensures st0 <= st {
      ClassSpanAt(t, st, b, q);
      assert P(st);
    }
  }

  /** Any leftmost class match is the one `FindClass` reports. */
  lemma FindClassAt(t: string, st: nat, b: nat, q: nat)
    requires LeftmostClass(t, st, b, q)
    ensures FindClass(t) == Some((st, b, q))
  {
    FindClassLeftmost(t);
    var m := FindClass(t).value;
    assert !(st < m.0) && !(m.0 < st);
    ClassSpanAt(t, st, b, q);
    ClassSpanAt(t, m.0, m.1, m.2);
  }

  /** `t.replace(/\s*class="[^"]*lazyload[^"]*"/i, callback)`. */
  function ReplaceFirstClass(t: string, callback: string -> string): string {
    match FindClass(t)
    case None => t
    case Some(m) => t[..m.0] + callback(t[m.0..m.2 + 1]) + t[m.2 + 1..]
  }

  /** The leftmost class match, with its leading white space, is replaced by what `callback`
      returns for it, and the rest of the tag is kept; a tag without one is left alone. */
  lemma ReplaceFirstClassEdits(t: string, callback: string -> string)
    ensures (forall st: nat, b: nat, q: nat :: !ClassSpan(t, st, b, q)) ==> ReplaceFirstClass(t, callback) == t
    ensures forall st: nat, b: nat, q: nat :: LeftmostClass(t, st, b, q) ==>
      ReplaceFirstClass(t, callback) == t[..st] + callback(t[st..q + 1]) + t[q + 1..]
  {
    forall st: nat, b: nat, q: nat | LeftmostClass(t, st, b, q)
      ensures ReplaceFirstClass(t, callback) == t[..st] + callback(t[st..q + 1]) + t[q + 1..]
    {
      ReplaceFirstClassAt(t, callback, st, b, q);
    }
  }

  /** The replacement at a given leftmost class match. */
  lemma ReplaceFirstClassAt(t: string, callback: string -> string, st: nat, b: nat, q: nat)
    requires LeftmostClass(t, st, b, q)
    ensures ReplaceFirstClass(t, callback) == t[..st] + callback(t[st..q + 1]) + t[q + 1..]
  {
    FindClassAt(t, st, b, q);
    var m := FindClass(t).value;
    assert m.0 == st && m.2 == q;
  }

  /** The text the class callback builds from the matched `classMatch`: its first `lazyload`
      removed, its first run of white space collapsed, then trimmed. */
  function NewClassText(classMatch: string): (n: string)
    ensures |n| <= |classMatch|
  {
    Trim(CollapseFirstRun(RemoveFirstCi(classMatch, LazyWord)))
  }

  /** What the class callback returns: nothing when the new text is exactly `class=""`,
      otherwise ` class="` + new text + `"`, so that the old `class="…"` ends up nested
      inside the new attribute. */
  function ClassReplacement(classMatch: string): (r: string)
    ensures r == [] <==> NewClassText(classMatch) == EmptyClass
    ensures r != [] ==> r == " class=\"" + NewClassText(classMatch) + "\""
  {
    ReplacementFor(NewClassText(classMatch))
  }

  /** The callback's choice once the new class text `n` is known. */
  function ReplacementFor(n: string): (r: string)
    ensures r == [] <==> n == EmptyClass
  {
    if n == EmptyClass then [] else " class=\"" + n + "\""
  }

  // ----- What the class fix does to ` class="<v>"` -----

  /** Two adjacent spaces in `h + y` lie inside `y` when `h` has none and ends in a
      non-space character. */
  lemma TwoSpacesShift(h: string, y: string, k: nat)
    requires h != [] && !IsSpace(h[|h| - 1])
    requires forall k: nat :: !TwoSpaces(h, k)
    ensures TwoSpaces(h + y, k) <==> k >= |h| && TwoSpaces(y, k - |h|)
  {
    var x := h + y;
    if k + 1 < |h| {
      assert x[k] == h[k] && x[k + 1] == h[k + 1];
      assert !TwoSpaces(h, k);
    } else if k + 1 == |h| {
      assert x[k] == h[k];
    } else if k + 1 < |x| {
      assert x[k] == y[k - |h|] && x[k + 1] == y[k + 1 - |h|];
    }
  }

  /** A run collapse never touches a head that holds no two adjacent spaces and ends in a
      non-space character. */
  lemma CollapseKeepsHead(h: string, y: string)
    requires h != [] && !IsSpace(h[|h| - 1])
    requires forall k: nat :: !TwoSpaces(h, k)
    ensures CollapseFirstRun(h + y) == h + CollapseFirstRun(y)
  {
    var x := h + y;
    forall k: nat ensures TwoSpaces(x, k) <==> k >= |h| && TwoSpaces(y, k - |h|) {
      TwoSpacesShift(h, y, k);
    }
    FirstRunLeftmost(y);
    match FirstRun(y)
    case Some(k0) =>
      assert LeftmostRun(x, |h| + k0);
      CollapseShifted(h, y, k0);
    case None =>
      CollapseFirstRunEdits(x);
  }

  /** The collapse of `h + y` when `y`'s leftmost run starts at `k0`. */
  lemma CollapseShifted(h: string, y: string, k0: nat)
    requires LeftmostRun(y, k0) && LeftmostRun(h + y, |h| + k0)
    ensures CollapseFirstRun(h + y) == h + CollapseFirstRun(y)
  {
    var e := SpaceRunEnd(y, k0);
    CollapseShiftedRun(h, y, k0, e);
    CollapseFirstRunAt(y, k0, e);
  }

  /** The run of `h + y` that starts at `|h| + k0` ends where `y`'s run ends, shifted. */
  lemma CollapseShiftedRun(h: string, y: string, k0: nat, e: nat)
    requires LeftmostRun(h + y, |h| + k0) && k0 <= |y| && e == SpaceRunEnd(y, k0)
    ensures k0 <= e <= |y| && CollapseFirstRun(h + y) == h + (y[..k0] + " " + y[e..])
  {
    SpaceRunEndShift(h, y, k0);
    CollapseFirstRunAt(h + y, |h| + k0, |h| + e);
    SpliceShift(h, y, k0, e, " ");
  }

  /** Replacing `y[k..e]` inside `h + y` is replacing it inside `y`. */
  lemma SpliceShift(h: string, y: string, k: nat, e: nat, w: string)
    requires k <= e <= |y|
    ensures (h + y)[..|h| + k] + w + (h + y)[|h| + e..] == h + (y[..k] + w + y[e..])
  {
    assert (h + y)[..|h| + k] == h + y[..k];
    assert (h + y)[|h| + e..] == y[e..];
  }

  /** The end of a white-space run moves with the text. */
  lemma SpaceRunEndShift(h: string, y: string, k0: nat)
    requires k0 <= |y|
    ensures SpaceRunEnd(h + y, |h| + k0) == |h| + SpaceRunEnd(y, k0)
  {
    var x := h + y;
    var e := SpaceRunEnd(y, k0);
    assert AllSpace(x, |h| + k0, |h| + e) by {
      forall m | |h| + k0 <= m < |h| + e ensures IsSpace(x[m]) { assert x[m] == y[m - |h|]; }
    }
    if e < |y| { assert x[|h| + e] == y[e]; }
    SpaceRunEndUnique(x, |h| + k0, |h| + e);
  }

  /** Collapsing a run keeps a last character that is no space. */
  lemma CollapseKeepsLast(y: string)
    requires y != [] && !IsSpace(y[|y| - 1])
    ensures var r := CollapseFirstRun(y); r != [] && r[|r| - 1] == y[|y| - 1]
  {
    match FirstRun(y)
    case Some(k0) =>
      var e := SpaceRunEnd(y, k0);
      assert e < |y|;
    case None =>
  }

  /** In ` class="<v>"` the first `lazyload` is the first one in `v`: none overlaps ` class="`. */
  lemma LazyInValue(v: string, j: nat)
    requires '"' !in v && LeftmostCi(v, j, LazyWord)
    ensures RemoveFirstCi(" class=\"" + v + "\"", LazyWord) == " class=\"" + (v[..j] + v[j + 8..] + "\"")
  {
    var cm := " class=\"" + v + "\"";
    LazyShifted(v, j);
    RemoveFirstCiAt(cm, LazyWord, 8 + j);
    assert cm[..8 + j] == " class=\"" + v[..j];
    assert cm[16 + j..] == v[j + 8..] + "\"";
  }

  /** The leftmost `lazyload` in ` class="<v>"` is that of `v`, eight characters further. */
  lemma LazyShifted(v: string, j: nat)
    requires '"' !in v && LeftmostCi(v, j, LazyWord)
    ensures LeftmostCi(" class=\"" + v + "\"", 8 + j, LazyWord)
  {
    var cm := " class=\"" + v + "\"";
    var w := LazyWord;
    assert forall k :: 0 <= k < |v| ==> cm[8 + k] == v[k];
    assert CiStartsWith(cm, 8 + j, w);
    forall m': nat | m' < 8 + j ensures !CiStartsWith(cm, m', w) {
      if m' < 8 {
        if m' == 2 { assert !CiCharEq(cm[4], w[2]); } else { assert !CiCharEq(cm[m'], w[0]); }
      } else if m' + 8 <= 8 + |v| {
        assert !CiStartsWith(v, m' - 8, w);
      }
    }
  }

  /** Collapsing a run inside ` class="<y>` leaves the head alone and keeps the last character. */
  lemma CollapseUnderHead(y: string)
    requires y != [] && !IsSpace(y[|y| - 1])
    ensures CollapseFirstRun(" class=\"" + y) == " class=\"" + CollapseFirstRun(y)
    ensures var r := CollapseFirstRun(y); r != [] && !IsSpace(r[|r| - 1])
  {
    var h := " class=\"";
    assert forall k: nat :: !TwoSpaces(h, k);
    CollapseKeepsHead(h, y);
    CollapseKeepsLast(y);
  }

  /** Trimming ` class="<rest>` drops only the leading space when `rest` ends in a non-space. */
  lemma TrimUnderHead(rest: string)
    requires rest != [] && !IsSpace(rest[|rest| - 1])
    ensures Trim(" class=\"" + rest) == ClassOpen + rest
  {
    var c := " class=\"" + rest;
    TrimExact(c, 1, |c|);
    assert c[1..] == ClassOpen + rest;
  }

  /** The class callback's new text for ` class="<v>"`, whose value `v` holds `lazyload`
      first at `j`: `class="` followed by the rest of the old text with that `lazyload`
      removed and its first white-space run collapsed. */
  lemma NewClassTextOf(v: string, j: nat)
    requires '"' !in v && LeftmostCi(v, j, LazyWord)
    ensures NewClassText(" class=\"" + v + "\"") == ClassOpen + CollapseFirstRun(v[..j] + v[j + 8..] + "\"")
  {
    var y := v[..j] + v[j + 8..] + "\"";
    LazyInValue(v, j);
    CollapseUnderHead(y);
    TrimUnderHead(CollapseFirstRun(y));
  }

  /** The class fix nests the old attribute inside the new one: unless what is left of
      ` class="<v>"` is the bare closing quote, the callback returns ` class="class="…""`. */
  lemma ClassFixNests(v: string, j: nat)
    requires '"' !in v && LeftmostCi(v, j, LazyWord)
    ensures var rest := CollapseFirstRun(v[..j] + v[j + 8..] + "\"");
            && (ClassReplacement(" class=\"" + v + "\"") == [] <==> rest == "\"")
            && (rest != "\"" ==> ClassReplacement(" class=\"" + v + "\"") == " class=\"" + ClassOpen + rest + "\"")
  {
    var rest := CollapseFirstRun(v[..j] + v[j + 8..] + "\"");
    NewClassTextOf(v, j);
    ReplacementOfText(rest);
  }

  /** The callback on a new text `class="<rest>`: nothing exactly when `rest` is the bare
      closing quote, otherwise the text wrapped in a second ` class="…"`. */
  lemma ReplacementOfText(rest: string)
    ensures ReplacementFor(ClassOpen + rest) == [] <==> rest == "\""
    ensures rest != "\"" ==> ReplacementFor(ClassOpen + rest) == " class=\"" + ClassOpen + rest + "\""
  {
    EmptyClassOnlyQuote(rest);
  }

  /** The new class text is `class=""` exactly when what follows `class="` is one quote. */
  lemma EmptyClassOnlyQuote(rest: string)
    ensures ClassOpen + rest == EmptyClass <==> rest == "\""
  {
    if ClassOpen + rest == EmptyClass {
      assert rest == (ClassOpen + rest)[7..];
    }
  }

  // ----- The callback -----

  /** The callback for one matched tag `tag` with capture `dataSrc`, the edits applied in
      the source's order to the local `newImgTag`. */
  function RewriteTag(tag: string, dataSrc: string): string {
    var t1 := ReplaceFirstSrc(tag, dataSrc);
    var t2 := ReplaceFirstClass(t1, ClassReplacement);
    var t3 := RemoveFirstAttr(t2, DataSrcOpen);
    var t4 := RemoveFirstAttr(t3, DataImageNameOpen);
    RemoveFirstAttr(t4, DataImageKeyOpen)
  }
}
