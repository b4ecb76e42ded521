/**
 * The last rewrite of `getWikiContent` (src/app/actions.ts, lines 75-77):
 * `content.replace(/(href|src)="\/(?!\/)/g, `$1="${baseUrl}/`)`, which makes root-relative
 * links absolute by putting the origin of the requested URL in front of them.
 *
 * `Absolutise` is the global replace as written: a left-to-right scan that, wherever the
 * pattern matches, emits the expanded replacement string and resumes after the match.
 * `Spliced` is an independent description of the same result: the input, character by
 * character, with the origin inserted before each `/` that opens a root-relative value.
 */
module RelativeLinks {
  import opened Text
  import opened Substitution

  /** The pattern matches at `i` with the alternative `href`: `href="/` is there and the
      negative lookahead `(?!\/)` holds. Case-sensitive, with no word boundary before it. */
  predicate HrefAt(s: string, i: nat) {
    && i + 7 <= |s|
    && s[i] == 'h' && s[i + 1] == 'r' && s[i + 2] == 'e' && s[i + 3] == 'f'
    && s[i + 4] == '=' && s[i + 5] == '"' && s[i + 6] == '/'
    && (i + 7 == |s| || s[i + 7] != '/')
  }

  /** The pattern matches at `i` with the alternative `src`; `data-src="/x"` matches too. */
  predicate SrcAt(s: string, i: nat) {
    && i + 6 <= |s|
    && s[i] == 's' && s[i + 1] == 'r' && s[i + 2] == 'c'
    && s[i + 3] == '=' && s[i + 4] == '"' && s[i + 5] == '/'
    && (i + 6 == |s| || s[i + 6] != '/')
  }

  /** The pattern matches at `i`. */
  predicate LinkAt(s: string, i: nat) {
    HrefAt(s, i) || SrcAt(s, i)
  }

  /** The replacement string of the source, once its template literal is evaluated. */
  function Template(origin: string): string {
    "$1=\"" + origin + "/"
  }

  /** What replaces a match of length `n` found at `i` whose first group is `kw`. */
  function Replacement(s: string, i: nat, n: nat, kw: string, origin: string): string
    requires i + n <= |s|
  {
    Substitute(Template(origin), MatchContext(s[i..i + n], s[..i], s[i + n..], [kw]))
  }

  /** The global replace, resumed at index `i` of `s`. */
  function AbsolutiseFrom(s: string, i: nat, origin: string): string
    requires i <= |s|
    decreases |s| - i
  {
    if i == |s| then []
    else if HrefAt(s, i) then Replacement(s, i, 7, "href", origin) + AbsolutiseFrom(s, i + 7, origin)
    else if SrcAt(s, i) then Replacement(s, i, 6, "src", origin) + AbsolutiseFrom(s, i + 6, origin)
    else [s[i]] + AbsolutiseFrom(s, i + 1, origin)
  }

  /** `content.replace(/(href|src)="\/(?!\/)/g, `$1="${origin}/`)`. */
  function Absolutise(s: string, origin: string): string {
    AbsolutiseFrom(s, 0, origin)
  }

  /** An origin free of `$` is inserted literally: the match `kw="/` becomes `kw="<origin>/`. */
  lemma ReplacementIsLiteral(s: string, i: nat, n: nat, kw: string, origin: string)
    requires i + n <= |s| && '$' !in origin
    ensures Replacement(s, i, n, kw, origin) == kw + "=\"" + origin + "/"
  {
    var rest := "=\"" + origin + "/";
    assert Template(origin) == "$1" + rest;
    var m := MatchContext(s[i..i + n], s[..i], s[i + n..], [kw]);
    FirstGroupReference(rest, m);
    assert '$' !in rest;
    ConcatAssoc(kw, "=\"" + origin, "/");
    ConcatAssoc(kw, "=\"", origin);
  }

  /** The scan over a match `href="/`, for an origin free of `$`. */
  lemma AbsolutiseHrefStep(s: string, i: nat, origin: string)
    requires HrefAt(s, i) && '$' !in origin
    ensures AbsolutiseFrom(s, i, origin) == "href=\"" + origin + "/" + AbsolutiseFrom(s, i + 7, origin)
  {
    ReplacementIsLiteral(s, i, 7, "href", origin);
    assert "href" + "=\"" == "href=\"";
  }

  /** The scan over a match `src="/` that is no `href` match, for an origin free of `$`. */
  lemma AbsolutiseSrcStep(s: string, i: nat, origin: string)
    requires !HrefAt(s, i) && SrcAt(s, i) && '$' !in origin
    ensures AbsolutiseFrom(s, i, origin) == "src=\"" + origin + "/" + AbsolutiseFrom(s, i + 6, origin)
  {
    ReplacementIsLiteral(s, i, 6, "src", origin);
    assert "src" + "=\"" == "src=\"";
  }

  /** Where the pattern does not match, the scan copies one character. */
  lemma AbsolutiseCopyStep(s: string, i: nat, origin: string)
    requires i < |s| && !LinkAt(s, i)
    ensures AbsolutiseFrom(s, i, origin) == [s[i]] + AbsolutiseFrom(s, i + 1, origin)
  {
  }

  // ----- The declarative description -----

  /** The origin goes in front of `s[k]`: `s[k]` is the `/` that ends a match of the pattern. */
  predicate InsertionPoint(s: string, k: nat) {
    (k >= 6 && HrefAt(s, k - 6)) || (k >= 5 && SrcAt(s, k - 5))
  }

  /** `s[i..j]` with `origin` inserted before every insertion point of `s`. */
  function Spliced(s: string, origin: string, i: nat, j: nat): string
    requires i <= j <= |s|
    decreases j - i
  {
    if i == j then []
    else (if InsertionPoint(s, i) then origin else []) + [s[i]] + Spliced(s, origin, i + 1, j)
  }

  lemma {:induction false} SplicedSplit(s: string, origin: string, i: nat, j: nat, m: nat)
    requires i <= j <= m <= |s|
    ensures Spliced(s, origin, i, m) == Spliced(s, origin, i, j) + Spliced(s, origin, j, m)
    decreases j - i
  {
    if i < j {
      SplicedSplit(s, origin, i + 1, j, m);
    }
  }

  lemma {:induction false} SplicedCopies(s: string, origin: string, i: nat, j: nat)
    requires i <= j <= |s|
    requires forall k :: i <= k < j ==> !InsertionPoint(s, k)
    ensures Spliced(s, origin, i, j) == s[i..j]
    decreases j - i
  {
    if i < j {
      SplicedCopies(s, origin, i + 1, j);
      assert s[i..j] == [s[i]] + s[i + 1..j];
    }
  }

  /** Removing every inserted copy of the origin gives back the input: with an empty origin
      nothing at all changes. */
  lemma {:induction false} SplicedEmptyOrigin(s: string, i: nat, j: nat)
    requires i <= j <= |s|
    ensures Spliced(s, "", i, j) == s[i..j]
    decreases j - i
  {
    if i < j {
      SplicedEmptyOrigin(s, i + 1, j);
      assert s[i..j] == [s[i]] + s[i + 1..j];
    }
  }

  /** No match that started before `i` still waits for its origin at or after `i`. */
  predicate NoPending(s: string, i: nat) {
    && (forall p: nat :: p < i <= p + 6 ==> !HrefAt(s, p))
    && (forall p: nat :: p < i <= p + 5 ==> !SrcAt(s, p))
  }

  /** One step of `Spliced`. */
  lemma SplicedStep(s: string, origin: string, k: nat, j: nat)
    requires k < j <= |s|
    ensures Spliced(s, origin, k, j) == (if InsertionPoint(s, k) then origin else []) + [s[k]] + Spliced(s, origin, k + 1, j)
  {
  }

  /** `Spliced` from an insertion point `k`: the origin, the `/` and the rest. */
  lemma SplicedOverPoint(s: string, origin: string, i: nat, k: nat)
    requires i <= k < |s| && InsertionPoint(s, k)
    requires forall m :: i <= m < k ==> !InsertionPoint(s, m)
    ensures Spliced(s, origin, i, |s|) == s[i..k] + origin + [s[k]] + Spliced(s, origin, k + 1, |s|)
  {
    SplicedCopies(s, origin, i, k);
    SplicedSplit(s, origin, i, k, |s|);
    SplicedStep(s, origin, k, |s|);
    ConcatAssoc(s[i..k], origin + [s[k]], Spliced(s, origin, k + 1, |s|));
    ConcatAssoc(s[i..k], origin, [s[k]]);
  }

  /** Over a match `href="/` at `i`, `Spliced` copies `href="` and inserts the origin before
      the `/`. */
  lemma SplicedOverHref(s: string, i: nat, origin: string)
    requires HrefAt(s, i)
    ensures Spliced(s, origin, i, |s|) == s[i..i + 6] + origin + [s[i + 6]] + Spliced(s, origin, i + 7, |s|)
  {
    forall k | i <= k < i + 6 ensures !InsertionPoint(s, k) {
      assert k == i || k == i + 1 || k == i + 2 || k == i + 3 || k == i + 4 || k == i + 5;
    }
    SplicedOverPoint(s, origin, i, i + 6);
  }

  /** A match `href="/` at `i` leaves no match pending after it. */
  lemma NoPendingAfterHref(s: string, i: nat)
    requires HrefAt(s, i)
    ensures NoPending(s, i + 7)
  {
    forall p: nat | p < i + 7 <= p + 6 ensures !HrefAt(s, p) {
      assert p == i + 1 || p == i + 2 || p == i + 3 || p == i + 4 || p == i + 5 || p == i + 6;
    }
    forall p: nat | p < i + 7 <= p + 5 ensures !SrcAt(s, p) {
      assert p == i + 2 || p == i + 3 || p == i + 4 || p == i + 5 || p == i + 6;
    }
  }

  /** Over a match `src="/` at `i` that is no `href` match, likewise. */
  lemma SplicedOverSrc(s: string, i: nat, origin: string)
    requires !HrefAt(s, i) && SrcAt(s, i)
    ensures Spliced(s, origin, i, |s|) == s[i..i + 5] + origin + [s[i + 5]] + Spliced(s, origin, i + 6, |s|)
  {
    forall k | i <= k < i + 5 ensures !InsertionPoint(s, k) {
      assert k == i || k == i + 1 || k == i + 2 || k == i + 3 || k == i + 4;
    }
    SplicedOverPoint(s, origin, i, i + 5);
  }

  /** A match `src="/` at `i` leaves no match pending after it. */
  lemma NoPendingAfterSrc(s: string, i: nat)
    requires SrcAt(s, i)
    ensures NoPending(s, i + 6)
  {
    forall p: nat | p < i + 6 <= p + 6 ensures !HrefAt(s, p) {
      assert p == i || p == i + 1 || p == i + 2 || p == i + 3 || p == i + 4 || p == i + 5;
    }
    forall p: nat | p < i + 6 <= p + 5 ensures !SrcAt(s, p) {
      assert p == i + 1 || p == i + 2 || p == i + 3 || p == i + 4 || p == i + 5;
    }
  }

  /** The scan over a match `href="/`, stated with the matched text itself. */
  lemma AbsolutiseOverHref(s: string, i: nat, origin: string)
    requires HrefAt(s, i) && '$' !in origin
    ensures AbsolutiseFrom(s, i, origin) == s[i..i + 6] + origin + [s[i + 6]] + AbsolutiseFrom(s, i + 7, origin)
  {
    AbsolutiseHrefStep(s, i, origin);
    assert s[i..i + 6] == "href=\"";
    assert [s[i + 6]] == "/";
  }

  /** The scan over a match `src="/` that is no `href` match, stated with the matched text. */
  lemma AbsolutiseOverSrc(s: string, i: nat, origin: string)
    requires !HrefAt(s, i) && SrcAt(s, i) && '$' !in origin
    ensures AbsolutiseFrom(s, i, origin) == s[i..i + 5] + origin + [s[i + 5]] + AbsolutiseFrom(s, i + 6, origin)
  {
    AbsolutiseSrcStep(s, i, origin);
    assert s[i..i + 5] == "src=\"";
    assert [s[i + 5]] == "/";
  }

  /** Past a position where nothing matches and nothing was pending, nothing is pending. */
  lemma NoPendingStep(s: string, i: nat)
    requires i < |s| && NoPending(s, i) && !LinkAt(s, i)
    ensures !InsertionPoint(s, i) && NoPending(s, i + 1)
  {
    forall p: nat | p < i + 1 <= p + 6 ensures !HrefAt(s, p) {
      if p < i { assert p < i <= p + 6; }
    }
    forall p: nat | p < i + 1 <= p + 5 ensures !SrcAt(s, p) {
      if p < i { assert p < i <= p + 5; }
    }
  }

  /** Both descriptions agree over a match `href="/` when they agree after it. */
  lemma SplicedHrefCase(s: string, i: nat, origin: string)
    requires HrefAt(s, i) && '$' !in origin
    requires AbsolutiseFrom(s, i + 7, origin) == Spliced(s, origin, i + 7, |s|)
    ensures AbsolutiseFrom(s, i, origin) == Spliced(s, origin, i, |s|)
  {
    SplicedOverHref(s, i, origin);
    AbsolutiseOverHref(s, i, origin);
  }

  /** Both descriptions agree over a match `src="/` when they agree after it. */
  lemma SplicedSrcCase(s: string, i: nat, origin: string)
    requires !HrefAt(s, i) && SrcAt(s, i) && '$' !in origin
    requires AbsolutiseFrom(s, i + 6, origin) == Spliced(s, origin, i + 6, |s|)
    ensures AbsolutiseFrom(s, i, origin) == Spliced(s, origin, i, |s|)
  {
    SplicedOverSrc(s, i, origin);
    AbsolutiseOverSrc(s, i, origin);
  }

  /** Both descriptions agree over a copied character when they agree after it. */
  lemma SplicedCopyCase(s: string, i: nat, origin: string)
    requires i < |s| && !LinkAt(s, i) && !InsertionPoint(s, i)
    requires AbsolutiseFrom(s, i + 1, origin) == Spliced(s, origin, i + 1, |s|)
    ensures AbsolutiseFrom(s, i, origin) == Spliced(s, origin, i, |s|)
  {
    AbsolutiseCopyStep(s, i, origin);
    SplicedStep(s, origin, i, |s|);
  }

  lemma {:induction false} AbsolutiseFromIsSpliced(s: string, i: nat, origin: string)
    requires i <= |s| && '$' !in origin && NoPending(s, i)
    ensures AbsolutiseFrom(s, i, origin) == Spliced(s, origin, i, |s|)
    decreases |s| - i
  {
    if i < |s| {
      if HrefAt(s, i) {
        NoPendingAfterHref(s, i);
        AbsolutiseFromIsSpliced(s, i + 7, origin);
        SplicedHrefCase(s, i, origin);
      } else if SrcAt(s, i) {
        NoPendingAfterSrc(s, i);
        AbsolutiseFromIsSpliced(s, i + 6, origin);
        SplicedSrcCase(s, i, origin);
      } else {
        NoPendingStep(s, i);
        AbsolutiseFromIsSpliced(s, i + 1, origin);
        SplicedCopyCase(s, i, origin);
      }
    }
  }

  /** The scan inserts the origin exactly before each `/` that opens a root-relative `href` or
      `src` value (one whose next character is not `/`) and changes nothing else. */
  lemma AbsolutiseIsSpliced(s: string, origin: string)
    requires '$' !in origin
    ensures Absolutise(s, origin) == Spliced(s, origin, 0, |s|)
  {
    AbsolutiseFromIsSpliced(s, 0, origin);
  }

  /** Deleting what the scan inserted gives back the input: with an empty origin the
      rewrite is the identity. */
  lemma AbsolutiseEmptyOrigin(s: string)
    ensures Absolutise(s, "") == s
  {
    AbsolutiseIsSpliced(s, "");
    SplicedEmptyOrigin(s, 0, |s|);
  }

  /** At an insertion point the origin lands right before the `/` that opens the value,
      with the rewritten text before and after described by `Spliced`. */
  lemma AbsolutiseInsertsAt(s: string, origin: string, k: nat)
    requires '$' !in origin && k < |s| && InsertionPoint(s, k)
    ensures Absolutise(s, origin) == Spliced(s, origin, 0, k) + origin + [s[k]] + Spliced(s, origin, k + 1, |s|)
  {
    AbsolutiseIsSpliced(s, origin);
    SplicedSplit(s, origin, 0, k, |s|);
    SplicedStep(s, origin, k, |s|);
    ConcatAssoc(Spliced(s, origin, 0, k), origin + [s[k]], Spliced(s, origin, k + 1, |s|));
    ConcatAssoc(Spliced(s, origin, 0, k), origin, [s[k]]);
  }

  /** A match `src="/` gets the origin in front of its `/`. */
  lemma SrcGetsOrigin(s: string, origin: string, k: nat)
    requires '$' !in origin && SrcAt(s, k)
    ensures Absolutise(s, origin) == Spliced(s, origin, 0, k + 5) + origin + "/" + Spliced(s, origin, k + 6, |s|)
  {
    assert InsertionPoint(s, k + 5);
    AbsolutiseInsertsAt(s, origin, k + 5);
    assert [s[k + 5]] == "/";
  }

  /** A protocol-relative value `//host/…` gets no origin: the two slashes are copied as they
      are, whatever precedes them. */
  lemma ProtocolRelativeUntouched(s: string, origin: string, k: nat)
    requires '$' !in origin && k + 1 < |s| && s[k] == '/' && s[k + 1] == '/'
    ensures Absolutise(s, origin) == Spliced(s, origin, 0, k) + "//" + Spliced(s, origin, k + 2, |s|)
  {
    AbsolutiseIsSpliced(s, origin);
    SplicedSplit(s, origin, 0, k, |s|);
    SplicedSplit(s, origin, k, k + 2, |s|);
    SlashesCopied(s, origin, k);
    ConcatAssoc(Spliced(s, origin, 0, k), "//", Spliced(s, origin, k + 2, |s|));
  }

  /** Neither slash of `//` is an insertion point, so both are copied. */
  lemma SlashesCopied(s: string, origin: string, k: nat)
    requires k + 1 < |s| && s[k] == '/' && s[k + 1] == '/'
    ensures Spliced(s, origin, k, k + 2) == "//"
  {
    assert !InsertionPoint(s, k) && !InsertionPoint(s, k + 1);
    SplicedStep(s, origin, k, k + 2);
    SplicedStep(s, origin, k + 1, k + 2);
  }

  // ----- Idempotence -----

  lemma {:induction false} NoLinkUnchanged(t: string, i: nat, origin: string)
    requires i <= |t|
    requires forall k :: i <= k < |t| ==> !LinkAt(t, k)
    ensures AbsolutiseFrom(t, i, origin) == t[i..]
    decreases |t| - i
  {
    if i < |t| {
      assert !LinkAt(t, i);
      NoLinkUnchanged(t, i + 1, origin);
      assert t[i..] == [t[i]] + t[i + 1..];
    }
  }

  lemma OutputHead(s: string, i: nat, origin: string)
    requires i <= |s| && '$' !in origin
    ensures |AbsolutiseFrom(s, i, origin)| == 0 <==> i == |s|
    ensures i < |s| ==> AbsolutiseFrom(s, i, origin)[0] == s[i]
  {
    if i < |s| {
      if HrefAt(s, i) {
        AbsolutiseHrefStep(s, i, origin);
      } else if SrcAt(s, i) {
        AbsolutiseSrcStep(s, i, origin);
      } else {
        AbsolutiseCopyStep(s, i, origin);
      }
    }
  }

  /** Where the output begins with text holding no `h` and no `s`, no match can start
      inside it, so the input begins with the same text. */
  lemma {:induction false} OutputPrefix(s: string, i: nat, j: nat, origin: string, w: string)
    requires i <= |s| && '$' !in origin && j == i + |w|
    requires forall d :: 0 <= d < |w| ==> w[d] != 'h' && w[d] != 's'
    requires |w| <= |AbsolutiseFrom(s, i, origin)| && AbsolutiseFrom(s, i, origin)[..|w|] == w
    ensures j <= |s| && s[i..j] == w
    ensures AbsolutiseFrom(s, i, origin) == w + AbsolutiseFrom(s, j, origin)
    decreases |w|
  {
    if w != [] {
      var out := AbsolutiseFrom(s, i, origin);
      OutputHead(s, i, origin);
      assert w[0] == out[..|w|][0] == s[i];
      AbsolutiseCopyStep(s, i, origin);
      var r := AbsolutiseFrom(s, i + 1, origin);
      ConsPrefix(s[i], r, w);
      OutputPrefix(s, i + 1, j, origin, w[1..]);
      PrefixGlue(s, i, j, w, r, AbsolutiseFrom(s, j, origin));
    }
  }

  /** The first character and the rest of a prefix, put back together on both sides. */
  lemma PrefixGlue(s: string, i: nat, j: nat, w: string, r: string, a: string)
    requires w != [] && j == i + |w| <= |s| && s[i] == w[0]
    requires s[i + 1..j] == w[1..] && r == w[1..] + a
    ensures s[i..j] == w && [s[i]] + r == w + a
  {
    assert s[i..j] == [s[i]] + s[i + 1..j];
    ConsRebuild(s[i], w, a);
  }

  /** A prefix of `[c] + r` is `c` followed by a prefix of `r`. */
  lemma ConsPrefix(c: char, r: string, w: string)
    requires 1 <= |w| <= |[c] + r| && ([c] + r)[..|w|] == w
    ensures w[0] == c && r[..|w| - 1] == w[1..]
  {
    assert w[0] == ([c] + r)[0];
    forall d | 0 <= d < |w| - 1 ensures r[d] == w[1 + d] {
      assert w[1 + d] == ([c] + r)[1 + d];
    }
  }

  /** Putting the first character back in front. */
  lemma ConsRebuild(c: char, w: string, a: string)
    requires w != [] && w[0] == c
    ensures [c] + (w[1..] + a) == w + a
  {
    assert w == [c] + w[1..];
    ConcatAssoc([c], w[1..], a);
  }

  lemma LinkAtShift(a: string, b: string, j: nat)
    ensures LinkAt(a + b, |a| + j) <==> LinkAt(b, j)
  {
  }

  /** Where the input has no match, neither does the output at the same place: the output
      copies the input up to the next match, and a replacement starts with the same letter. */
  lemma NoLinkAtHead(s: string, i: nat, origin: string)
    requires i < |s| && '$' !in origin && !LinkAt(s, i)
    ensures !LinkAt(AbsolutiseFrom(s, i, origin), 0)
  {
    AbsolutiseCopyStep(s, i, origin);
    CopiedHeadLink(s, i, origin);
  }

  /** A match at the head of a copied character and the rest of the output is a match of
      the input. */
  lemma CopiedHeadLink(s: string, i: nat, origin: string)
    requires i < |s| && '$' !in origin
    ensures LinkAt([s[i]] + AbsolutiseFrom(s, i + 1, origin), 0) ==> LinkAt(s, i)
  {
    var t := [s[i]] + AbsolutiseFrom(s, i + 1, origin);
    if HrefAt(t, 0) {
      HrefBack(s, i, origin);
    } else if SrcAt(t, 0) {
      SrcBack(s, i, origin);
    }
  }

  /** `href="/` at the head of a copied character and the rest of the output was there in
      the input. */
  lemma HrefBack(s: string, i: nat, origin: string)
    requires i < |s| && '$' !in origin
    requires HrefAt([s[i]] + AbsolutiseFrom(s, i + 1, origin), 0)
    ensures HrefAt(s, i)
  {
    HrefTailLetters(s[i], AbsolutiseFrom(s, i + 1, origin));
    var a := OutputRest(s, i, origin, 7);
    MatchBack(s, i, AbsolutiseFrom(s, i + 1, origin), 7, a);
  }

  /** `src="/` at the head of a copied character and the rest of the output was there in
      the input. */
  lemma SrcBack(s: string, i: nat, origin: string)
    requires i < |s| && '$' !in origin
    requires SrcAt([s[i]] + AbsolutiseFrom(s, i + 1, origin), 0)
    ensures SrcAt(s, i)
  {
    SrcTailLetters(s[i], AbsolutiseFrom(s, i + 1, origin));
    var a := OutputRest(s, i, origin, 6);
    MatchBack(s, i, AbsolutiseFrom(s, i + 1, origin), 6, a);
  }

  /** When the output from `i + 1` begins with `n - 1` characters that are neither `h` nor
      `s`, the input has them too, and what follows them in the output begins like the input
      after them. */
  lemma OutputRest(s: string, i: nat, origin: string, n: nat) returns (a: string)
    requires i < |s| && '$' !in origin && 1 <= n && NoLetterHS(AbsolutiseFrom(s, i + 1, origin), n - 1)
    ensures i + n <= |s| && AbsolutiseFrom(s, i + 1, origin) == s[i + 1..i + n] + a
    ensures (|a| == 0 <==> i + n == |s|) && (i + n < |s| ==> a[0] == s[i + n])
  {
    var r := AbsolutiseFrom(s, i + 1, origin);
    OutputPrefix(s, i + 1, i + n, origin, r[..n - 1]);
    a := AbsolutiseFrom(s, i + n, origin);
    OutputHead(s, i + n, origin);
  }

  /** The first `n` characters of `r` exist and are neither `h` nor `s`. */
  predicate NoLetterHS(r: string, n: nat) {
    n <= |r| && forall d :: 0 <= d < n ==> r[d] != 'h' && r[d] != 's'
  }

  /** After its first letter, `href="/` holds no `h` and no `s`. */
  lemma HrefTailLetters(c: char, r: string)
    requires HrefAt([c] + r, 0)
    ensures NoLetterHS(r, 6)
  {
    forall d | 0 <= d < 6 ensures r[d] != 'h' && r[d] != 's' {
      assert r[d] == ([c] + r)[d + 1];
      assert d == 0 || d == 1 || d == 2 || d == 3 || d == 4 || d == 5;
    }
  }

  /** After its first letter, `src="/` holds no `h` and no `s`. */
  lemma SrcTailLetters(c: char, r: string)
    requires SrcAt([c] + r, 0)
    ensures NoLetterHS(r, 5)
  {
    forall d | 0 <= d < 5 ensures r[d] != 'h' && r[d] != 's' {
      assert r[d] == ([c] + r)[d + 1];
      assert d == 0 || d == 1 || d == 2 || d == 3 || d == 4;
    }
  }

  /** When the rest `r` of the output is `s[i + 1..i + n]` followed by a text `a` that is
      empty exactly where `s` ends and otherwise starts with `s[i + n]`, a match at the head
      of `[s[i]] + r` is a match at `i` in `s`. */
  lemma MatchBack(s: string, i: nat, r: string, n: nat, a: string)
    requires 1 <= n && i + n <= |s| && r == s[i + 1..i + n] + a
    requires (|a| == 0 <==> i + n == |s|) && (i + n < |s| ==> a[0] == s[i + n])
    ensures n == 7 && HrefAt([s[i]] + r, 0) ==> HrefAt(s, i)
    ensures n == 6 && SrcAt([s[i]] + r, 0) ==> SrcAt(s, i)
  {
    var t := [s[i]] + r;
    forall k | 1 <= k < n ensures s[i + k] == t[k] {
      assert s[i + k] == s[i + 1..i + n][k - 1];
    }
    if i + n < |s| {
      assert t[n] == a[0];
    }
  }

  /** The pattern matches nowhere in `t`. */
  predicate NoLink(t: string) {
    forall k :: 0 <= k < |t| ==> !LinkAt(t, k)
  }

  /** A string has no match anywhere when its tail has none and none starts in its head. */
  lemma NoLinkConcat(a: string, r: string)
    requires NoLink(r)
    requires forall k :: 0 <= k < |a| ==> !LinkAt(a + r, k)
    ensures NoLink(a + r)
  {
    forall k | |a| <= k < |a + r| ensures !LinkAt(a + r, k) {
      LinkAtShift(a, r, k - |a|);
    }
  }

  /** The text `href="<origin>/` or `src="<origin>/` that replaces a match holds no match
      that starts inside it, whatever follows it. */
  lemma ReplacementHasNoLink(head: string, origin: string, rest: string, j: nat)
    requires head == "href=\"" || head == "src=\""
    requires origin != [] && origin[0] != '/' && '"' !in origin
    requires j < |head| + |origin| + 1
    ensures !LinkAt(head + origin + "/" + rest, j)
  {
    var t := head + origin + "/" + rest;
    var n := |head| + |origin|;
    assert t[n] == '/';
    assert t[|head| - 1] == '"' && t[|head|] == origin[0];
    forall q | |head| <= q < n ensures t[q] != '"' {
      assert t[q] == origin[q - |head|];
    }
    forall q | 0 < q < |head| - 2 ensures t[q] != 'h' && t[q] != 's' {
      assert t[q] == head[q];
    }
    if j + 5 <= n + 1 && HrefAt(t, j) {
      assert false;
    }
  }

  /** A replacement followed by text with no match holds no match. */
  lemma ReplacementThenNoLink(head: string, origin: string, r: string)
    requires head == "href=\"" || head == "src=\""
    requires origin != [] && origin[0] != '/' && '"' !in origin
    requires NoLink(r)
    ensures NoLink(head + origin + "/" + r)
  {
    var a := head + origin + "/";
    forall k | 0 <= k < |a| ensures !LinkAt(a + r, k) {
      ReplacementHasNoLink(head, origin, r, k);
    }
    NoLinkConcat(a, r);
  }

  /** The output over a match `href="/` holds no match when the rest of it holds none. */
  lemma NoLinkOverHref(s: string, i: nat, origin: string)
    requires HrefAt(s, i) && '$' !in origin && '"' !in origin
    requires origin != [] && origin[0] != '/'
    requires NoLink(AbsolutiseFrom(s, i + 7, origin))
    ensures NoLink(AbsolutiseFrom(s, i, origin))
  {
    AbsolutiseHrefStep(s, i, origin);
    ReplacementThenNoLink("href=\"", origin, AbsolutiseFrom(s, i + 7, origin));
  }

  /** The output over a match `src="/` holds no match when the rest of it holds none. */
  lemma NoLinkOverSrc(s: string, i: nat, origin: string)
    requires !HrefAt(s, i) && SrcAt(s, i) && '$' !in origin && '"' !in origin
    requires origin != [] && origin[0] != '/'
    requires NoLink(AbsolutiseFrom(s, i + 6, origin))
    ensures NoLink(AbsolutiseFrom(s, i, origin))
  {
    AbsolutiseSrcStep(s, i, origin);
    ReplacementThenNoLink("src=\"", origin, AbsolutiseFrom(s, i + 6, origin));
  }

  /** The output over a copied character holds no match when the rest of it holds none. */
  lemma NoLinkOverCopy(s: string, i: nat, origin: string)
    requires i < |s| && !LinkAt(s, i) && '$' !in origin
    requires NoLink(AbsolutiseFrom(s, i + 1, origin))
    ensures NoLink(AbsolutiseFrom(s, i, origin))
  {
    AbsolutiseCopyStep(s, i, origin);
    NoLinkAtHead(s, i, origin);
    NoLinkConcat([s[i]], AbsolutiseFrom(s, i + 1, origin));
  }

  /** Once rewritten with a usable origin, the content holds no further match. */
  lemma {:induction false} OutputHasNoLink(s: string, i: nat, origin: string)
    requires i <= |s| && '$' !in origin && '"' !in origin
    requires origin != [] && origin[0] != '/'
    ensures NoLink(AbsolutiseFrom(s, i, origin))
    decreases |s| - i
  {
    if i < |s| {
      if HrefAt(s, i) {
        OutputHasNoLink(s, i + 7, origin);
        NoLinkOverHref(s, i, origin);
      } else if SrcAt(s, i) {
        OutputHasNoLink(s, i + 6, origin);
        NoLinkOverSrc(s, i, origin);
      } else {
        OutputHasNoLink(s, i + 1, origin);
        NoLinkOverCopy(s, i, origin);
      }
    }
  }

  /** A second pass changes nothing, for an origin that does not begin with `/` and holds no
      `"` and no `$` (an origin ending in `src="` would create a new match). */
  lemma AbsolutiseIdempotent(s: string, origin: string)
    requires '$' !in origin && '"' !in origin
    requires origin == [] || origin[0] != '/'
    ensures Absolutise(Absolutise(s, origin), origin) == Absolutise(s, origin)
  {
    if origin == [] {
      AbsolutiseEmptyOrigin(s);
      AbsolutiseEmptyOrigin(s);
    } else {
      var t := Absolutise(s, origin);
      OutputHasNoLink(s, 0, origin);
      NoLinkUnchanged(t, 0, origin);
    }
  }
}
