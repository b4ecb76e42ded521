# Wiki-Wacker `getWikiContent`, modelled in Dafny

Wiki-Wacker shows a Fandom wiki page on its own. The server action `getWikiContent`
(`src/app/actions.ts`) does the following:

- It takes the page URL the user typed and rejects it unless it parses and its host ends in `fandom.com`.
- It cuts the page name out of the URL after the last `/wiki/`.
- It asks the wiki's MediaWiki parse API for the page's HTML, then turns the API's answer into a success record (`content`, `title`) or an error record with a fixed message.
- It post-processes the HTML in two global regular-expression replaces:
  - lazy-loaded `<img>` tags are rewritten so that `src` carries the `data-src` value, the `lazyload` class is dropped, and the `data-*` attributes are removed;
  - root-relative `href="/…"` and `src="/…"` values are made absolute with the wiki's origin.

The project models this pipeline. It has seven modules:

- `Wrappers` holds `Option`.
- `Text` holds the string primitives: prefix tests, the ECMAScript white-space set, ASCII case folding, leftmost and rightmost searches, `trim`, and decimal rendering.
- `Substitution` expands `$` patterns in a replacement string, as `String.prototype.replace` does (GetSubstitution, section 22.1.3.19.1 of ECMAScript 2023).
- `PageRequest` holds the host gate, the page-name extraction and the API URL.
- `LazyImages` holds the image pass and its per-tag callback.
- `RelativeLinks` holds the link pass.
- `WikiContent` holds the whole operation as a method, `GetWikiContent`. It uses early returns and reassigns the local `content` step by step, as the source does.

Each regular expression is written out as a scanner:

- A global replace is a left-to-right scan that resumes after each match.
- A replace without `g` edits the leftmost match only.
- Each search function returns its match and is specified by a declarative predicate saying what a match is: `ImgMatchAt`, `AttrSpan`, `ClassSpan`, `LeftmostRun`, `HrefAt`/`SrcAt`.
- The greedy `[^>]*` before `data-src` is modelled by taking the match whose `data-src="` starts last.
- The `i` flag without `u` is modelled as ASCII-only case folding.
- The image scan `ImgPassFrom` takes its matcher and its callback as parameters. Its step lemmas hold for any matcher whose matches lie inside the text; `ImgPattern` is the image pattern, `MatchImgAt`, and `RewriteTag` the source's callback.

The quirks of the code are kept as written:

- The host test has no dot boundary, so `notfandom.com` passes.
- The page name keeps the query and the fragment.
- The first `src="…"` in a tag may be the tail of `data-src="…"`.
- The class fix nests the old attribute inside the new one: it emits ` class="class="…""`.
- `data-src="/x"` is also made absolute.

Take `<img data-src="https://x/img.png" class="lazyload foo">`. One might expect `<img src="https://x/img.png" class="foo">`. The code does something else:

- It leaves the tag without a real `src`: the only `src="` is the tail of `data-src`, which is removed afterwards.
- It rewrites the class to ` class="class=" foo""`.

`DataSrcReceivesValue` and `DataSrcShadowsSrc` state the first behaviour for any tag whose `data-src` precedes every `src`. `ClassFixNests` states the second for a class match written ` class="<v>"`: one leading space, the name in lower case.

## Model

| member | source | states |
|---|---|---|
| PageRequest.IsFandomHost | src/app/actions.ts:18 | the host gate, a bare `endsWith` test; its contract is `NoDotBoundary` |
| PageRequest.NoDotBoundary | src/app/actions.ts:18-20 | the host test is a bare suffix test: every host ending in `fandom.com` passes, `notfandom.com` included, and `fandom.com.evil.org` fails |
| PageRequest.LastMarker | src/app/actions.ts:25 | the index found holds `/wiki/` and no later index does; None exactly when `/wiki/` occurs nowhere |
| PageRequest.PageName | src/app/actions.ts:25-28 | None exactly when `/wiki/` is absent or the URL ends with it; otherwise a non-empty suffix of the URL that starts right after the last `/wiki/` |
| PageRequest.PageNameOfArticleUrl | src/app/actions.ts:25 | for any prefix, `…/wiki/<name>` with a slash-free non-empty name yields exactly that name, query and fragment included |
| PageRequest.LastMarkerShift | src/app/actions.ts:25 | behind any prefix, the last `/wiki/` of a text that starts with one is found at the same place, shifted by the prefix |
| PageRequest.PageNameAfterLastMarker | src/app/actions.ts:25-28 | for any prefix and any text starting with `/wiki/`, the page name of the whole is that of the text: everything before the last marker is ignored |
| PageRequest.PageNameEmpty | src/app/actions.ts:25-28 | every URL ending in `/wiki/`, whatever precedes it, has no page name |
| PageRequest.ApiUrl | src/app/actions.ts:30 | the request URL starts with `<origin>/api.php?action=parse&page=`, ends with the encoded name followed by the fixed format parameters, and is exactly as long as the three together, so the name follows `page=` directly |
| PageRequest.ApiUrlNameReadBack | src/app/actions.ts:30 | the encoded name can be read back as the text between `page=` and the format parameters |
| PageRequest.ApiUrlInjective | src/app/actions.ts:30 | different encoded names for the same origin give different request URLs |
| Text.Trim | src/app/actions.ts:65 | `trim` yields a slice of its input with only white space cut from either end, and the slice neither starts nor ends with white space |
| Text.TrimExact | src/app/actions.ts:65 | when the non-space text lies exactly between indices a and b, `trim` yields that slice |
| Text.TrimEndExact | src/app/actions.ts:65 | `trimEnd` keeps exactly the characters up to the last non-space one |
| Text.NatToDecimal | src/app/actions.ts:42 | the status is rendered as a non-empty digit string with no leading zero whose decimal value is the status |
| Substitution.Substitute | src/app/actions.ts:62 | a replacement string with no `$` is inserted literally |
| Substitution.FirstGroupReference | src/app/actions.ts:77 | `$1` followed by a non-digit expands to the first capture group, then the rest of the template |
| LazyImages.TailEnds | src/app/actions.ts:59 | an end it reports for `data-src="` at a completes the pattern: a non-empty quote-free value, its quote, then a `>` with no `>` in between |
| LazyImages.TailEndsUnique | src/app/actions.ts:59 | after `data-src="`, the first quote and the first `>` after it are the only ends that can complete a match, and the search reports them |
| LazyImages.MatchImgAt | src/app/actions.ts:59 | a match it reports at p is a match of the image pattern starting at p |
| LazyImages.MatchImgAtLast | src/app/actions.ts:59 | whenever a match starts at p, one is reported, and its `data-src="` starts no earlier than that match's |
| LazyImages.MatchImgAtGreatest | src/app/actions.ts:59 | None exactly when no match starts at p; otherwise no match at p has a later `data-src="` than the one reported |
| LazyImages.MatchImgAtIsLast | src/app/actions.ts:59 | a match whose `data-src` starts last is the one reported, the greedy `[^>]*` choice |
| LazyImages.NoImgNoMatch | src/app/actions.ts:59 | no match starts where `<img` does not |
| LazyImages.ImgPassFrom | src/app/actions.ts:59-73 | the global replace with a callback, for any matcher: tried at each index, a match is handed to the callback with its text and capture and the scan resumes after it, elsewhere one character is copied; its contract is `ImgPassCopies` and `ImgPassAtMatch` |
| LazyImages.ImgPass | src/app/actions.ts:59-73 | the image pass over the whole content with the image pattern and `RewriteTag`; its contract is `ImgPassAtMatch` and `ImgPassWithoutImg` |
| LazyImages.ImgPassCopies | src/app/actions.ts:59 | for any matcher, text where no match starts is copied unchanged |
| LazyImages.ImgPassAtMatch | src/app/actions.ts:59-73 | the match of the image pattern with the last `data-src` is replaced by the callback's result on that tag and its own captured value; the scan resumes after its `>` |
| LazyImages.ImgPassWithoutImg | src/app/actions.ts:59 | content with no `<img` is left exactly as it is |
| LazyImages.EmptyDataSrcNotMatched | src/app/actions.ts:59 | a tag whose every `data-src` before its first `>` is empty is not matched, whatever other tags of the content hold |
| LazyImages.FindAttr | src/app/actions.ts:62 | a span it reports is a `name="…"` attribute: the name, a quote-free value, the closing quote |
| LazyImages.AttrSpanEnd | src/app/actions.ts:62 | an attribute span is fixed by its start: it ends just after the first quote following `name="` |
| LazyImages.FindAttrLeftmost | src/app/actions.ts:62 | the span found is the leftmost `name="…"` span; None exactly when there is none |
| LazyImages.FindAttrAt | src/app/actions.ts:62 | any leftmost span is the one reported |
| LazyImages.ReplaceFirstSrc | src/app/actions.ts:62 | the first-match `src` edit with the template expanded; its contract is `ReplaceFirstSrcEdits`, `ReplaceFirstSrcAt` and `DataSrcReceivesValue` |
| LazyImages.ReplaceFirstSrcEdits | src/app/actions.ts:62 | only the leftmost `src="…"` is replaced, by the expanded template; a tag without one is unchanged |
| LazyImages.ReplaceFirstSrcAt | src/app/actions.ts:62 | for a value with no `$`, the leftmost `src="…"` becomes literally `src="<value>"` and the rest of the tag is kept |
| LazyImages.SrcInsideDataSrc | src/app/actions.ts:62 | every `data-src="…"` span holds a `src="…"` span that ends with it, five characters in |
| LazyImages.DataSrcReceivesValue | src/app/actions.ts:62 | when `data-src` precedes every `src`, the edit for any captured value happens inside that `data-src` span and everything before and after it, the real `src` included, is kept; a value free of `$` becomes the new `data-src` value |
| LazyImages.DataSrcShadowsSrc | src/app/actions.ts:62 | when the value given is the first `data-src`'s own, as for a tag with a single `data-src`, the tag is unchanged (or the value holds `$`) |
| LazyImages.RemoveFirstAttr | src/app/actions.ts:69-71 | the first-match deletion of a `name="…"` attribute, never lengthening the tag; its contract is `RemoveFirstAttrEdits` |
| LazyImages.RemoveFirstAttrEdits | src/app/actions.ts:69-71 | exactly the leftmost `name="…"` span is deleted, with surrounding spaces kept; a tag without one is unchanged |
| LazyImages.FirstCi | src/app/actions.ts:65 | an index it reports lies in range and starts the word in some ASCII case |
| LazyImages.FirstCiLeftmost | src/app/actions.ts:65 | the index found is the leftmost case-insensitive occurrence in range; None exactly when there is none |
| LazyImages.RemoveFirstCi | src/app/actions.ts:65 | the first-match deletion of `lazyload` under the `i` flag, never lengthening the text; its contract is `RemoveFirstCiAt` and `RemoveFirstCiEdits` |
| LazyImages.RemoveFirstCiAt | src/app/actions.ts:65 | the leftmost occurrence of the word, in any ASCII case, is cut out and nothing else changes |
| LazyImages.RemoveFirstCiEdits | src/app/actions.ts:65 | exactly the leftmost `lazyload`, in any ASCII case, is cut out; text without one is unchanged |
| LazyImages.FirstRun | src/app/actions.ts:65 | an index it reports starts two white-space characters |
| LazyImages.FirstRunLeftmost | src/app/actions.ts:65 | the index found starts the leftmost run of two white-space characters; None exactly when there is none |
| LazyImages.CollapseFirstRun | src/app/actions.ts:65 | the first-match collapse of a white-space run, never lengthening the text; its contract is `CollapseFirstRunAt` and `CollapseFirstRunEdits` |
| LazyImages.CollapseFirstRunAt | src/app/actions.ts:65 | the leftmost run of two or more white-space characters, taken whole up to its end, becomes one space |
| LazyImages.CollapseFirstRunEdits | src/app/actions.ts:65 | the same for every leftmost run; text without one is unchanged |
| LazyImages.ClassTail | src/app/actions.ts:64 | a quote it reports after `class="` closes a quote-free value that holds `lazyload` in some case |
| LazyImages.ClassTailUnique | src/app/actions.ts:64 | after `class="`, the closing quote is the only one that can complete a match, and the search reports it |
| LazyImages.ClassSpanAt | src/app/actions.ts:64 | a class match is fixed by its start: `class="` begins where the white space ends, and the quote is the one the search finds |
| LazyImages.FindClass | src/app/actions.ts:64 | a span it reports is a match of `\s*class="[^"]*lazyload[^"]*"` in any case |
| LazyImages.FindClassLeftmost | src/app/actions.ts:64 | the span found is the leftmost match; None exactly when there is none |
| LazyImages.FindClassAt | src/app/actions.ts:64 | any leftmost class match is the one reported |
| LazyImages.ReplaceFirstClass | src/app/actions.ts:64-67 | the first-match class edit with a callback; its contract is `ReplaceFirstClassAt` and `ReplaceFirstClassEdits` |
| LazyImages.ReplaceFirstClassAt | src/app/actions.ts:64-67 | the leftmost class match, with its leading white space, is replaced by the callback's result; the rest of the tag is kept |
| LazyImages.ReplaceFirstClassEdits | src/app/actions.ts:64-67 | the same for every leftmost match; a tag without one is unchanged |
| LazyImages.ClassReplacement | src/app/actions.ts:66 | the callback returns nothing exactly when the new text is `class=""`; otherwise ` class="` + new text + `"` |
| LazyImages.NewClassText | src/app/actions.ts:65 | the new class text is no longer than the matched text; what it is for ` class="<v>"` is `NewClassTextOf` |
| LazyImages.NewClassTextOf | src/app/actions.ts:65 | for ` class="<v>"` with the first `lazyload` at j, the new text is `class="` + the rest of v with its first space run collapsed + `"` |
| LazyImages.ClassFixNests | src/app/actions.ts:64-66 | for a match ` class="<v>"` (one leading space, lower-case name, quote-free v), the attribute vanishes exactly when what is left of v is empty; otherwise the output nests the old `class="` inside a new one |
| LazyImages.CollapseKeepsHead | src/app/actions.ts:65 | a space run cannot start in a prefix that has none and ends in a non-space, so collapsing leaves that prefix alone |
| LazyImages.LazyInValue | src/app/actions.ts:65 | in ` class="<v>"` with a quote-free v, the `lazyload` removed is the first one inside v |
| LazyImages.TrimUnderHead | src/app/actions.ts:65 | trimming ` class="<rest>` drops only the leading space when rest ends in a non-space |
| LazyImages.RewriteTag | src/app/actions.ts:60-72 | the callback: the five edits in the source's order, each stated by its own lemma (`ReplaceFirstSrcEdits`, `ReplaceFirstClassEdits` with `ClassReplacement`, `RemoveFirstAttrEdits`); no contract for the composed tag |
| RelativeLinks.AbsolutiseFrom | src/app/actions.ts:77 | the global replace resumed at an index: a match is replaced by the expanded template and the scan resumes after it; its contract is `AbsolutiseInsertsAt`, `ProtocolRelativeUntouched` and `NoLinkAtHead` |
| RelativeLinks.Absolutise | src/app/actions.ts:76-77 | the link pass; its contract is `AbsolutiseIsSpliced`, `AbsolutiseEmptyOrigin`, `NoLinkUnchanged`, `OutputHasNoLink` and `AbsolutiseIdempotent` |
| RelativeLinks.ReplacementIsLiteral | src/app/actions.ts:77 | with an origin free of `$`, the template turns `kw="/` into `kw="<origin>/` |
| RelativeLinks.AbsolutiseIsSpliced | src/app/actions.ts:76-77 | the scan equals the input with the origin inserted before each `/` that follows `href="` or `src="` and is not followed by `/`, and nothing else changed |
| RelativeLinks.AbsolutiseInsertsAt | src/app/actions.ts:77 | at each such `/`, the origin lands immediately before it |
| RelativeLinks.SrcGetsOrigin | src/app/actions.ts:77 | each `src="/` match gets the origin right before its `/` |
| RelativeLinks.ProtocolRelativeUntouched | src/app/actions.ts:77 | a `//` is copied as it is, with no origin inserted before either slash |
| RelativeLinks.SplicedEmptyOrigin | src/app/actions.ts:77 | deleting every inserted origin gives back the input |
| RelativeLinks.AbsolutiseEmptyOrigin | src/app/actions.ts:77 | with nothing inserted, the rewrite is the identity |
| RelativeLinks.NoLinkAtHead | src/app/actions.ts:77 | where the input has no match at i, the output of the scan resumed at i has none at its start |
| RelativeLinks.NoLinkUnchanged | src/app/actions.ts:77 | text with no match is copied unchanged |
| RelativeLinks.OutputHasNoLink | src/app/actions.ts:77 | for a non-empty origin not starting with `/` and free of `"` and `$`, the output holds no further match |
| RelativeLinks.AbsolutiseIdempotent | src/app/actions.ts:77 | for such an origin, a second pass changes nothing |
| WikiContent.IsOk | src/app/actions.ts:41 | `response.ok`: the status lies in 200-299 |
| WikiContent.StatusMessage | src/app/actions.ts:42 | the error for a status that is not ok; its contract is `StatusMessageNamesStatus` |
| WikiContent.ApiErrorMessage | src/app/actions.ts:48 | the error for an API-level error; its contract is `ApiErrorMessageQuotesInfo` |
| WikiContent.HasText | src/app/actions.ts:51 | `data.parse && data.parse.text`: a parse result with non-empty text is present |
| WikiContent.PostProcess | src/app/actions.ts:55-77 | the image pass, then the link pass; its contract is `PlainTextUnchanged`, `LinkAfterImagesIsAbsolute` and `DataSrcAlsoAbsolutised` |
| WikiContent.GetWikiContent | src/app/actions.ts:14-79 | the checks run in order, each with its own message: URL syntax, host suffix, page name, HTTP status (quoted in decimal), API error (`info`, or `undefined`), missing or empty text; otherwise success with the title passed through and the content made by the image pass and then the link pass |
| WikiContent.StatusMessageNamesStatus | src/app/actions.ts:42 | the status can be read back from its message: the fixed prefix, then the canonical numeral of the status |
| WikiContent.ApiErrorMessageQuotesInfo | src/app/actions.ts:48 | the API's `info` appears verbatim between `API Error: ` and `. Please check the page URL.` |
| WikiContent.PlainTextUnchanged | src/app/actions.ts:59-77 | HTML with no `<img` and no root-relative link comes back exactly as fetched |
| WikiContent.WrittenSrcIsLink | src/app/actions.ts:62 | `src="` followed by a value with a single leading `/` is a match of the link pattern |
| WikiContent.CopiedValueBecomesLink | src/app/actions.ts:62 | a root-relative `data-src` value written into the leftmost `src` forms a link the link pass rewrites |
| WikiContent.LinkAfterImagesIsAbsolute | src/app/actions.ts:59-77 | the image pass runs first: every `src="/x` it leaves ends up with the origin before the `/` |
| WikiContent.DataSrcAlsoAbsolutised | src/app/actions.ts:77 | with no word boundary, a `data-src="/x` value also gets the origin |

## Left out

- Network I/O is not modelled. `fetch`, its `User-Agent` header and `cache: 'no-store'`, and `response.json()` (src/app/actions.ts:33-45) become one caller-supplied total function from the request URL to a status and a decoded body.
- The `catch` block (src/app/actions.ts:81-87) is not modelled. It maps runtime exceptions to messages and logs them, and with a total fetch no exception arises.
- URL parsing is not modelled. `new URL(url)` (section 4.4 of the WHATWG URL Standard) is an input: `None` for a URL that does not parse, otherwise its `hostname` and `origin`.
- `encodeURIComponent` (ECMAScript library) is an uninterpreted function parameter.
- The decoded body is reduced to what the code reads. An `error` member is present or absent; the model cannot express a falsy `error` value (`null`, `false`, `0`, `""`), which the code treats like an absent one. `info` and `title` are strings or missing; other JSON types and their string conversion are not modelled. A `parse.text` that is not a string is not modelled.
- JavaScript strings are UTF-16 code units; the model uses Dafny characters (Unicode scalar values). Every pattern is ASCII, so match positions agree except inside surrogate pairs, which the patterns never split.
- The title is passed through as an optional string. A missing `parse.title` stays missing, where the source would return `undefined` in a field typed `string`.
- LazyImages.RewriteTag: the callback is the five edits in the source's order and has no contract of its own. Its effect is stated edit by edit (`ReplaceFirstSrc`, `ReplaceFirstClass`/`ClassReplacement`, `RemoveFirstAttr`), not for the composed tag.
- RelativeLinks.AbsolutiseIsSpliced: stated only for an origin free of `$`. An origin with `$` would be expanded as a replacement pattern. `new URL` accepts a host such as `a$1.fandom.com`, but such a host cannot be resolved, so the fetch fails before the link pass runs, in the `catch` that is not modelled.
- RelativeLinks.AbsolutiseIdempotent: stated only for an origin that holds no `"` and no `$` and does not begin with `/`. Such an origin could itself complete a new match.
- LazyImages.DataSrcShadowsSrc: holds only for a captured value free of `$`; the disjunct `'$' in value` excuses the other case.
- WikiContent.CopiedValueBecomesLink: stated for the `src` edit alone. A later edit of the same tag can remove the copy, when the leftmost `src="` was the tail of `data-src`.
- LazyImages.ClassFixNests: stated only for a match ` class="<v>"` with one leading space and the name in lower case. For other matches the comparison with the lower-case `class=""` and the collapse of leading white space differ: ` CLASS="lazyload"` keeps its attribute. The class edit for every match is stated by `ReplaceFirstClassEdits`, `ClassReplacement`, `RemoveFirstCiEdits`, `CollapseFirstRunEdits` and `Text.Trim`.
- The UI pages and the raw HTTP route are not part of this model: src/app/page.tsx, src/app/web/page.tsx, src/app/layout.tsx and src/app/api/raw/route.ts.
