# page_marker in Dafny

page_marker is a browser extension that lets a reader mark a passage of a web
page and keep a note about it. Saved highlights live in the extension's local
storage as a list of records `{id, url, title, text, note, timestamp}`. Each
time a page loads, the content script finds every saved passage of that page
in the page text and wraps it in `mark.page-marker-highlight` elements. The
popup lists the records, newest first, and edits, deletes or clears them.

This project models the two cores of that code and proves what they promise.

**The re-anchoring engine of content.js.** This is `highlightTextOnPage` and
the two unwrap routines. Its parts:

- the search pattern: regular-expression specials escaped, whitespace runs
  turned into `\s*` (module `Pattern`);
- the case-insensitive global scan of the page text (module `Matcher`);
- the page as its text nodes in document order, the flattened buffer with the
  node map, and wrapping or unwrapping one text node (module `Dom`);
- the page object whose node list the operations rewrite in place, `class
  Highlighter.Page`.

Highlighting is proved to keep the page text and to mark exactly the matched
characters. It never wraps text already inside a marker, so a second run adds
nothing. The proof follows the code's back-to-front order: a frontier
predicate (`Highlighter.Frontier`) says that every node not processed yet is
still where its node-map record says it is.

**The record-list edits.** These are the append on save, the filter by URL on
restore, the popup's delete by id, note update, delete-all and newest-first
sort (module `Annotations`). `saveNote` and the sort work in place on an
array, as the popup does.

`removeHighlightFromPage(text)` compares each marker's OWN text content with
`text`. A saved passage that spans several text nodes is wrapped in several
markers, none of which holds the whole passage. So removal by text does not
take such a highlight off the page. The model does what the code does.

## Model

| member | source | states |
|---|---|---|
| `Pattern.EscapeIsLiteral` | content.js:416 | After escaping, the regular-expression engine reads every character of the text as a literal of its own, the specials `.*+?^${}()|[]\` included. |
| `Pattern.Collapse` | content.js:418 | No whitespace is left in the pattern, and the pattern is empty exactly when its input is. |
| `Pattern.ParsePattern` | content.js:419 | Each atom the engine reads takes up at least one pattern character, and a non-empty pattern it accepts has at least one atom. |
| `Pattern.ParseRender` | content.js:419 | The engine reads a written-out sequence of atoms back as that same sequence: escaped characters as literals, `\s*` as a whitespace run. |
| `Pattern.CollapseEscapeRenders` | content.js:416-418 | Escaping and then collapsing whitespace writes out the snippet's own structure: each visible character escaped, each whitespace run as one `\s*`. |
| `Pattern.BuildPattern` | content.js:416-419 | The engine reads the built pattern back as exactly the snippet's structure: one case-insensitive literal per visible character, one `\s*` per whitespace run. No character is lost and none becomes an operator. |
| `Pattern.DropSpacesEscape` | content.js:416-418 | Escaping commutes with dropping leading whitespace: no escaped character is whitespace. |
| `Pattern.Atoms` | content.js:416-419 | The snippet's pattern is well formed: no literal is whitespace, and every `\s*` except a last one is followed by a literal. It is empty exactly when the snippet is. |
| `Pattern.AtomsHaveLiteral` | content.js:413-419 | The pattern has a literal if and only if the snippet has a non-whitespace character. |
| `Pattern.BlankAtoms` | content.js:418 | A non-empty whitespace-only snippet becomes the single pattern `\s*`. |
| `Matcher.MatchAt` | content.js:453-457 | The greedy matcher's match lies inside the buffer, and it is non-empty when the pattern has a literal. |
| `Matcher.MatchAtSound` | content.js:453-457 | Whatever the greedy matcher reports is a match of the pattern: literals equal up to case, `\s*` over whitespace only. |
| `Matcher.MatchAtComplete` | content.js:453-457 | For a well-formed pattern, any match starting at a position means the greedy matcher finds one there that is at least as long. So no backtracking is needed. |
| `Matcher.FindFrom` | content.js:453 | One `exec` from `lastIndex`: the first position at or after it where the pattern matches, with no match between; none when no position matches. |
| `Matcher.AllSpans` | content.js:452-458 | The spans the scan collects are non-empty, inside `[0, buffer length]`, strictly increasing and non-overlapping. |
| `Matcher.AllSpansAreLeftmostMatches` | content.js:452-458 | Every collected span is a match of the pattern, and no match starts before the first span or between one span's end and the next span's start. |
| `Matcher.CollectMatches` | content.js:447-458 | The `exec` loop collects exactly the leftmost non-overlapping spans, in order. |
| `Dom.BuildMap` | content.js:421-445 | The tree walk and `forEach` give the concatenated text of all nodes outside SCRIPT and STYLE (marker text included), and a node map that tiles it and describes each node. |
| `Dom.RecordsTile` | content.js:437-445 | The node records tile the buffer: the first starts at 0, each starts where the previous one ends, and the last ends at the buffer length. |
| `Dom.RecordsDescribe` | content.js:421-445 | Each record names a node outside SCRIPT and STYLE. Its start is the length of the text before that node, and its end adds the node's length. Positions increase. |
| `Dom.RecordsCover` | content.js:421-432 | Every text node outside SCRIPT and STYLE, marker text included, has a record. |
| `Dom.RecordContents` | content.js:440-445 | A record's slice of the buffer is its node's text. Its characters are inside a marker exactly when the node is. |
| `Dom.FirstEnd` | content.js:465-466 | `findIndex` over the node map: the first record whose end is past the bound (or reaches it), with every earlier record before the bound; -1 when there is none. |
| `Dom.LookupsSucceed` | content.js:465-468 | For a non-empty span inside the buffer, both lookups succeed and the start record comes no later than the end record. |
| `Dom.SliceIsOverlap` | content.js:480-488 | Every slice the loop computes has `0 <= startOffset <= endOffset <= node length`. In buffer terms it is the overlap of the span with the record. Consecutive records' slices are adjacent and reach the span's ends. |
| `Dom.Split` | content.js:493-502 | `surroundContents` on `[a, b)` of one text node adds two nodes. The nodes before it are untouched, and the node keeps `[0, a)` under its parent. |
| `Dom.SplitKeepsText` | content.js:493-502 | Wrapping a slice of an unmarked node keeps the page text and marks exactly the slice's characters. |
| `Dom.MarkerIds` | content.js:547 | `querySelectorAll` lists every marker on the page once. |
| `Dom.TextUnder` | content.js:549 | The text content of a marker (or of SCRIPT and STYLE) that holds no node is empty. |
| `Dom.TextUnderConcat` | content.js:549 | The text under one parent of two runs of nodes is the text of the first run followed by that of the second. |
| `Dom.MarkerTextFrame` | content.js:549 | A marker's text content depends only on the nodes it holds. |
| `Dom.SplitTextUnder` | content.js:493-502 | Wrapping part of an ordinary node with marker `m` leaves the text under SCRIPT, STYLE and every other marker unchanged. |
| `Dom.SplitNewMarker` | content.js:493-502 | When no node was under marker `m`, wrapping `[a, b)` of an ordinary node with `m` gives `m` exactly that part of the node's text. |
| `Dom.NoMarkerNoMarks` | content.js:559-568 | A page with no marker has no character inside a marker. |
| `Highlighter.Found` | content.js:416-458 | The matches the scan reports are non-empty, inside the page text, in order and not overlapping, and each is a match of the snippet's pattern. |
| `Highlighter.Page.Highlight` | content.js:412-508 | `highlightTextOnPage`. The page text is unchanged. A character becomes marked exactly when it was marked or some reported match covers it. When every match was already marked, the page is unchanged, so a second run adds nothing. A snippet without a visible character changes nothing. The text under SCRIPT and STYLE and under every existing marker is unchanged, and new markers get identities no marker had. |
| `Highlighter.Page.WrapAll` | content.js:460-507 | Handling the matches from the last to the first marks exactly the characters they cover and keeps the text. When all were marked, nothing changes. Existing markers and SCRIPT/STYLE text are untouched. |
| `Highlighter.Page.WrapMatch` | content.js:461-506 | One match: the page text is unchanged and exactly the match's characters are added to the marks. Nodes not yet processed remain where the node map says. When the whole match was marked, nothing changes. Existing markers and SCRIPT/STYLE text are untouched. |
| `Highlighter.Page.WrapNode` | content.js:471-506 | One turn of the `for` loop: the node's slice becomes marked. A node inside a marker or with an empty slice is skipped. The offsets of the records still to come stay valid. Existing markers and SCRIPT/STYLE text are untouched. |
| `Highlighter.Page.WrapPart` | content.js:493-502 | Wrapping one slice uses the next marker identity, and the new marker's text content is exactly that slice of the node. Every marker identity stays below the counter. No existing marker and no SCRIPT/STYLE text changes, and the frontier moves to the slice's start. |
| `Highlighter.WrapKeepsOthers` | content.js:493-502 | Wrapping part of an ordinary node with a fresh marker changes the text of no other marker and no SCRIPT or STYLE text. |
| `Highlighter.FreshMarkerText` | content.js:493-502 | A marker with a new identity, wrapped around part of an ordinary node, holds exactly that part. |
| `Highlighter.NodeNow` | content.js:471-481 | Back to front: the node of a record not processed yet is still at its position behind untouched nodes, under its own parent, and holds a prefix of its text. The prefix is all of the text before the node being cut. |
| `Highlighter.NodeSlice` | content.js:472-488 | The node still holds the part of the match its record covers, and the offsets computed for it delimit exactly that part. |
| `Highlighter.WrapStep` | content.js:493-502 | Wrapping `[so, eo)` moves the frontier to `start + so`, keeps the text and adds exactly `[start + so, start + eo)` to the marks. |
| `Highlighter.SkipProgress` | content.js:475-478 | A node skipped because it is inside a marker, or because its slice is empty, needs no wrap: its part of the match is already marked. |
| `Highlighter.FreshPart` | content.js:475-491 | A slice that gets wrapped was not marked yet, so its match was not all marked. |
| `Highlighter.WrapStart` | content.js:465-468 | Before a match is handled, the marks agree with the original page up to the match's end, and both record lookups succeed. |
| `Highlighter.BlankSnippetNeverEnds` | content.js:453-458 | With a whitespace-only snippet, the scan reaches an empty match that ends where the next search starts, so `lastIndex` stops moving. |
| `Highlighter.Page.Unwrap` | content.js:551-554 | The nodes of one marker move to the marker's parent and nothing else changes. The page text is unchanged and marker identities stay below the counter. |
| `Highlighter.Page.RemoveByText` | content.js:546-557 | A node leaves its marker exactly when that marker's own text content equals `text`. Every other node keeps its parent, every text is kept, and the page text is unchanged. |
| `Highlighter.Page.RemoveAll` | content.js:559-568 | Every node inside a marker moves to an ordinary element and no character is marked afterwards. Texts and page text are unchanged. |
| `Highlighter.Page.Restore` | content.js:373-391 | The stored highlights of the current URL are applied in order. Afterwards a character is marked exactly when it was marked before or a match of one of them covers it, and the page text is unchanged. When every match was already marked, nothing changes, so restoring twice changes nothing the second time. Existing markers and SCRIPT/STYLE text are untouched. |
| `Highlighter.Page.RestoreOne` | content.js:384-386 | One turn of `forEach`: the marks gain exactly the matches of one more stored highlight, and the earlier highlights stay shown. |
| `Highlighter.ShownStep` | content.js:384-386 | Highlighting one more snippet keeps the earlier snippets' matches marked and marks its own. |
| `Highlighter.ShownByStep` | content.js:384-386 | Highlighting one more snippet adds exactly its matches to the marks of the highlights before it. |
| `Annotations.ForUrl` | content.js:382 | The page's highlights are exactly the stored records with that URL. |
| `Annotations.ForUrlConcat` | content.js:382 | Filtering keeps the stored order: the filter of a concatenation is the concatenation of the filters. |
| `Annotations.SavedIsRestored` | content.js:360-361 | After `push`, a saved highlight is restored on its page after the ones the page already had, and every other page restores what it did before. |
| `Annotations.WithoutId` | popup.js:169 | After deleting, no record has the id, and every record with another id is still there. |
| `Annotations.WithoutIdConcat` | popup.js:169 | Deleting keeps the relative order of the records that stay. |
| `Annotations.WithoutAbsentId` | popup.js:169 | Deleting an id that no record has changes nothing. |
| `Annotations.FirstWithId` | popup.js:102 | `findIndex`: the first record with the id, or -1 exactly when no record has it. |
| `Annotations.SaveNote` | popup.js:99-110 | With an unknown id nothing is written and the list is unchanged. Otherwise only the note of the first record with that id changes, and the list is written back. |
| `Annotations.DeleteAllWritesNonEmpty` | popup.js:5-10 | Delete-all writes the store exactly when the list is not empty; an empty list is left alone. |
| `Annotations.DeleteAllEmpties` | popup.js:139-141 | Whatever the list was, the store holds no record after delete-all. |
| `Annotations.SortNewestFirst` | popup.js:33 | The sorted list is a permutation of the stored one, with timestamps never increasing. |
| `Annotations.InsertLast` | popup.js:33 | One insertion step extends the newest-first prefix by one record. It only reorders that prefix: the records after it are untouched and the prefix keeps its multiset of records. |

## Left out

- The floating button, its placement arithmetic, the shadow-DOM host, the styles, the toast, the modal and the timers (content.js:5-347, 393-410). The popup's rendering and edit mode (popup.js:17-97, 112-137) are left out too. All of these are user interface.
- `chrome.storage`, `chrome.runtime` messaging and `chrome.tabs` are left out. These calls are asynchronous and foreign. The stored list is a parameter, and a written list is a result. The `written` result of `Annotations.SaveNote` and the `None` of `Annotations.DeleteAll` stand for "no `set` call".
- The MutationObservers that re-run restore (content.js:513-535) are left out. They are only timing and events.
- `Base.Fold` folds ASCII letters only. JavaScript's case-insensitive matching also folds other scripts. `\s` is modelled with the full ECMAScript whitespace and line-terminator set.
- The page is its text nodes in document order, each with the kind of its parent: ordinary, SCRIPT/STYLE, or a marker with an identity. The element tree is not modelled. Markers never nest, because text already inside a marker is never wrapped. So a hoisted node always lands under an ordinary element.
- The `catch` around `surroundContents` (content.js:503-505) is not modelled. The model always wraps: a range inside one text node does not make `surroundContents` throw.
- The `-1` guard after the two lookups (content.js:468) is not modelled as a branch. `Dom.LookupsSucceed` proves it is never taken for a span the scan reports.
- The tree walk and the `forEach` over its result are one loop in `Dom.BuildMap`.
- Offsets in the page text are counted in UTF-16 code units, as JavaScript counts them. A Dafny `char` is a Unicode scalar value, so a lone surrogate half cannot be represented, and a character outside the Basic Multilingual Plane is one `char` here but two code units in the browser.
- `Date.now()` ids and ISO timestamps are left out: ids are strings, and a timestamp is an integer instant. `title` is carried but unused.
- Annotations.SortNewestFirst: does not state that records with equal timestamps keep their stored order. `Array.prototype.sort` is stable, and the insertion sort modelled here is too, but the contract only states the order and the permutation.
- Highlighter.Page.Highlight: a snippet with no visible character is ignored. The code only ignores the empty string and does not terminate on a blank one; see Findings.
- `saveHighlight` (content.js:349-370) is `Annotations.Append` followed by `Highlighter.Page.Highlight` on the saved text. The composition is not a separate member.

## Findings

| source | as written | input that shows it | evidently intended | confidence | as-written member | corrected member |
|---|---|---|---|---|---|---|
| content.js:413 | `if (!searchText) return;` lets a whitespace-only snippet through. Its pattern is `\s*`, which matches the empty string. `exec` then returns an empty match at `lastIndex` without moving it, so the loop at line 453 never ends. | a stored highlight whose `text` is `" "` (selections are trimmed at content.js:7, so only a stored list can hold one) | ignore snippets without a visible character (`searchText.trim()`) | not executed | `Highlighter.BlankSnippetNeverEnds` | `Highlighter.Page.Highlight` |
