# Booklog shelf tagging script — a Dafny model

The content script adds bulk-tagging controls to the shelf view of the Booklog book-tracking site.
For each rendered shelf item (`.item-wrapper`) it adds one toggle button per known tag. A header
button shows or hides all of these buttons. A text box searches the shelf by keyword, page by page,
and adds the fixed tag 譲渡・売却 to every book found that lacks it. All writes go to the site's tag
API as a whole, space-joined tag list.

This project models the rules inside those handlers. The model works over plain data:

- a book record `Book(id, serviceId, tags)`;
- the tag catalog, as a `seq<string>`;
- the server's answers, as values: `Page(ok, body, books)` for each search page and
  `Response(ok, body)` for a toggle's write.

Everything a handler does that can be seen from outside is returned as a trace of `Effect`s, in
order: a page request, a write, an alert, a progress text, a beep. The DOM elements the script
updates in place are classes:

- `Wrapper`: `data-book`, `data-injected` and the appended button groups;
- `TagButtons`: the buttons and `hidden`;
- `TagButton`: text and background;
- `TagsButton`: `data-show`;
- `AddTagsBox`: the input's value and `disabled`, and the progress span.

Modules, one per part of the script:

- `Records` (records.dfy): the shared data.
- `TagList` (tag_list.dfy): the `indexOf`/`splice`/`push` toggle on a tag list.
- `Wire` (wire.dfy): the `tags.join(" ")` request body with a decoder as its partner, and the
  `i / n` progress text with a numeral reader as its partner.
- `Search` (search.dfy): `searchBooks`.
- `BulkApply` (bulk_apply.dfy): the keypress handler of the bulk-apply box.
- `Decorate` (decorate.dfy): `makeTagButtons`, one pass of `main`'s polling loop,
  `genToggleTag`'s click handler, and the header button's click handler.

Some behaviour of the code is easy to miss, and the model keeps it as written:

- After a failed search, the handler reads `books.length` on `undefined` and throws. The model
  stops there too: the alert has been shown, but the input stays disabled, the progress text and
  the keyword are left as they were, and no cue plays.
- After a successful toggle, the button is coloured by `!hasTag`, the membership before the
  toggle. That agrees with the new membership exactly when the toggled tag occurs at most once
  (`ToggleColorMatchesDecoration`). When it occurs two or more times, a copy stays in the stored
  record but the button turns white (`ToggleColorStaleOnDuplicate`).
- A toggle splices out only the first occurrence of a tag. On a list holding the tag two or more
  times, two toggles remove two copies instead of restoring the list (`ToggleTwiceOnDuplicate`).
- A group injected after the header button has hidden the others starts visible.
- The bulk-apply loop ignores the responses to its writes.

## Model

| member | source | states |
|---|---|---|
| `TagList.IndexOf` | content.js:154 | the index `indexOf` finds for a tag in the list is its first occurrence: it holds the tag and no earlier position does |
| `TagList.Toggled` | content.js:152-157 | the toggled list: the first occurrence spliced out when the tag is present, the tag pushed at the end when absent; its properties are stated by `ToggledShape`, `ToggledMembership` and `ToggleTwice` |
| `TagList.ToggledShape` | content.js:152-157 | if the tag is present, the toggled list is the old one with the first occurrence spliced out and everything else kept in order; if absent, the tag is pushed at the end; as multisets, one copy leaves or joins |
| `TagList.ToggledCount` | content.js:152-157 | a toggle removes exactly one copy of a present tag or adds exactly one copy of an absent one, counting copies |
| `TagList.ToggledMembership` | content.js:152-157 | on a duplicate-free list, a toggle flips exactly the membership of that tag, and the result is again duplicate-free |
| `TagList.ToggleTwice` | content.js:152-157 | on a duplicate-free list, toggling twice restores membership; an absent tag leaves the list exactly as it was, a present one moves to the end |
| `TagList.ToggleTwiceOnDuplicate` | content.js:152-157 | whenever the tag occurs two or more times, two toggles remove two copies of it instead of restoring the list |
| `Decorate.ToggleTag` | content.js:148-166 | posts the toggled list. If the write succeeds, the button turns red exactly when the tag was absent before, and the stored record becomes the toggled book. If it fails, the colour and stored record are unchanged and the response body is alerted. A missing record makes the handler do nothing |
| `Decorate.ToggleColorMatchesDecoration` | content.js:160 | after a successful toggle of a list in which the toggled tag occurs at most once, the button's colour is the one a fresh decoration of the stored record would give it |
| `Decorate.ToggleColorStaleOnDuplicate` | content.js:152-160 | whenever the toggled tag occurs two or more times, a copy stays after the splice: the button turns white, though a fresh decoration would paint it red |
| `Decorate.ColorFor` | content.js:125-131 | the `hasTag ? "red" : "white"` choice; `MakeTagButtons` paints each button with it and `ToggleColorMatchesDecoration` ties the toggle's colour to it |
| `Wire.Join` | content.js:176 | the joined tags string starts with the first tag |
| `Wire.SplitJoin` | content.js:176 | splitting the joined string on the separator gives back every list of non-empty, space-free tags |
| `Wire.JoinAmbiguous` | content.js:176 | a tag containing a space is not wire-safe: `["a b"]` and `["a", "b"]` are sent alike |
| `Wire.RequestBody` | content.js:173-177 | the `setTags` body: both identifiers and the space-joined tags; `RequestRoundTrip` states that it keeps the identifiers and decodes back to the whole tag list |
| `Wire.RequestRoundTrip` | content.js:172-177 | the posted body carries the book's id and service id, and its tags field decodes to the book's whole tag list |
| `Wire.Decimal` | content.js:88 | the numeral printed for a progress count is a non-empty string of digits |
| `Wire.ValueDecimal` | content.js:88 | reading a printed numeral back gives the number |
| `Wire.ProgressText` | content.js:88 | the `${i + 1} / ${books.length}` counter; `ProgressTextInjective` states that distinct counts give distinct texts, none of them "" |
| `Wire.ProgressTextInjective` | content.js:88 | two progress texts `i / n` are equal only for equal counts, and none is the cleared text "" |
| `Search.FirstStop` | content.js:197-208 | the loop's stopping page is a failed or empty page, and every earlier page succeeded with at least one book |
| `Search.SearchResult` | content.js:197-209 | what `searchBooks` resolves to: the books of every page before the first empty page, or nothing when a page fails first; `SearchLength`, `LaterPagesIgnored` and `SearchAllOrNothing` state its properties and `SearchBooks` is proved equal to it |
| `Search.Requests` | content.js:194-207 | the page requests 1, 2, … in order, as the page counter that starts at 1 and is incremented after each page produces them; `SearchBooks`' loop invariant ties its trace to them |
| `Search.SearchEffects` | content.js:197-202 | what `searchBooks` does on the way: one request per page up to the stopping page, then an alert with the body if that page failed; `SearchBooks` is proved to produce it, `LaterPagesIgnored` states that later answers leave it unchanged, and `SearchWritesNothing` that it holds no write |
| `Search.SearchBooks` | content.js:189-210 | the loop returns the concatenation of all pages before the first empty page, or nothing when a page fails first. It requests pages 1 to k+1 for stopping page k, and alerts the body of a failed page |
| `Search.SearchLength` | content.js:204-206 | the result holds as many books as the pages before the stopping page hold together, and each of those pages was non-empty |
| `Search.LaterPagesIgnored` | content.js:197-208 | the answers for pages after the stopping page change neither the requests nor the result, so nothing after that page is requested |
| `Search.SearchAllOrNothing` | content.js:200-203 | the search returns nothing exactly when some page fails before any page comes back empty; it never returns a partial list |
| `BulkApply.Lacking` | content.js:90 | the books selected for writing are exactly those found whose tags lack the bulk tag |
| `BulkApply.WithTag` | content.js:91 | the book with the bulk tag pushed onto its tags; `BulkWrites` and `HandlerWrites` state that each write decodes to the old tags followed by the tag, once |
| `BulkApply.ItemEffects` | content.js:88-92 | handling one found book: the progress text `i+1 / n` first, then the write with the bulk tag appended, unless the book already has it |
| `BulkApply.ApplyEffects` | content.js:87-93 | the loop over the first i found books, item after item; `ApplyWrites`, `ApplyShows`, `BulkWrites` and `HandlerWrites` state which writes and progress texts it holds; `TagAll` is proved to produce it and `OnKeyPress` places it in the handler's whole trace |
| `BulkApply.ApplyWrites` | content.js:87-93 | over the first i items, the writes are one per book lacking the tag, in list order, each with the tag appended |
| `BulkApply.ApplyShows` | content.js:87-88 | the progress text is set to `j+1 / n` for item j, for every item in order |
| `BulkApply.BulkWrites` | content.js:87-93 | the write count is the number of found books lacking the tag, and a book already tagged gets no write. Each write decodes to that book's old tags followed by the tag, once |
| `BulkApply.WriteDecodes` | content.js:90-91 | one book's write decodes to its old tags followed by the bulk tag |
| `BulkApply.TwoBookExample` | content.js:87-93 | for books tagged `["A"]` and `["A","X"]`, bulk tag `X` gives one write, for the first book, with tags `A X` |
| `BulkApply.AddTagSafe` | content.js:65 | the bulk tag is non-empty and has no space, so the space-joined encoding carries it |
| `BulkApply.SearchWritesNothing` | content.js:86-87 | the search part of the handler issues no write, whether the search succeeds or fails |
| `BulkApply.HandlerWrites` | content.js:86-103 | in the handler's whole trace there is no write when the search fails. Otherwise the writes are one per found book lacking the bulk tag, in list order, each decoding to that book's tags followed by the bulk tag |
| `BulkApply.AddTagsBox.TagAll` | content.js:87-93 | the loop over the found books produces exactly the trace `ApplyEffects` describes (per book its progress text, then the write unless tagged), leaves the input alone, and ends with the counter showing `n / n` (or unchanged when nothing was found) |
| `BulkApply.AddTagsBox.OnKeyPress` | content.js:76-103 | a non-Enter key does nothing. An empty keyword plays NG only. A failed search leaves only the search's requests and alert, with the input still disabled. Otherwise the trace is the search, then per item its progress text and any write, then the cleared text. The cue is OK iff at least one book was found; the input is then empty and enabled |
| `Decorate.MakeTagButtons` | content.js:117-138 | a wrapper already injected or without book data is left untouched. Otherwise one new group is appended, holding one fresh button per catalog tag in catalog order, red iff the book has that tag, and the wrapper is marked injected |
| `Decorate.Pass` | content.js:37-41 | one polling pass decorates each un-injected wrapper that has book data and leaves the others unchanged. Two different wrappers get different new groups. Afterwards every wrapper is injected or has no book data, so a second pass changes nothing |
| `Decorate.TagsButton.Click` | content.js:53-60 | each click flips the flag, and every group ends hidden exactly when the flag is now set |

## Left out

- Reading the tag catalog from the tag modal at start-up (content.js:19-27) is DOM scraping. The
  catalog is an input to `MakeTagButtons` and `Pass`.
- Element creation, insertion into the header menu, and every style except the red/white
  background and `hidden` are browser plumbing.
- `fetch`, `URL`/`URLSearchParams` and the double `encodeURIComponent` of the keyword are network
  and library calls. A request is recorded as `Fetch(keyword, page)` or `Post(body)`; the server's
  answers are parameters. Rejected fetches (network errors) are not modelled; only ok and not-ok
  responses are.
- `JSON.parse`/`JSON.stringify` of `data-book` are taken as the identity on a typed `Book`. An
  absent or empty attribute is `None`; malformed JSON is not modelled.
- `alert`, the two base64 audio cues (content.js:212-218) and `$input.focus()` are UI side
  effects. The first two are `Alert` and `Beep` effects; focus is not modelled.
- `wait`, the 100 ms and 10 ms start-up delays and the endless `while (true)` of `main` are
  timing. `Pass` is one iteration of the loop. Interleaving of the handlers on the event loop is
  not modelled: each handler runs to completion on its own inputs.
- Search.SearchBooks: requires that some page eventually fails or is empty. The script would
  request pages forever from a server that never sends an empty page, and that run is not
  modelled.
- Decorate.Pass: states that each new group is fresh and that different wrappers get different
  groups, but leaves the freshness and distinctness of the buttons inside a group to
  `MakeTagButtons`.
