# Portfolio site: project list, cache gate, escaping and tag chips

A Dafny model of the logic inside the client-side script of a static
portfolio site. The script comes in two variants. `assets/site.js` loads
GitHub repositories through a ten-minute cache and merges them with a
curated local list. `site.js` renders only the local list, escapes text
before it reaches the markup, and highlights the selected tag chip.
Around the page glue there are a handful of deterministic steps:

- **Normalisation** (`Projects`). Repositories that are forks, archived,
  or not tagged `portfolio` are dropped. Each one left becomes a card: the
  hyphens in its name become spaces, its topics become its tags, and it is
  featured when the topics include `featured`.
- **Merge and de-duplication** (`Projects`). The remote cards come before
  the local ones. `dedupeByTitle` then keeps the first card of each title,
  using a `seen` set (method `DedupeByTitle`, specified by the function
  `Dedupe`).
- **View model** (`Projects`). The tag list is the sorted, duplicate-free
  union of all tags. The tag filter treats `'All'` as "no filter". The home
  page shows the first six featured cards.
- **Cache gate** (`Cache`). One storage slot under the fixed key
  `gh_projects_cache_v1`. An entry younger than 600000 ms (strict `<`)
  answers the call. Otherwise the network is asked: a reply that is not
  ok fails, and an ok reply is stored as `{timestamp: now, data}` and
  returned. The class `CacheGate` holds the slot. The network is a
  `Response` parameter, and a `requests` field records every URL sent.
- **Tag chips** (`Grid`). `GridView` holds `state.tag` and `render()`'s
  filter. `ChipBar` adds one highlight flag per chip, and its click method
  loops over the flags the way the handler loops over `tagBar.children`.
- **HTML escaping** (`Escape`). `escapeHtml` is modelled as written: five
  chained `replaceAll` passes, `&` first. This is proved equal to a
  per-character encoder. A decoder of the five entities proves the
  encoding can be undone, and therefore that it is injective.
- **Base path** (`BasePath`). `pathname.replace(/[^/]*$/, '')` removes the
  trailing run of characters that are not `/`.

Generic pieces: `Seqs` has JavaScript's `filter` and `slice(0, n)`, plus
`SelectsWhere(r, s, keep)`. That predicate says `r` is exactly the
elements of `s` at the positions where `keep` holds, in their order; an
ascending index list is the witness. `Strings` has the default string
order of `Array.prototype.sort` and the sorted list of distinct strings.
`Wrappers` has `Option`, for fields that may be null.

## Model

| member | source | states |
|---|---|---|
| Projects.CardTitle | assets/site.js:51 | the card title has the repository name's length, contains no `-`, has a space wherever the name has `-`, and keeps every other character |
| Projects.NormaliseSpec | assets/site.js:44-59 | normalisation yields one card per repository that is not a fork, not archived and has the `portfolio` topic, in input order; there are as many cards as such repositories, and card k is made from the k-th of them |
| Projects.ToCardShape | assets/site.js:50-59 | a card made from a portfolio repository has a hyphen-free title as long as the name, its topics as tags (so `portfolio` among them), and `featured` exactly when the topics contain `featured` |
| Projects.DedupeByTitle | assets/site.js:106-109 | the loop over the list with a `seen` set computes `Dedupe(list)`; its result has distinct titles and exactly the input's titles |
| Projects.DedupeTitles | assets/site.js:106-109 | every title of the input appears in the output, and no other |
| Projects.DedupeDistinct | assets/site.js:106-109 | no two output records share a title |
| Projects.DedupeKeepsFirst | assets/site.js:106-109 | the output is exactly the records that are the first of their title, in input order (an order-preserving subsequence) |
| Projects.DedupeOfDistinct | assets/site.js:106-109 | a list whose titles are already distinct is returned unchanged |
| Projects.DedupeIdempotent | assets/site.js:106-109 | applying the de-duplication twice gives the same result as applying it once |
| Projects.MergeShadows | assets/site.js:74-75 | merging remote before local gives the de-duplicated remote list followed by the de-duplicated local records whose title no remote record has |
| Projects.RemoteWins | assets/site.js:74-75 | for a title that remote supplies, the merged record with it is remote's first record with that title; every merged record whose title remote lacks comes from the local list |
| Projects.MergeExample | assets/site.js:74-75 | remote "Foo Bar" and local "Foo Bar", "Baz" merge to remote's "Foo Bar" followed by local "Baz" |
| Projects.UniqueTagsSpec | assets/site.js:87 | the tag list is strictly ascending, so it has no duplicates, and holds exactly the tags that some record carries |
| Projects.UniqueTagsCanonical | assets/site.js:87 | any strictly ascending list of exactly the used tags equals the tag list: the sorted set is unique |
| Projects.UniqueTagsExample | site.js:42-44 | records tagged `["a","b"]`, `["b"]` and `[]` give `["a","b"]`; a record with no tags adds nothing |
| Projects.FilterByTagSpec | assets/site.js:92 | for `'All'` the filter returns every record in order; for any other tag it returns exactly the records carrying it, in input order |
| Projects.FilterByUnusedTag | site.js:50-54 | a tag other than `'All'` that no record carries selects no record |
| Projects.FeaturedSpec | assets/site.js:80 | at most six cards, all featured; a record is shown exactly when it is featured and fewer than six featured records precede it, in input order |
| Projects.FeaturedWhenFew | site.js:32-35 | when at most six records are featured, the home page shows all of them, in input order |
| Cache.CacheGate.constructor | assets/site.js:22 | the gate starts from whatever the storage slot holds, with no request sent |
| Cache.CacheGate.FetchWithCache | assets/site.js:20-30 | hit (slot present and `now - timestamp < 600000`): returns the stored data, sends no request, leaves the slot as it was; miss: sends exactly one request for `url`; a non-ok status fails with that status and a transport failure fails, both leaving the slot as it was; an ok reply stores `{now, data}` and returns the data |
| Cache.TwoFetches | assets/site.js:17-30 | from empty storage, after a successful first call, a second call less than the TTL later returns the first call's data for any URL, with one request in all; at or after the TTL, or after a failed first call, two requests are sent |
| Grid.GridView.constructor | assets/site.js:87-88 | the chips are `'All'` followed by the tag list, and the selected tag starts as `'All'` |
| Grid.GridView.Select | assets/site.js:99 | a click on a chip sets the selected tag to that chip's label and keeps the view valid |
| Grid.ChipLabelsUsed | assets/site.js:95 | every chip label, and so every selected tag, is `'All'` or a tag some record carries |
| Grid.ChipBar.constructor | site.js:58-75 | corrected start state: builds one flag per chip, and for every project list, including one with a tag named `'All'`, exactly one chip is highlighted, the leading `'All'` chip, whose label is the selected tag `'All'` (the invariant `Valid`, which `Click` keeps) |
| Grid.ChipBar.Click | site.js:64-72 | after a click on chip i the selected tag is chip i's label, chip i is the only highlighted chip, and the grid shows the records filtered by that label |
| Grid.InitialActiveAsWrittenAgrees | site.js:73 | when no record carries a tag named `'All'`, the highlight as written equals the corrected one |
| Grid.TagNamedAllHighlightsAnother | site.js:59-73 | as written, once any record carries a tag named `'All'`, the leading chip and at least one later chip start highlighted |
| Grid.TagNamedAllHighlightsTwoChips | site.js:59-73 | as written, a record tagged `'All'` produces two `'All'` chips and both start highlighted |
| Escape.EscapeHtmlIsPerCharacter | site.js:130-137 | the five chained passes equal encoding each character on its own: because `&` is replaced first, no pass re-encodes an entity an earlier pass wrote |
| Escape.EscapeHtmlSafe | site.js:130-136 | the output contains no `<`, `>`, `"` or `'` |
| Escape.EscapeHtmlUnchanged | site.js:130-136 | the output equals the input exactly when the input contains none of `&<>"'` |
| Escape.EscapeHtmlLength | site.js:132-136 | the output is the input's length plus 4 per `&`, 3 per `<` or `>`, and 5 per `"` or `'`, so it is never shorter |
| Escape.UnescapeEscapeHtml | site.js:131-136 | decoding the five entities recovers the original string |
| Escape.EscapeHtmlInjective | site.js:131-136 | two strings with the same escaped form are equal |
| BasePath.StripFileName | site.js:22 | the result is a prefix of the path, is empty or ends in `/`, and the removed rest contains no `/` |
| BasePath.StripFileNameUnique | site.js:22 | any split into an empty-or-`/`-terminated prefix and a `/`-free rest is the one the strip makes, which is what `[^/]*$` matches |
| BasePath.StripFileNameSlashes | site.js:22 | the result has as many `/` characters as the path |
| BasePath.StripFileNameIdempotent | site.js:22 | stripping the result again changes nothing |

## Left out

- DOM construction, `card()`, class strings, `innerHTML`, the year display and the theme toggle with its stored preference: page glue with no logic to state.
- `fetch`, `res.json()`, `Promise.all` and the `catch` handlers that turn a failed source into an empty list: network I/O and asynchronous joins. The remote and local lists are given to `Merge` as sequences, and the network answer is given to `FetchWithCache` as a `Response`.
- `Date.now()`: the clock reading is the `now` parameter. Reading the year out of `pushed_at` is the `yearOf` parameter of `Normalise`; date parsing is not modelled.
- `new URL(...)`, `document.querySelector('base')` and `window.location.origin`: browser APIs. Only the strip applied to `pathname` is modelled.
- JSON serialisation of the cache entry: the slot holds the entry as a value. A missing or `null` stored entry is `None`; a stored entry with a malformed shape is not modelled. The `headers` argument only travels to `fetch` and is not modelled.
- The error banner of `site.js` and the text of the thrown error: a failed fetch is `Failure(ApiError(status))` or `Failure(NetworkError)`.
- JavaScript truthiness of loosely shaped local records: a card's `tags` is a list (a missing list is empty) and `featured` is a boolean (missing is false).
- `String(str)` in `escapeHtml`: the model's inputs are already strings.
- Strings.Less orders by Unicode scalar value, while JavaScript's default sort compares UTF-16 code units. The two orders differ only when characters outside the Basic Multilingual Plane are involved.
- Grid.ChipBar.constructor highlights only the leading `'All'` chip, which is the corrected behaviour; see Findings for the code as written.
- The URL of the GitHub listing and the `GITHUB_USER` constant: they only name the remote resource.
- The cache has one slot under a fixed key, shared by every URL (assets/site.js:17, 22). So a second URL fetched within the TTL is answered with the first URL's data (`Cache.TwoFetches`).
- Cache.CacheGate.FetchWithCache assumes every storage access succeeds. `localStorage.getItem` (assets/site.js:22) can throw before any request is sent. `localStorage.setItem` (assets/site.js:28) can throw after the request went out, for example when the quota is exceeded or storage is disabled, leaving the slot unchanged; `loadProjects` then turns the error into an empty remote list (assets/site.js:74). The model always reads the slot, and on an ok reply it always writes the slot and returns `Success`.

## Findings

| source | as written | input that shows it | evidently intended | confidence | as-written member | corrected member |
|---|---|---|---|---|---|---|
| site.js:73 | every chip whose label is `'All'` gets the highlight class when the bar is built | a project whose tags include `"All"`: the labels are `['All', 'All']` and both chips start highlighted | only the leading default `'All'` chip starts highlighted, as after any click | low; not executed | Grid.TagNamedAllHighlightsTwoChips | Grid.ChipBar.constructor |
