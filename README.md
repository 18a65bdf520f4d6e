# Blog API core in Dafny

A model of the core of a small blog service (`app.py`). The service stores
posts with a title, content, optional category and creation and update dates.
Each post carries a set of tags, and every tag name is put in a canonical form
before it is stored. The model covers:

- `normalize_tag`, the canonical form of a tag name: strip whitespace,
  lower-case, then delete everything outside `a`-`z` and `0`-`9`
  (`ascii.dfy`, `normalizer.dfy`).
- The request checks of the create and update handlers (`requests.dfy`):
  - what a JSON body may hold (`Json`, `Body`);
  - the field checks in the handlers' order and with their messages;
  - the two ways tag lists become tag names: create drops non-strings, while
    update keeps the first ten entries and raises on a non-string among them.
- SQLite's `LIKE` as the listing uses it: a substring match that ignores
  ASCII case (`like.dfy`).
- The three tables and the five handlers (`store.dfy`):
  - `BlogStore.Store` holds `blogs` and `tags` as maps from their
    AUTOINCREMENT ids, `blog_tags` as a set of (blog id, tag id) pairs, and
    the two id counters;
  - `Store.Valid` is the table invariant: ids below their counters, unique
    canonical tag names, and every link pointing at an existing post and tag;
  - `CreatePost`, `Update` and `Delete` change the tables;
  - `GetBlog` and `GetAllBlogs` read them;
  - every handler answers with an `Outcome` that stands for an HTTP status
    and its body.
- Handler calls in sequence, stated as what a client observes: create then
  read, update then read, delete then read (`scenarios.dfy`).

Some behaviour of the code is easy to miss, and the model keeps it as
written:

- Create has no length limits on title or content. Only update checks
  "title too long" (over 200 characters) and "content too long" (over 10000).
- The `tags` a create or update returns are the normalized request entries,
  repeats included, not a de-duplicated list.
- Update does not filter its tags. A non-string among the first ten entries
  raises inside the handler. The model answers `InternalError` and changes
  nothing, because the handler raises before it opens the database.
- A listing with no matching post is a 404 "No blogs found", not an empty list.
- The handlers commit part-way through (update commits the post row before it
  relinks its tags). The model runs each handler to completion, as one step.

## Model

| member | source | states |
|---|---|---|
| Ascii.LowerChar | app.py:9 | `lower()` on one character: only `A`-`Z` change, to the letter 32 code points up; the result is never upper case |
| Ascii.Lower | app.py:9 | lower-casing keeps the length and maps every character by `LowerChar` |
| Ascii.LowerAppend | app.py:9 | lower-casing commutes with concatenation |
| Ascii.LowerIdempotent | app.py:9 | lower-casing twice is lower-casing once |
| TagNormalizer.StripStart | app.py:9 | the left end of `strip()` lies between the starting index and the end of the string |
| TagNormalizer.StripEnd | app.py:9 | the right end of `strip()` lies between the left end and the starting index, so the stripped text is a slice of the input |
| TagNormalizer.Strip | app.py:9 | `strip()` never lengthens its input; `StripSplits` and `StripOf` state exactly what it keeps |
| TagNormalizer.StripSplits | app.py:9 | the input is leading whitespace, then the stripped text, then trailing whitespace, and the stripped text neither starts nor ends with whitespace |
| TagNormalizer.StripOf | app.py:9 | a text that neither starts nor ends with whitespace, padded with whitespace on both sides, strips back to exactly that text |
| TagNormalizer.StripStartSkipsSpace | app.py:9 | `strip()` removes exactly the leading whitespace: everything skipped is whitespace and it stops at the first other character |
| TagNormalizer.StripEndSkipsSpace | app.py:9 | `strip()` removes exactly the trailing whitespace: everything skipped is whitespace and it stops after the last other character |
| TagNormalizer.KeepTagChars | app.py:10 | deleting `[^a-z0-9]+` leaves only `a`-`z` and `0`-`9` and never lengthens |
| TagNormalizer.Normalize | app.py:8-11 | every normalized name consists of `a`-`z` and `0`-`9` only and is no longer than the input |
| TagNormalizer.KeepTagCharsAppend | app.py:10 | the character filter distributes over concatenation |
| TagNormalizer.KeepTagCharsDropsOthers | app.py:10 | a text with no `[a-z0-9]` character filters to the empty string: removed characters collapse to nothing, not to a separator |
| TagNormalizer.SpacesVanish | app.py:9-10 | whitespace, lower-cased, is deleted entirely by the filter |
| TagNormalizer.FilterIgnoresSpace | app.py:9-10 | whitespace around a text does not change lower-case-then-filter |
| TagNormalizer.NormalizeSkipsStrip | app.py:8-11 | the strip step never changes the result: normalizing is lower-case-then-filter |
| TagNormalizer.NormalizeIgnoresSurroundingSpace | app.py:8-11 | leading and trailing whitespace does not change the normalized name |
| TagNormalizer.KeepTagCharsKeepsNormalized | app.py:10 | the filter leaves a canonical name unchanged |
| TagNormalizer.NormalizeFixesNormalized | app.py:8-11 | a canonical name normalizes to itself |
| TagNormalizer.NormalizeIdempotent | app.py:8-11 | normalizing twice is normalizing once |
| TagNormalizer.NormalizeFixpoints | app.py:8-11 | a name normalizes to itself if and only if it is canonical |
| Like.MatchesAtIff | app.py:317-321 | comparing the window at one position character by character up to ASCII case is the same as comparing the lower-cased texts there |
| Like.ContainsIgnoringCase | app.py:317-321 | `x LIKE '%term%'`, position by position up to ASCII case; a match needs a term no longer than the text |
| Like.ContainsIgnoringCaseIff | app.py:316-321 | `x LIKE '%term%'` holds exactly when the lower-cased term is a substring of the lower-cased text |
| Like.VerbatimOccurrenceMatches | app.py:316-321 | a verbatim occurrence of the term always matches |
| Like.TermCaseIrrelevant | app.py:316-321 | the case of the search term does not change which texts match |
| Requests.CheckFields | app.py:58-71 | never raises; accepts exactly the well-formed objects (non-empty string title and content, string or missing category, list tags); the first failing check, in the order title, content, category, tags, gives the message; on acceptance returns the fields given |
| Requests.ParseCreate | app.py:54-71 | no body is "Bad request"; a non-object body raises; an object body is judged by the field checks with the create wording, so it is accepted exactly when well-formed |
| Requests.ParseUpdate | app.py:132-152 | no body, an empty object or a falsy value is "Bad request"; a truthy non-object raises; a non-empty object is judged by the field checks with the update wording, so it is accepted exactly when well-formed |
| Requests.CleanedTags | app.py:73-78 | the cleaned list is no longer than the input and holds only canonical names |
| Requests.CleanedTagsFrom | app.py:74-78 | every kept name is the normalized form of some string entry |
| Requests.CleanedTagsKeeps | app.py:74-78 | every string entry is kept, normalized |
| Requests.CleanedTagsMembers | app.py:73-78 | a name is in the cleaned list if and only if some string entry normalizes to it |
| Requests.CleanedTagsOfStrings | app.py:73-78 | when every entry is a string, each is kept, in place, as its normalized form |
| Requests.CleanTags | app.py:74-78 | the cleaning loop computes `CleanedTags`, so every kept name is canonical |
| Requests.NormalizeEach | app.py:155 | the comprehension raises exactly when some entry is not a string; otherwise it normalizes each entry in place |
| Requests.UpdateTagNames | app.py:155 | only the first 10 entries count: raises exactly when one of them is not a string, otherwise yields min(length, 10) normalized names in order |
| Requests.CheckUpdate | app.py:132-161 | a body check's 400 message passes through; raises exactly when parsing or the tag names raise; after that, a title over 200 characters is "title too long", then content over 10000 is "content too long"; accepted exactly otherwise, with at most 10 canonical names |
| BlogStore.Selected | app.py:316-323 | no term or an empty one selects every post; a non-empty term selects a post only if it is no longer than its title, content or category |
| BlogStore.SelectedIff | app.py:316-323 | a non-empty term selects a post exactly when, lower-cased, it is a substring of the lower-cased title, content or category (a missing category matches nothing) |
| BlogStore.TagIdsOf | app.py:279-282 | the tag ids selected for a post are exactly those of its links |
| BlogStore.ElemsBound | app.py:92-104 | a list of names has no more distinct names than entries |
| BlogStore.ElemsSnoc | app.py:92 | one more name in the list adds exactly that name to its distinct names |
| BlogStore.NamedIdsRepeat | app.py:94-98 | a name already in the list selects no further tag row |
| BlogStore.NamedIdsFresh | app.py:94-98 | with tag names unique (`name TEXT UNIQUE`), a new name selects exactly the one row holding it |
| BlogStore.NamedIdsCount | app.py:92-104 | with tag names unique (`name TEXT UNIQUE`), linking a list of existing names picks out one tag row per distinct name |
| BlogStore.LinkedNamesOf | app.py:285-295 | the names reached from a post's links are the names of the tag rows it links to |
| BlogStore.Store.constructor | app.py:24-45 | the tables start empty and satisfy the table invariant, and both AUTOINCREMENT counters start at 1, so the first post and the first tag get id 1 |
| BlogStore.Store.FindOrInsertTag | app.py:94-98 | after insert-or-ignore and the lookup, the returned id holds the name; a missing name gets exactly one new row under the tag counter's value; the counter moves up by one on every call, because AUTOINCREMENT draws the id before the UNIQUE check and an ignored insert leaves a gap; a present name changes no row; existing rows, posts and links are untouched |
| BlogStore.Store.LinkTags | app.py:92-104 | insert-or-ignore each name, look its id up, link it: existing tag rows stay, new rows get ids from the tag counter upwards, the tag names become the old ones plus the new, and the links become the old ones plus one per tag named in the list |
| BlogStore.Store.ReplaceLinks | app.py:180-198 | after relinking, the post's links name exactly the given names, one per distinct name; links of other posts are untouched; no tag row is removed or renamed; new rows get fresh ids; the post counter stays |
| BlogStore.Store.LinksOfNewSet | app.py:92-104 | links to exactly the rows named in a list reach exactly its distinct names, one link per distinct name |
| BlogStore.Store.CreatePost | app.py:51-127 | 500 exactly for a non-object body; 400 exactly when the checks reject, with their message, and the tables unchanged; on 201 the reply carries "Blog created successfully!", the post gets the next id, the post counter moves past it, new tag rows get fresh ids, today is both dates, its links name exactly the cleaned tags, other links and tag rows stay, and the reply carries the cleaned tags |
| BlogStore.Store.Update | app.py:131-219 | 500 exactly when the checks raise, 400 exactly when they reject, 404 "Blog not found" exactly for a missing post, each with the tables unchanged; on 200 the row takes the new fields and today as update date, keeps its creation date, its links name exactly the first ten normalized tags, other posts' links stay, no tag row is removed, the post counter stays and new tag rows get fresh ids |
| BlogStore.Store.Delete | app.py:224-252 | 404 "Blog not found" exactly for a missing post, with nothing changed; otherwise the post and its links are gone, other links stay, a tag row survives exactly when some link still uses it, and no orphan tag remains |
| BlogStore.Store.ResolveTagNames | app.py:277-295 | the names read for a post are distinct and are exactly the names of its linked tags, one per link |
| BlogStore.Store.GetBlog | app.py:256-305 | 404 "Not found" exactly for a missing post; otherwise the stored fields with exactly the linked tag names |
| BlogStore.Store.ViewsOf | app.py:329-348 | one reply per selected post, no post twice, each with its stored fields and exactly its linked tag names |
| BlogStore.Store.GetAllBlogs | app.py:309-350 | with no term, or an empty one, every post is listed; otherwise exactly the posts whose title, content or category contains the term ignoring ASCII case; 404 "No blogs found" exactly when no post qualifies |
| Scenarios.CreateThenGet | app.py:84-127 | a created post reads back with the same id, fields and dates and the same set of tag names, each once |
| Scenarios.UpdateThenGet | app.py:167-219 | an updated post reads back with the new fields, the old creation date, today as update date, the new set of tag names and at most 10 tags |
| Scenarios.DeleteThenGet | app.py:231-269 | deleting succeeds exactly for an existing post, and a read afterwards is 404 "Not found" |

## Left out

- HTTP and Flask (routing, `jsonify`, status codes): a handler's answer is an `Outcome`, whose constructors stand for the statuses.
- The sqlite connection, cursors, commits and `close`: each handler runs to completion as one step, with no concurrent requests and no failure part-way.
- Foreign keys are not enforced by sqlite here. The model states the reference integrity the handlers keep as part of `Store.Valid`.
- `create_table` and `app.run`: the constructor starts from the empty tables the DDL creates.
- `DATE('now')`: the caller passes the day as `today`, a day number. The model does not promise `updatedAt >= createdAt`, because nothing makes successive `today` values increase.
- AUTOINCREMENT ids are unbounded counters. The 64-bit rowid limit is not modelled.
- JSON numbers, booleans and nested objects are all `JOther`. The handlers only test them for being strings or lists.
- `request.get_json(silent=True)`: a parse failure is `NoJson`, the same as no body.
- TagNormalizer.Normalize: lower-cases ASCII letters only. Python's `str.lower` also maps a few non-ASCII letters into `a`-`z`, such as KELVIN SIGN U+212A to `k` and U+0130 to `i` followed by a combining dot. The model deletes those characters instead of keeping the ASCII letter.
- BlogStore.Selected: `%` and `_` inside a search term are LIKE wildcards in sqlite; the model matches them literally.
- BlogStore.Store.GetAllBlogs: the order of the listed posts is left unspecified, as is the order of a post's tags in `GetBlog`; neither query has `ORDER BY`.
