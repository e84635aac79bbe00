# Post manager: a Dafny model of the state logic of `src/App.tsx`

The repository is a single React component. It lists blog posts fetched from a
REST endpoint, searches them, pages through them ten at a time, and creates,
edits and deletes them through two modal dialogs. This project models the
component's state logic and proves properties of it:

- the post collection `data` and the three transforms its handlers apply.
  Add prepends the created post. Edit `map`s every post with the edited id to
  the server's answer. Delete `filter`s out the posts with the deleted id.
- the derived views, recomputed on every render: the case-insensitive search
  (`filteredData`), the current page (`currentPosts`) and the page count
  (`totalPages`).
- the dialog form: `validateForm` (both fields required after `trim`),
  `handleChange`, the Cancel buttons and `openEditModalHandler`.
- the Add/Edit open flags and the `isFetched` latch around the initial load.

Files and modules:

- `text.dfy`, module `Text`: `trim` with the ECMAScript whitespace set,
  lower-casing and `includes`.
- `posts.dfy`, module `Posts`: the `Post` record, the filter `Select`, and
  `Prepend`, `Replace` and `Remove`.
- `views.dfy`, module `Views`: `Search`, JavaScript `slice`, `Paginate` and
  `TotalPages`.
- `form.dfy`, module `FormState`: the `Fields` record shared by `formdata` and
  `errors`, and the validation rule.
- `manager.dfy`, module `Manager`: class `PostManager`, whose fields are the
  component's state variables and whose methods are its handlers.

The pure parts (the list transforms and the views) are functions with lemmas.
The handlers update state step by step, so they are methods of `PostManager`.
Each method's `modifies` clause names the fields it may change.

Each network call (`fetch` followed by `response.json()`) is a parameter
holding its outcome: `Some(value)` when the call resolved with a JSON value,
`None` when it threw. The Add and Edit submit handlers return the request they
would send, or `None` when they send none; the delete handler returns the id
its DELETE request targets. This makes "an invalid form makes no gateway call" a
postcondition.

Where the code differs from what a reader might expect:

- A failed initial load leaves the collection as it was (empty, since it
  starts empty).
- Edit replaces every post whose id matches, not just one.
- Nothing in the code keeps ids unique. The lemmas about uniqueness therefore
  take it as a precondition, and it is not a class invariant.
- When no post is being edited, Edit submit short-circuits on
  `!editData || !validateForm()`. Validation is then skipped, so the errors are
  left untouched.

## Model

| member | source | states |
|---|---|---|
| Text.TrimStartSpec | src/App.tsx:62 | the leading part `trim` drops is all whitespace, and what remains is empty or starts with a character that is not whitespace |
| Text.TrimEndSpec | src/App.tsx:67 | the trailing part `trim` drops is all whitespace, and what remains is empty or ends with a character that is not whitespace |
| Text.BlankIffAllWhitespace | src/App.tsx:62-70 | `!s.trim()` holds exactly when every character of `s` is whitespace |
| Text.Trim | src/App.tsx:62 | `trim` returns no more characters than it was given, and a non-empty result starts and ends with a character that is not whitespace |
| Text.IsBlank | src/App.tsx:62 | `!s.trim()`; `Text.BlankIffAllWhitespace` characterises it as "every character is whitespace" |
| Text.Lower | src/App.tsx:164-165 | `toLowerCase` keeps the length and maps each character on its own, `A`-`Z` to `a`-`z` and every other character to itself |
| Text.LowerAppend | src/App.tsx:164-165 | lower-casing distributes over concatenation |
| Text.LowerIdempotent | src/App.tsx:164-165 | lower-casing an already lower-cased term changes nothing |
| Text.Includes | src/App.tsx:164-165 | `includes` is false whenever the term is longer than the string; `Text.IncludesIff` characterises it fully |
| Text.IncludesIff | src/App.tsx:164-165 | `includes` holds exactly when the term occurs at some position of the string |
| Text.IncludesEmpty | src/App.tsx:164-165 | every string includes the empty term |
| Posts.Select | src/App.tsx:162-166 | `Array.prototype.filter`; `Posts.SelectSpec` states what it returns |
| Posts.SelectSpec | src/App.tsx:162-166 | `filter` returns a subsequence of its input, no longer than it, holding exactly the elements the callback accepts, each as many times as the input holds it |
| Posts.SelectAgree | src/App.tsx:162-166 | two callbacks that agree on every element filter the list alike |
| Posts.SelectAppend | src/App.tsx:162-166 | filtering a concatenation is the concatenation of the filtered parts, so the order of the kept elements is that of the input |
| Posts.SelectAll | src/App.tsx:148 | a filter that accepts every element returns its input unchanged |
| Posts.CountId | src/App.tsx:148 | the count of posts with an id is zero exactly when no post has that id |
| Posts.CountIdUnique | src/App.tsx:148 | with unique ids, an id is carried by one post if present and by none otherwise |
| Posts.Prepend | src/App.tsx:93 | after add, the created post is at index 0 and the old collection follows in its original order |
| Posts.PrependUnique | src/App.tsx:93 | prepending a post whose id is unused keeps ids unique |
| Posts.Replace | src/App.tsx:121-123 | edit keeps the length; each post with the edited id becomes the answer and every other post is unchanged |
| Posts.ReplaceAbsent | src/App.tsx:121-123 | editing an id that no post carries leaves the collection unchanged |
| Posts.ReplaceKeepsIds | src/App.tsx:121-123 | when the answer carries the edited id, every position keeps its id and unique ids stay unique |
| Posts.ReplaceExample | src/App.tsx:121-123 | replacing id 2 in `[{1,"a"},{2,"b"}]` with `{2,"c"}` gives `[{1,"a"},{2,"c"}]` |
| Posts.Remove | src/App.tsx:148 | delete keeps, in order, exactly the posts whose id differs from the deleted one, each as many times as before |
| Posts.RemoveCount | src/App.tsx:148 | delete shortens the collection by the number of posts carrying the id |
| Posts.RemoveUnique | src/App.tsx:148 | with unique ids, delete removes one post when the id is present and changes nothing when it is absent |
| Posts.SelectKeepsUnique | src/App.tsx:148 | filtering a collection whose ids are unique leaves them unique |
| Posts.RemoveKeepsUnique | src/App.tsx:148 | delete keeps ids unique |
| Views.Matches | src/App.tsx:163-165 | the search callback: the lower-cased term occurs in the lower-cased title or body; `Views.Search` and the lemmas below state what it selects |
| Views.Search | src/App.tsx:162-166 | the filtered list is a subsequence of the collection; a post is kept exactly when the lower-cased term occurs in its lower-cased title or body, and a kept post appears as many times as in the collection |
| Views.MatchesIgnoresTermCase | src/App.tsx:164-165 | a post matches a term exactly when it matches the lower-cased term |
| Views.SearchIgnoresTermCase | src/App.tsx:162-166 | two terms with the same lower-case form select the same list |
| Views.SearchUpperCaseTerm | src/App.tsx:162-166 | the terms "WORLD" and "world" select the same list from any collection |
| Views.SearchEmptyTerm | src/App.tsx:162-166 | the empty term keeps the whole collection in order |
| Views.SearchExample | src/App.tsx:162-166 | the term "WORLD" keeps "Hello World" and drops "foo" |
| Views.ClampIndex | src/App.tsx:171 | a `slice` index ends up in `[0, n]`, and a non-negative index is clipped to `n` |
| Views.Slice | src/App.tsx:171 | `slice(start, end)` has at most `end - start` elements and, for non-negative bounds, is the clipped range |
| Views.Paginate | src/App.tsx:169-171 | a page holds at most 10 posts; page `p >= 1` is the filtered list from `(p-1)*10` to `p*10`, clipped, and it is empty past the end |
| Views.TotalPages | src/App.tsx:172 | the page count is the least `t` with `n <= 10*t` |
| Views.PageEmptyIffPastEnd | src/App.tsx:169-172 | a page numbered from 1 is empty exactly when it is beyond the page count |
| Views.PagesPrefix | src/App.tsx:169-171 | pages 1 to `k` placed end to end are the first `10*k` posts |
| Views.PagesCover | src/App.tsx:169-172 | pages 1 to `totalPages` placed end to end are the filtered list, with nothing lost or repeated |
| Views.PaginateExample | src/App.tsx:169-172 | 25 posts give pages of 10, 10 and 5 posts, an empty fourth page and a page count of 3 |
| FormState.Fields.With | src/App.tsx:136 | `{ ...fields, [name]: v }` sets the named field and keeps the other |
| FormState.IsValid | src/App.tsx:58-74 | the value `validateForm` returns: neither field is blank; `FormState.ValidIffNoErrors` and `FormState.ValidIffVisibleText` characterise it |
| FormState.RequiredErrors | src/App.tsx:58-74 | the title message is "Title is required" exactly when the title is blank, and likewise the body message; each depends only on its own field |
| FormState.ValidIffNoErrors | src/App.tsx:58-74 | the form is valid exactly when validation records no message |
| FormState.ValidIffVisibleText | src/App.tsx:58-74 | the form is valid exactly when both title and body contain a character that is not whitespace |
| FormState.ValidationExamples | src/App.tsx:58-74 | title "" with body "B" gives only the title message; "T" with "B" is valid |
| Manager.PostManager.constructor | src/App.tsx:30-39 | the initial state: no posts, both dialogs closed, latch open, empty fields and errors, no post being edited, empty search, page 1 |
| Manager.PostManager.Mount | src/App.tsx:41-56 | only the first run fetches; it closes the latch and, on success, replaces the collection; later runs change nothing |
| Manager.MountTwice | src/App.tsx:52-55 | two runs of the mount effect in a row issue exactly one fetch |
| Manager.PostManager.ValidateForm | src/App.tsx:58-74 | returns whether the form is valid, records the per-field messages, and is true exactly when no message was recorded |
| Manager.PostManager.HandleAddPost | src/App.tsx:76-100 | an invalid form sends nothing and changes only the errors; a valid one is sent, and on success the answer is prepended, the fields are cleared and the dialog closes; on failure collection, fields and dialog stay |
| Manager.PostManager.HandleEditPost | src/App.tsx:102-130 | with no post being edited nothing is validated or sent; otherwise as for add, with the PUT aimed at the edited id and the collection passed through `Replace` |
| Manager.PostManager.HandleChange | src/App.tsx:132-141 | sets the named field, clears that field's error only if it was set, and keeps the other field and its error |
| Manager.PostManager.HandleDelete | src/App.tsx:143-153 | the DELETE is always sent for the given id; once it completes the collection is `Remove(old, id)`, otherwise it is unchanged |
| Manager.PostManager.OpenEditModal | src/App.tsx:155-159 | records the post, seeds the fields from its title and body, and opens the Edit dialog |
| Manager.PostManager.OpenAddModal | src/App.tsx:309 | opens the Add dialog and changes nothing else |
| Manager.PostManager.CancelAdd | src/App.tsx:230-234 | closes the Add dialog and empties fields and errors |
| Manager.PostManager.CancelEdit | src/App.tsx:291-295 | closes the Edit dialog and empties fields and errors |
| Manager.PostManager.CloseAddModal | src/App.tsx:181 | closing the Add dialog from its frame only clears its flag |
| Manager.PostManager.CloseEditModal | src/App.tsx:242 | closing the Edit dialog from its frame only clears its flag |
| Manager.PostManager.SetSearchTerm | src/App.tsx:320 | the search input sets the term and leaves the page alone |
| Manager.PostManager.HandlePageChange | src/App.tsx:174-176 | a page change sets the current page |
| Manager.PostManager.FilteredPosts | src/App.tsx:162-166 | the current filtered list is a subsequence of the collection, holding exactly its matching posts, each as many times as the collection does |
| Manager.PostManager.CurrentPosts | src/App.tsx:168-171 | the rendered page has at most 10 posts, each in the collection and matching the term |
| Manager.PostManager.PageCount | src/App.tsx:172 | the page count is the least number of pages of 10 that hold the filtered list |

## Left out

- Network I/O (`fetch`, `response.json()`, URLs, headers, `JSON.stringify`). Each call's outcome is a parameter. A non-2xx answer whose body parses as JSON counts as a success, as in the code.
- Toast notifications and `console.log`: they only present messages and change no state.
- JSX rendering, CSS classes and the flowbite `Modal`, `Table`, `Pagination` and `Badge` components.
- Async interleaving: the model runs every handler to completion, with its gateway outcome already known. Stale closures over an older `data` when requests overlap are not modelled.
- Text.Lower: lower-cases only the ASCII letters `A`-`Z`; full Unicode `toLowerCase` (including case mappings that change a string's length) is not modelled.
- Strings are sequences of Unicode scalar values, not UTF-16 code units, so `includes` and `slice` on surrogate pairs are not modelled.
- `Math.ceil(n / 10)` on floating point is integer ceiling division. The two agree for every list length.
- `userId` is carried in `Post` but nothing reads it.
- `handleChange` accepts only the two field names the inputs carry. An input with any other `name` would add a new key to `formdata`; no such input exists.
