# Blog post store: a Dafny model

This project models the core of a small Express blog (`capstone-blog/index.js`).
The core is the in-memory post store and the validation of submitted posts.
The store is a `posts` list kept in insertion order plus a `nextId` counter.
The route handlers change it:

- GET `/` lists the posts, newest first.
- POST `/posts` creates a post.
- GET `/posts/:id` shows a post; GET `/posts/:id/edit` shows its edit form.
- PUT `/posts/:id` updates a post; DELETE `/posts/:id` deletes it.
- A catch-all handler renders the 404 page for any unmatched request and for every handler that gives up.

The modules are:

- `Text` (`text.dfy`): string trimming as JavaScript's `String.prototype.trim`
  does it. The white-space set is the WhiteSpace and LineTerminator code points
  of ECMA-262. The module proves that a trimmed core padded with white space
  trims to that core, and the converse. It also proves that trimming is
  idempotent, and that trimming gives the empty string exactly for all-space
  strings.
- `Routes` (`routes.dfy`): the two places the app redirects to, the root and a
  post's page. A post's page path is written with the id in decimal. The
  module proves that parsing the path back gives the same place.
- `Posts` (`posts.dfy`): the post record and the field trimming and validation
  rule. It also has lookup by id (`IndexOf` for the array's `findIndex`, `Find`
  for `find`), the newest-first listing (an insertion sort) and the removal of
  one post.
- `Handlers` (`handlers.dfy`):
  - Each route handler is a function from the store state (and, where the
    handler takes a timestamp, the current time) to the new state and an
    `Outcome`. An `Outcome` is a redirect, a render of a view with a status and
    its locals, or `NotFound` for `next()`.
  - The module defines the store invariant and the lemmas about single
    requests.
  - It also defines runs of many requests, and proves that the invariant holds
    across them and that ids are never reused.
- `Store` (`store.dfy`): the class `Blog`, whose `posts` and `nextId` fields the
  methods change in place, one method per handler. Each method's contract ties
  its new state and outcome to the handler function of its route. The contract
  also states the route's outcome outright, and that the store invariant is
  kept.

## Model

| member | source | states |
|---|---|---|
| `Text.Trim` | capstone-blog/index.js:32-33 | The result neither starts nor ends with white space and is no longer than the input. It is defined as removing leading, then trailing white space; the rows below characterise it. |
| `Text.TrimOfPadded` | capstone-blog/index.js:32-33 | White space, then a string that neither starts nor ends with white space, then white space, trims to exactly that middle string. |
| `Text.TrimSplits` | capstone-blog/index.js:32-33 | Every string is its trim with white space added on both sides; trim removes only leading and trailing white space. |
| `Text.TrimOfTrimmed` | capstone-blog/index.js:48-49 | A string that neither starts nor ends with white space is its own trim. |
| `Text.TrimIdempotent` | capstone-blog/index.js:32 | Trimming twice gives the same result as trimming once. |
| `Text.TrimEmptyIff` | capstone-blog/index.js:35 | A string trims to '' if and only if every character is white space. |
| `Text.TrimStartSplits` | capstone-blog/index.js:32 | Removing leading white space keeps a suffix and drops only white space. |
| `Text.TrimEndSplits` | capstone-blog/index.js:32 | Removing trailing white space keeps a prefix and drops only white space. |
| `Posts.TrimField` | capstone-blog/index.js:32-33 | A field as validation sees it neither starts nor ends with white space, and equals the trim of the submitted string when one was submitted. |
| `Posts.TrimFieldEmptyIff` | capstone-blog/index.js:97-98 | A field becomes '' exactly when it is missing or white space only. |
| `Posts.TrimFieldOfPadded` | capstone-blog/index.js:32-33 | A submitted field made of a non-empty trimmed string padded with white space is read as exactly that string. |
| `Posts.TrimFieldOfTrimmed` | capstone-blog/index.js:97-98 | A submitted field with no white space at either end is read unchanged. |
| `Posts.Accepts` | capstone-blog/index.js:35 | Defined as: both trimmed fields are non-empty (also line 100). Its meaning is stated by `Posts.AcceptsIff`. |
| `Posts.AcceptsIff` | capstone-blog/index.js:35 | A submission passes validation if and only if neither the title nor the content is missing or white space only. |
| `Posts.IndexOf` | capstone-blog/index.js:117 | The result is -1 exactly when no post has the id; otherwise it is the first position holding the id. |
| `Posts.Find` | capstone-blog/index.js:18 | The result is none exactly when no post has the id. Otherwise it is a stored post with that id, and no earlier position holds the id, so it is the first match. |
| `Posts.FindUnique` | capstone-blog/index.js:18 | With unique ids, the post found is the one at the only position holding the id. |
| `Posts.ByNewest` | capstone-blog/index.js:21 | Defined as an insertion sort on `createdAt`, newest first, for the sorted copy at lines 21 and 36. Its properties are in the rows `Posts.ByNewestSorts`, `Posts.ByNewestOfSorted` and `Posts.ByNewestOfOldestFirst`. |
| `Posts.ByNewestSorts` | capstone-blog/index.js:21 | The listing is sorted by `createdAt`, newest first, and is a permutation of the posts (same multiset, same length). |
| `Posts.InsertByDateSorted` | capstone-blog/index.js:36 | Inserting into a newest-first list keeps it newest first. |
| `Posts.InsertByDatePermutes` | capstone-blog/index.js:36 | Inserting adds exactly one occurrence of the new post. |
| `Posts.ByNewestOfSorted` | capstone-blog/index.js:21 | Sorting a list that is already newest first leaves it unchanged, so posts with equal `createdAt` keep their store order. |
| `Posts.ByNewestOfOldestFirst` | capstone-blog/index.js:21 | When posts were created at strictly increasing times, the listing is the store's order reversed. |
| `Posts.Without` | capstone-blog/index.js:123 | Removing by id keeps a sub-multiset of the posts, and no remaining post has the id. |
| `Posts.SpliceIsWithout` | capstone-blog/index.js:117-123 | With unique ids, cutting out the element at the found position equals removing the post with the id and keeping the others in order. |
| `Posts.SpliceMultiset` | capstone-blog/index.js:123 | Cutting out position i removes exactly the element at i from the multiset. |
| `Routes.Decimal` | capstone-blog/index.js:56 | A post id is written as a non-empty string of decimal digits. |
| `Routes.ParseDecimalOfDecimal` | capstone-blog/index.js:60 | Reading the written id back as a number gives the id. |
| `Routes.Href` | capstone-blog/index.js:56 | Defined as the path a redirect sends the client to: `/` (line 124) or `/posts/` then the id in decimal (lines 56 and 112). Its properties are in the rows `Routes.ParseHref` and `Routes.HrefInjective`. |
| `Routes.ParseLocation` | capstone-blog/index.js:59-60 | Defined as the route a redirect path selects: the root, or a post page whose `:id` parameter is read as a decimal number. `Routes.ParseHref` proves that it inverts `Routes.Href`. |
| `Routes.ParseHref` | capstone-blog/index.js:56 | Following a redirect leads to the route it names, with the same id. |
| `Routes.HrefInjective` | capstone-blog/index.js:124 | Different redirect targets have different paths. |
| `Handlers.HandleIndex` | capstone-blog/index.js:20-28 | Defined as the listing render with status 200, the sorted copy, no error and an empty form. `Store.Blog.Index` states its result is a newest-first permutation of the posts. |
| `Handlers.HandleCreate` | capstone-blog/index.js:30-57 | Defined as validate, then append under the next id and redirect. Its properties are in the rows `Handlers.CreateAppends`, `Handlers.CreateRejectsBlank`, `Handlers.CreateKeepsInvariant` and `Handlers.CreateThenShow`. |
| `Handlers.HandleShow` | capstone-blog/index.js:59-71 | Defined as look up, then `NotFound` or render the post. Its properties are in the rows `Handlers.ShowAndEditFind` and `Handlers.AbsentIdNotFound`. |
| `Handlers.HandleEdit` | capstone-blog/index.js:73-86 | Defined as look up, then `NotFound` or render the edit form. Its properties are in the rows `Handlers.ShowAndEditFind` and `Handlers.AbsentIdNotFound`. |
| `Handlers.HandleUpdate` | capstone-blog/index.js:88-113 | Defined as look up, validate, then overwrite the post's title, content and `updatedAt`. Its properties are in the rows `Handlers.UpdateInPlace`, `Handlers.UpdateRejectsBlank`, `Handlers.UpdateKeepsInvariant`, `Handlers.UpdateNeverRewinds` and `Handlers.AbsentIdNotFound`. |
| `Handlers.HandleDelete` | capstone-blog/index.js:115-125 | Defined as find the position, then cut out that element and redirect to the root. Its properties are in the rows `Handlers.DeleteRemovesOne`, `Handlers.DeleteKeepsInvariant` and `Handlers.AbsentIdNotFound`. |
| `Handlers.NotFoundPage` | capstone-blog/index.js:127-132 | Defined as the 404 render with the "Not Found" title and message. `Handlers.Resolve` and `Handlers.AbsentIdNotFound` state when it is sent. |
| `Handlers.Handle` | capstone-blog/index.js:20-132 | Defined as the route table: each request goes to its handler, and an unmatched one to `NotFound`. `Handlers.HandleKeepsInvariant` and `Handlers.HandleCounter` state its properties. |
| `Handlers.Resolve` | capstone-blog/index.js:127-132 | The client never receives a bare `next()`: that outcome becomes the 404 page render, and every other outcome is passed through unchanged. |
| `Handlers.StoredTrimmed` | capstone-blog/index.js:48-49 | Under the invariant, every stored title and content is its own trim. |
| `Handlers.CreateAppends` | capstone-blog/index.js:45-56 | A valid create appends exactly one post. The post has the old `nextId`, which no stored post has, the trimmed fields, and `createdAt == updatedAt == now`. The counter goes up by one, and the outcome redirects to the new post. |
| `Handlers.CreateRejectsBlank` | capstone-blog/index.js:35-43 | Create leaves the state unchanged if and only if a field is missing or white space only. It then renders the index with status 400, the required-fields message and the untrimmed form data. |
| `Handlers.CreateKeepsInvariant` | capstone-blog/index.js:45-54 | Create keeps the invariant: ids unique, between 1 and below `nextId`; posts well formed; no timestamp after `now`. |
| `Handlers.CreateThenShow` | capstone-blog/index.js:56-70 | After a valid create, showing the redirect target renders the new post. |
| `Handlers.ShowAndEditFind` | capstone-blog/index.js:59-86 | Show and the edit form give `NotFound` exactly when no post has the id. Otherwise they render the post holding the id with status 200, and the edit form uses the page title "Edit " plus the post's title. |
| `Handlers.AbsentIdNotFound` | capstone-blog/index.js:63-65 | For an id no post has, show, the edit form, update and delete (also lines 77-79, 92-94, 119-121) all give `NotFound` and leave the state unchanged, and `NotFound` resolves to the 404 page. |
| `Handlers.UpdateInPlace` | capstone-blog/index.js:108-112 | A valid update of an existing id changes only that post's title, content and `updatedAt`. Its id and `createdAt`, the other posts, their order and the counter stay the same. The outcome redirects to the post. |
| `Handlers.UpdateRejectsBlank` | capstone-blog/index.js:100-106 | An invalid update of an existing id leaves the state unchanged. It renders the edit view with status 400 and a draft holding the post's id and timestamps and the untrimmed submitted fields. |
| `Handlers.UpdateKeepsInvariant` | capstone-blog/index.js:108-110 | Update keeps the invariant. |
| `Handlers.UpdateNeverRewinds` | capstone-blog/index.js:108-110 | When the clock is not behind the store, an update keeps every post's id and `createdAt`, and never lowers an `updatedAt`. |
| `Handlers.ReplaceById` | capstone-blog/index.js:108-110 | Overwriting the post at the found position touches no post with another id. |
| `Handlers.DeleteRemovesOne` | capstone-blog/index.js:117-124 | Deleting an existing id removes exactly that post, keeps the others in order and the counter unchanged, and redirects to the root. |
| `Handlers.DeleteKeepsInvariant` | capstone-blog/index.js:117-123 | Delete keeps the invariant. |
| `Handlers.CreateAndDeleteRedirectsDiffer` | capstone-blog/index.js:56 | A valid create redirects to the new post's page, which is never the root a delete redirects to (line 124). |
| `Handlers.HandleKeepsInvariant` | capstone-blog/index.js:20-132 | Any single request keeps the invariant. The counter grows by one exactly on a valid create and never decreases. |
| `Handlers.HandleCounter` | capstone-blog/index.js:47 | Only a valid create moves the counter, by one. |
| `Handlers.RunKeepsInvariant` | capstone-blog/index.js:15-16 | Starting from a state that satisfies the invariant, any sequence of requests whose timestamps never go backwards keeps the invariant and never lowers the counter. |
| `Handlers.IssuedFresh` | capstone-blog/index.js:47 | Over any sequence of requests, the ids handed out are strictly increasing. There is one per valid create, each is between the starting and the final counter, and none was held by a post at the start, so ids are never reused, even after deletes. |
| `Handlers.IssuedCounter` | capstone-blog/index.js:47 | The ids handed out are strictly increasing and fill exactly the counter's range over the run. |
| `Handlers.FirstCreateScenario` | capstone-blog/index.js:30-56 | In an empty store, a create with padded title and content stores them trimmed under id 1 and redirects to post 1. |
| `Handlers.HelloWorldScenario` | capstone-blog/index.js:30-56 | Creating "  Hello  " / " World " in an empty store stores "Hello" / "World" under id 1. |
| `Handlers.EmptyTitleScenario` | capstone-blog/index.js:35-43 | An empty title is refused with status 400 and the store stays empty. |
| `Handlers.EditScenario` | capstone-blog/index.js:88-112 | Create, then update: showing the post gives the new text, the original `createdAt` and the later `updatedAt`. |
| `Handlers.DeleteMissingScenario` | capstone-blog/index.js:115-121 | Deleting an id in an empty store gives `NotFound` and changes nothing. |
| `Store.Blog.constructor` | capstone-blog/index.js:15-16 | The store starts empty with the counter at 1, and the invariant holds. |
| `Store.Blog.Index` | capstone-blog/index.js:20-28 | Renders the index with status 200, a newest-first permutation of the posts, no error and an empty form. The store is not modified. |
| `Store.Blog.Create` | capstone-blog/index.js:30-57 | New state and outcome are those of the create handler, and the invariant is kept. Valid input appends one post under the old counter and redirects to it. Invalid input leaves the store as it was and renders the 400 listing. |
| `Store.Blog.Show` | capstone-blog/index.js:59-71 | Gives `NotFound` exactly when no post has the id. Otherwise it renders that post with status 200 and the post's title as the page title. |
| `Store.Blog.Edit` | capstone-blog/index.js:73-86 | Gives `NotFound` exactly when no post has the id. Otherwise it renders the edit view for that post with status 200 and no error. |
| `Store.Blog.Update` | capstone-blog/index.js:88-113 | New state and outcome are those of the update handler, and the invariant is kept. Every post keeps its id and `createdAt`, and no `updatedAt` goes backwards. A missing id changes nothing; invalid input changes nothing and renders the 400 edit form. Valid input rewrites only the matching post's title, content and `updatedAt` and redirects to it. |
| `Store.Blog.Delete` | capstone-blog/index.js:115-125 | New state and outcome are those of the delete handler, and the invariant and the counter are kept. A missing id changes nothing. An existing id is removed, with exactly that post gone from the multiset, and the outcome redirects to the root. |

## Left out

- Express set-up, body parsing, static files, `method-override` and `listen`
  (lines 1-13 and 134-136) are framework plumbing and are not modelled.
- EJS rendering: a render is the value `Render(view, pageTitle, status, payload)`
  carrying the locals the handler passes. No HTML is produced.
- `new Date()` is a `now: nat` parameter of create and update. The class keeps
  a ghost `clock`, and its methods require that `now` is not earlier than it.
  The source compares and subtracts `Date` values; here timestamps are plain
  numbers.
- `Number(req.params.id)` is not modelled. Ids arrive as an `int`. A path
  segment that does not parse, parses to a fraction, or parses to `NaN` matches
  no post; `AbsentIdNotFound` covers that case. `Routes.ParseLocation` reads
  only the decimal form that the app itself writes.
- A request body field is either absent (`None`) or a string. The `extended`
  URL-encoded parser can also produce arrays or objects; calling `trim` on them
  throws in the source. That path is not modelled.
- Number precision: ids and the counter are unbounded naturals. The loss of
  integer precision past 2^53 in JavaScript numbers is not modelled.
- Sorting: the listing is computed by one particular insertion sort. It puts a
  post ahead of later posts with the same `createdAt`, which is the order a
  stable sort gives. The proofs establish the descending order, the permutation
  property, that sorted input is unchanged, and the reversal case. The engine's
  own sorting algorithm is not modelled.
- Aliasing: the source updates the post object that is shared with the array.
  `Store.Blog.Update` copies the post value, sets the three fields one after
  the other and writes the result back at the found position. The final state
  is the same, but object identity is not modelled.
- Concurrency: requests are handled one at a time, as Node runs these handlers.
