# Book store REST API — verified model of the record store

The service keeps an ordered, in-memory slice of book records
(`id`, `title`, `author`, `quantity`), seeded with three books, and
exposes it through five HTTP handlers: list, get by id, create, update by
id and delete by id. This project models that record store and the checks
each handler makes before changing it, and proves what the handlers
guarantee about the store.

Layout (one module per concern, all files verified together):

- `wrappers.dfy` — `Wrappers.Option`.
- `text.dfy` — `Text`: the two Go string helpers the checks use,
  `strings.TrimSpace` (with `unicode.IsSpace`) and `strings.EqualFold`.
- `books.dfy` — `Books`: the `Book` record as a datatype, 64-bit `int` as
  the newtype `int64`, the seed, validation of a new record, the two
  searches and the three changes to the store (`Created`, `Patch`,
  `Removed`) as pure functions, and the ID invariant `StrictlyIncreasing`
  with its preservation lemmas.
- `handlers.dfy` — `Handlers`: each handler as a pure function from the
  store before the request to a `Reply` (with its HTTP status) and the store
  after it, the lemmas about each handler's outcomes, and `Replay`, a
  sequential run of requests, with the invariant proved over any run too
  short to push an ID past MaxInt64.
- `store.dfy` — `BookStore.Store`: the process-wide slice as an object with
  a `books: seq<Book>` field. The handlers are methods that search with
  loops and assign the field, and each is proved to produce exactly the
  reply and store of its `Handlers` function. `BookStore.Lifecycle` is a
  verified client that creates, reads, updates and deletes one record.

Modelling decisions:

- A request's path id and JSON body arrive already decoded, as
  `Parsed(value)`, or refused by their decoders, as `Unparsable(error)`.
- Go's `int` is modelled as it is on a 64-bit platform. The automatic ID
  is "last ID + 1" with Go's wrap-around at MaxInt64, written out in
  `Books.Inc64`.
- The pointer `&books[i]` that `getBookById` hands to the update handler is
  modelled by its index. Writing through it is `books[i := ...]`.
- On an empty store, a valid create reads `books[-1]` and the handler
  panics. The model answers `Panicked` with status 500, the status gin's
  default recovery middleware writes, and leaves the store unchanged.
- Where the usual HTTP convention and the code differ, the model follows
  the code. Update and delete answer 400 for an unknown id (main.go:126,
  main.go:154). A successful get answers 302 (`http.StatusFound`,
  main.go:91).
- "Last ID + 1" looks as if it could reissue a live ID after deletions.
  `Handlers.SeedRunsKeepIdsUnique` shows that it cannot from the seed,
  for any run shorter than MaxInt64 - 3 requests.
  Create, update and delete keep IDs strictly increasing in store order,
  so the last ID is the largest. The one exception is a run long enough to
  reach MaxInt64 (`Handlers.CreateAfterMaxIdWraps`).
- The author branch of the update copies the payload's *title* into the
  author field (main.go:132). This is reproduced as written.
  `Books.AuthorBranchBlanksAuthor` shows its effect: a request that names
  only an author leaves the record with a blank author.

## Model

| member | source | states |
|---|---|---|
| `Text.TrimLeftDropsLeadingSpace` | main.go:56 | TrimSpace's left half keeps a suffix that starts with a non-space and drops only white space |
| `Text.TrimRightDropsTrailingSpace` | main.go:56 | TrimSpace's right half keeps a prefix that ends with a non-space and drops only white space |
| `Text.BlankIffAllSpace` | main.go:56-60 | `TrimSpace(s) == ""` holds exactly when every character of `s` is white space |
| `Text.FoldChar` | main.go:70 | a folded character is never an upper-case ASCII letter, and is either the character itself or its case partner |
| `Text.SameFoldIffCasePartners` | main.go:70 | two characters fold alike exactly when they are equal or ASCII case partners |
| `Text.FoldCharIdempotent` | main.go:70 | folding a folded character changes nothing |
| `Text.Fold` | main.go:70 | a folded string has the same length, holds no upper-case ASCII letter, and at each position has the original character or its case partner |
| `Text.FoldIdempotent` | main.go:70 | folding a folded string changes nothing |
| `Text.EqualFoldIffSameFold` | main.go:70 | two strings match up to case exactly when their folded forms are equal |
| `Text.EqualFoldSameLength` | main.go:70 | strings that match up to case have equal length |
| `Text.EqualFoldReflexive` | main.go:70 | every title matches itself up to case |
| `Text.EqualFoldSymmetricTransitive` | main.go:70 | matching up to case is symmetric and transitive |
| `Text.EqualFoldIffCasePartners` | main.go:70 | two titles match exactly when they have equal length and at every position the same character or its ASCII case partner |
| `Books.Seed` | main.go:18-22 | the store starts with three records whose IDs are 1, 2, 3, strictly increasing |
| `Books.Validate` | main.go:51-66 | a new record is accepted only when no rule is broken; otherwise the reported error is a broken rule, and no broken rule comes earlier in the order ID, title, author, quantity (so a negative quantity is accepted) |
| `Books.TitleTakenIffSomeMatch` | main.go:68-75 | the duplicate search is true exactly when some stored title matches the given one up to case |
| `Books.TitleTakenInPrefix` | main.go:68-75 | a match found in the records scanned so far is a match in the whole store |
| `Books.IndexOf` | main.go:93-101 | the lookup gives -1 exactly when no record holds the ID, and otherwise the smallest index holding it |
| `Books.Created` | main.go:44-46 | create appends one record: the payload under ID last + 1, with every earlier record unchanged |
| `Books.Patch` | main.go:129-135 | the update never changes the record's ID |
| `Books.Removed` | main.go:140-142 | removal by index gives a store one shorter, with the records before the index in place and those after it shifted down by one |
| `Books.IncreasingIdsAreUnique` | main.go:18-22 | strictly increasing IDs are unique |
| `Books.LastHoldsMaxId` | main.go:45 | with strictly increasing IDs, the last record holds the largest ID; when that ID is below MaxInt64, last ID + 1 is one more than it and exceeds every live ID |
| `Books.CreatedKeepsIncreasing` | main.go:44-46 | appending under last ID + 1 keeps IDs strictly increasing when the last ID is below MaxInt64 |
| `Books.RemovedKeepsIncreasing` | main.go:140-142 | removing any record keeps IDs strictly increasing |
| `Books.PatchedKeepsIncreasing` | main.go:129-135 | an update in place keeps IDs strictly increasing |
| `Books.PatchChangesAtMostOneField` | main.go:129-135 | an update keeps the ID and changes at most one field, by priority: non-blank title sets the title; else non-blank author sets the author to the payload's title; else a non-negative quantity sets the quantity; else nothing changes |
| `Books.AuthorBranchBlanksAuthor` | main.go:131-132 | when only the author is given, the stored author becomes blank and differs from the requested author |
| `Books.RemovedIdNotFound` | main.go:140-142 | with unique IDs, the ID of the removed record is no longer found |
| `Books.CreatedIsFound` | main.go:44-46 | on a store with increasing IDs whose last ID is below MaxInt64, the new ID is found at the appended position |
| `Books.PatchedKeepsIndexOf` | main.go:129-135 | an update leaves every lookup by ID where it was |
| `Books.NextIdDropsOnlyAfterLastRemoved` | main.go:45 | with increasing IDs and the last ID below MaxInt64, removing one of two or more records lowers the next automatic ID exactly when it was the last record, and then at most to the removed ID |
| `Handlers.BookByIdOutcomes` | main.go:76-92 | get answers 400 for an unparsable id, 404 exactly when no record holds the id, and 302 otherwise with the first stored record holding that id |
| `Handlers.CreateBookRefusals` | main.go:28-47 | create answers 400 exactly for a malformed or invalid body, 409 exactly for a valid body whose title is taken, 500 exactly for a valid new title on an empty store, and 201 exactly for a valid new title on a non-empty store; every refusal leaves the store as it was |
| `Handlers.CreateBookSuccess` | main.go:44-48 | a 201 create returns the payload under last ID + 1, and the store becomes the old store plus exactly that record |
| `Handlers.UpdateBookByIdOutcomes` | main.go:104-138 | update answers 400 exactly for an unparsable id or body, a payload ID other than 0, or an unknown id, leaving the store as it was; otherwise 200 with the patched first match, written at its index, with its ID kept |
| `Handlers.DeleteBookOutcomes` | main.go:143-161 | delete answers 400 exactly for an unparsable or unknown id, leaving the store as it was; otherwise it returns the record as it was before removal and removes exactly its index |
| `Handlers.DeletedIdIsGone` | main.go:157-160 | after a successful delete on a store with unique IDs, get answers 404 for that id |
| `Handlers.CreatedIsRetrievable` | main.go:44-48 | on a store with strictly increasing IDs whose last ID is below MaxInt64, after a successful create, get by the new ID answers 302 with the created record, and its title now counts as taken |
| `Handlers.CreateThenDeleteRestores` | main.go:44-46 | on a store with strictly increasing IDs whose last ID is below MaxInt64, deleting the record a create has just added returns that record and gives back the original store |
| `Handlers.ApplyKeepsIncreasing` | main.go:45-46 | when IDs are strictly increasing and all at most some bound below MaxInt64, any single request keeps them strictly increasing and at most one above that bound |
| `Handlers.ReplayKeepsIncreasing` | main.go:45-46 | a run of requests keeps IDs strictly increasing and unique, and raises the bound on them by at most one per request, as long as that bound stays within MaxInt64 |
| `Handlers.SeedRunsKeepIdsUnique` | main.go:18-22 | from the seed, every run of at most MaxInt64 - 3 requests leaves the live IDs strictly increasing and unique, and every shorter run leaves a next automatic ID (last ID + 1) that is none of the live IDs |
| `Handlers.CreateAfterMaxIdWraps` | main.go:45 | a valid create of an untaken title after a last record with ID MaxInt64 answers 201 with ID MinInt64, which breaks the ordering |
| `BookStore.Store.constructor` | main.go:18-22 | the store starts as the seed |
| `BookStore.Store.GetBooks` | main.go:24-26 | list replies as `Handlers.GetBooks` says: 200 with every live record in store order |
| `BookStore.Store.IsBookAlreadyExists` | main.go:68-75 | the scan answers true exactly when a stored title matches up to case, and changes nothing |
| `BookStore.Store.GetBookById` | main.go:93-101 | the scan returns the first record holding the ID with its index, or nothing and -1, and changes nothing |
| `BookStore.Store.BookById` | main.go:76-92 | the get handler replies as `Handlers.BookById` says |
| `BookStore.Store.CreateBook` | main.go:28-49 | the create handler replies and changes the store as `Handlers.CreateBook` says, and keeps IDs strictly increasing when the last ID is below MaxInt64 |
| `BookStore.Store.UpdateBookById` | main.go:104-138 | the update handler replies and changes the store as `Handlers.UpdateBookById` says, and keeps IDs strictly increasing |
| `BookStore.Store.RemoveBook` | main.go:140-142 | removal drops exactly position `index`, keeping the order of the rest |
| `BookStore.Store.DeleteBook` | main.go:143-161 | the delete handler replies and changes the store as `Handlers.DeleteBook` says, and keeps IDs strictly increasing |
| `BookStore.Lifecycle` | main.go:28-161 | on a non-empty store with increasing IDs whose last ID is below MaxInt64, creating a record with a valid untaken title, reading it back (302), changing only its quantity (200) and deleting it (404 on the next read) leaves the store exactly as it was |

## Left out

- HTTP routing, the server start-up, `c.Param`, `c.BindJSON` and `c.IndentedJSON` (main.go:24-26, 163-171). The gin library is not part of this model. Requests arrive decoded as `Parsed`/`Unparsable`. Replies are `Handlers.Reply` values carrying their status, not JSON text.
- 32-bit builds. There Go's `int` is 32 bits wide: main.go:45 wraps at MaxInt32 and `strconv.Atoi` refuses ids outside the 32-bit range. The model covers the 64-bit platform only.
- `strconv.Atoi`. A path id arrives as `Parsed(n)` with `n` in the 64-bit range, or as `Unparsable`.
- `Text.FoldChar`: case folding covers ASCII letters only. Go's `strings.EqualFold` also folds non-ASCII letters by Unicode simple folding ("É" and "é", or the Kelvin sign and "k"). Strings are sequences of Unicode scalar values, so invalid UTF-8 is not modelled.
- Concurrency. The slice is shared between requests without locking. The model handles one request at a time.
- Title uniqueness as a store invariant. Only create checks it, and update can introduce duplicate titles, so it is not claimed.
- Slice aliasing and capacity. `append` may share or reallocate the backing array. The model keeps the slice as a value sequence, so pointers held across a change are not modelled. The handlers never hold one.
- The panic on an empty store is modelled as a 500 reply with the store unchanged. The recovery middleware that produces the 500 is not part of this model.
