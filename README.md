# Book store service — Dafny model

This project models the in-memory core of a small hapi book-collection
service (`routes.js`). The service keeps one process-wide, insertion-ordered
array `books` of book records and five route handlers act on it:

- **create** (`POST /books`) validates the payload, builds a record with a
  generated id, `finished = (pageCount === readPage)` and
  `insertedAt = updatedAt = now`, and appends it;
- **list** (`GET /books`) filters by `name` (case-insensitive substring),
  `reading` and `finished` (a flag is true only when it is `"1"`), keeps
  insertion order and returns `{ id, name, publisher }` for each match;
- **get** (`GET /books/{bookId}`) returns the first record with that id, or
  404;
- **update** (`PUT /books/{bookId}`) checks the payload, then overwrites the
  client fields and `updatedAt` of the first record with that id, keeping
  `id`, `insertedAt` and `finished` (which is not recomputed), or answers
  404;
- **delete** (`DELETE /books/{bookId}`) filters out every record with that
  id and answers 404 when nothing was removed.

The files:

- `seqs.dfy` (module `Seqs`): order-preserving `Filter`, the behaviour of
  `Array.prototype.filter`, with its lemmas (concatenation, identity,
  length, composition, idempotence).
- `text.dfy` (module `Text`): ASCII lower-casing and substring search, the
  behaviour of `toLowerCase` and `includes` that the name filter uses.
- `books.dfy` (module `Books`): the `Payload` and `Book` records, validation,
  building and revising a record, `findIndex` / `find` / the delete filter
  over the collection, the collection invariant (`WellFormed`: unique ids,
  every record passed validation) and the list query (`Query`, `Matches`,
  `Select`, `Summaries`).
- `routes.dfy` (module `Routes`): the `Response` datatype, the messages
  and status codes, the class `BookStore` whose field `books: seq<Book>` the
  handler methods reassign, and three client methods that check request
  sequences: create then get, update then get, delete twice.

Modelling choices:

- The generated id (`nanoid()`) and the current time
  (`new Date().toISOString()`) are parameters of the handlers.
- A `name` that is missing or empty is the empty string. Page counts are
  `int`, `reading` is `bool`. In a query, an empty `name` means no name
  filter. `reading` and `finished` are `Option<string>`, because the code
  tests them with `!== undefined`: an empty flag is present and means false.
- The update handler does not call `validateBookData`. It repeats the same
  two checks in the same order, with its own messages. The model does the
  same. `Acceptable` is the condition both handlers accept.
- The handlers do not require a fresh id. `AddBook` keeps the invariant
  `Valid()` when the supplied id is fresh, which is what the id generator
  provides.
- `finished` reads as derived from the page counts, but the code computes
  it only at creation. `FinishedGoesStale` shows a record that stays
  finished after an update lowers `readPage`. The model follows the code.

## Model

| member | source | states |
|---|---|---|
| `Books.ValidateBookData` | routes.js:28-46 | the payload is valid exactly when the name is present and `readPage <= pageCount`; a missing name is reported first, the page error only when a name is present |
| `Books.NewBook` | routes.js:60-65 | the created record carries the payload's fields, the given id, `finished` iff `pageCount == readPage`, and `insertedAt == updatedAt == now` |
| `Routes.BookStore.AddBook` | routes.js:48-77 | an invalid payload gives 400 with the validation message and leaves `books` unchanged; a valid one gives 201 with the id and appends exactly `NewBook(...)` after the old records; with a fresh id the invariant (unique ids, valid records) is kept |
| `Books.WellFormedAppend` | routes.js:60-66 | appending a validated record with a fresh id to a well-formed collection keeps ids unique |
| `Seqs.Filter` | routes.js:85-87 | the result has the elements of the input that satisfy the predicate and no others, and is no longer than the input |
| `Seqs.FilterConcat` | routes.js:199 | filtering distributes over concatenation, so relative order is kept |
| `Seqs.FilterAll` | routes.js:199 | a filter that every element passes returns its input unchanged |
| `Seqs.FilterKeepsLength` | routes.js:197-201 | a filter keeps the length exactly when every element passes |
| `Seqs.FilterCompose` | routes.js:83-102 | two filters in a row equal one filter by the conjunction |
| `Seqs.FilterIdempotent` | routes.js:199 | filtering twice by the same predicate equals filtering once |
| `Text.LowerChar` | routes.js:84-86 | ASCII upper-case letters map to their lower-case letter, every other character is kept, and the result is never upper case |
| `Text.Lower` | routes.js:84-86 | lower-casing keeps the length and lower-cases each character at its position |
| `Text.ContainsLowerIgnoresCase` | routes.js:84-86 | the lower-cased name contains the lower-cased query exactly when the query occurs in the name at some position, ignoring letter case character by character |
| `Books.NameMatchIgnoresCase` | routes.js:83-88 | the name filter holds exactly when the query occurs in the book's name ignoring case |
| `Text.Contains` | routes.js:86 | `includes`: the empty string is included in every string, every string includes itself, and nothing longer than the string is included in it |
| `Books.Acceptable` | routes.js:29-41 | the condition both writing handlers accept: a present name and `readPage <= pageCount` (the same checks stand at routes.js:151-163) |
| `Books.Matches` | routes.js:83-102 | a record meets the query exactly when its name contains the name query ignoring case (if one is given), and its `reading` and `finished` equal "the flag is `1`" for each flag given |
| `Books.Select` | routes.js:83-102 | the query result holds exactly the records that meet the query, and no more records than the collection |
| `Books.Summarize` | routes.js:104-107 | the `{ id, name, publisher }` projection of one record |
| `Books.Summaries` | routes.js:104-108 | one projection per record at the same position, carrying the record's `id`, `name` and `publisher` |
| `Routes.StatusCode` | routes.js:57 | 201 exactly for a create, 400 exactly for a refused payload, 404 exactly for an unknown id, 200 for every other answer (the `.code(...)` calls at lines 57, 76, 126, 155, 162, 186, 192, 205) |
| `Books.SelectWithoutFilters` | routes.js:80-108 | with no filters the query returns every record in insertion order, so the answer is one projection per record |
| `Books.SelectKeepsOrder` | routes.js:80-102 | the matches among earlier records come before the matches among later ones |
| `Books.SelectNarrow` | routes.js:90-102 | applying one more filter to a query result gives the result of the query that also asks for that filter |
| `Routes.BookStore.GetAllBooks` | routes.js:79-116 | the filters applied one after the other give the projection of exactly the records that meet every filter the query gives, in insertion order |
| `Books.FindIndex` | routes.js:165 | the result is -1 exactly when no record has the id; otherwise it is the first index holding the id |
| `Books.Find` | routes.js:120 | a record is found exactly when some record has the id, and it is a record of the collection with that id |
| `Books.FindAtFindIndex` | routes.js:120 | `find` returns the record at the index `findIndex` reports |
| `Routes.BookStore.GetBookById` | routes.js:118-135 | the answer is the first record with the id when there is one, otherwise 404 with "Buku tidak ditemukan"; the method changes nothing |
| `Books.FindAfterAppend` | routes.js:60-66 | after appending a record with a fresh id, a lookup of that id finds it at the last index |
| `Books.Revised` | routes.js:168-179 | the rewritten record takes every client field from the payload and `updatedAt` from the clock; `id`, `insertedAt` and `finished` keep their old values |
| `Books.FinishedGoesStale` | routes.js:61 | because `finished` is computed only at creation, an update can leave a record finished with `readPage < pageCount` |
| `Routes.BookStore.UpdateBookById` | routes.js:137-193 | an invalid payload gives 400 with the update message and leaves `books` unchanged, also for an unknown id; a valid one with an unknown id gives 404 and changes nothing; otherwise only the first index holding the id is rewritten, and the invariant is kept |
| `Books.WellFormedRevise` | routes.js:165-179 | rewriting one record with a validated payload keeps the collection well formed, because the id is kept |
| `Books.FindAfterRevise` | routes.js:165-179 | after an update, a lookup of the id finds the rewritten record |
| `Books.RemoveId` | routes.js:199 | the remaining records are exactly those whose id differs; none holds the id; the length is kept exactly when no record had the id |
| `Books.RemoveAbsentId` | routes.js:197-206 | the delete filter changes nothing when no record has the id |
| `Books.RemoveIdKeepsOrder` | routes.js:199 | the delete filter keeps the order of the remaining records |
| `Books.RemoveUniqueId` | routes.js:199 | with unique ids, deletion removes exactly the record at the index `findIndex` reports and closes the gap |
| `Books.FilterKeepsUniqueIds` | routes.js:199 | a filtered collection keeps unique ids |
| `Books.WellFormedRemove` | routes.js:199 | deletion keeps the collection well formed |
| `Books.RemoveIdTwice` | routes.js:195-213 | removing the same id a second time removes nothing |
| `Books.FindAfterRemove` | routes.js:120 | after deletion no record with the id can be found |
| `Routes.BookStore.DeleteBookById` | routes.js:195-214 | the new collection is the old one with every record of that id filtered out; the answer is success exactly when the id was present, otherwise 404 with the collection unchanged; on a well-formed collection exactly the record at the found index is removed and the rest keep their order; the invariant is kept |
| `Routes.BookStore.constructor` | routes.js:7 | the collection starts empty and well formed |
| `Routes.CreateThenGet` | routes.js:48-135 | on any well-formed store, creating a valid book under a fresh id gives 201, and fetching its id returns the stored record, whose `finished` is `pageCount == readPage`; the store stays well formed |
| `Routes.UpdateThenGet` | routes.js:118-193 | on any store holding the id, a valid update gives 200, and a fetch returns the new client fields and `updatedAt`, with the `id`, `insertedAt` and `finished` of the record that was there |
| `Routes.DeleteTwice` | routes.js:195-214 | on any store holding the id, deleting it twice gives 200 and then 404, and afterwards no record holds the id |

## Left out

- `loadBooksData` and `saveBooksData`: file I/O and JSON parse/stringify, with errors only logged. Saving is a no-op here, so the round trip through the data file is not modelled. Loading is not modelled either, so a file content that breaks the invariant is not considered.
- `nanoid()` and `new Date().toISOString()`: the id generator and the clock are parameters. The freshness of generated ids is a hypothesis of the invariant, not something the model proves.
- The hapi plumbing (`h.response(...).code(...)`, the route table, the `status: 'success' | 'fail'` envelope) is the `Response` datatype with `StatusCode`.
- A request without a body makes the create and update handlers throw while unpacking the payload (routes.js:50 and 139-148), and hapi answers 500. The model's `Payload` is always present, and `Response` has no 500.
- JavaScript's loose typing: truthiness of `name`, `>` and `===` on missing or non-numeric values, and non-boolean `reading` values are not modelled. `name` is a string where empty means missing, page counts are integers and `reading` is a boolean.
- `Text.Lower`: Unicode case mapping is not modelled. Only the ASCII letters A-Z are lower-cased.
- Concurrent requests are not modelled: every handler runs as one atomic step.
