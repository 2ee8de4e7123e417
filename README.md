# Bookshelf handlers: a Dafny model

This project models the request handlers of a small bookshelf catalog
service. The handlers are in `src/handler.js`. The service keeps an ordered,
in-memory array of book records. Five handlers act on that array:

- `addBook` validates a payload and appends a record.
- `getAllBook` lists the records, optionally filtered by `name`, `reading` or
  `finished`, each projected to `{id, name, publisher}`.
- `getBookById` returns one record.
- `updateBook` validates a payload and overwrites a record in place.
- `deleteBook` splices a record out.

Each handler answers with a response envelope: a status, an optional
message, optional data, and an HTTP code.

The model is in five modules:

- `Records` (`records.dfy`): the book record, the payload, the list query, the
  response envelope and the Indonesian messages.
- `Text` (`text.dfy`): ASCII lower-casing and `includes`, with a proof that
  the left-to-right search finds exactly the occurrences of the query.
- `Selection` (`selection.dfy`): `filter` with the handlers' callbacks,
  `findIndex` by id and the list projection. Lemmas show that filtering
  keeps store order and that complementary filters partition the store.
- `Queries` (`queries.dfy`): `getAllBook` and `getBookById`. These only read
  the array, so they are functions of its contents.
- `Handlers` (`store.dfy`): the class `Store`, whose `books` field is the
  array. `AddBook`, `UpdateBook` and `DeleteBook` are methods that reassign it.
  Each method states its response and the new array for every branch, and
  keeps the invariant `Valid()`: ids are unique and 16 characters long
  (`ID_LENGTH`), names are non-empty, `readPage <= pageCount`, and
  `finished` is derived from the page counts.
  Lemmas tie the mutations to later lookups: add then get, update then get,
  delete then get.

The id generator and the clock are inputs. `AddBook` takes the new id (16
characters, not already stored) and the current time. `UpdateBook` takes the
current time.

## Behaviour kept from the code

- **`insertedAt` on update.** `updateBook` stores the first record with the
  requested id as the new record's `insertedAt`. That is the whole record,
  not its timestamp (src/handler.js:175-176). The model keeps this:
  `InsertedAt` is either a `Stamp` or a `PreviousRecord`.
  `Handlers.UpdateLosesInsertedAt` proves that the creation time is never
  kept. `addBook` uses `insertedAt` as the creation time
  (src/handler.js:10-11), and `updateBook` reuses that field name for the
  whole previous record.
- **The not-found test of `updateBook`.** The test at src/handler.js:181
  negates an array, which is always truthy, so it never answers. The code's
  effective order is therefore: empty name gives 400, then
  `readPage > pageCount` gives 400, then an unknown id gives 404 with
  "Gagal memperbarui buku. Id tidak ditemukan". The dead branch at
  src/handler.js:181-188 carries the 404 message "Buku tidak ditemukan", so
  the code was evidently meant to check the id first. The model follows the
  code as written.
- **Empty unfiltered list.** When no filter is given and the store is empty,
  the data is a bare `[]` (`Data.BareEmpty`) rather than `{books: []}`.

## Model

| member | source | states |
|---|---|---|
| `Text.IncludesIffOccurs` | src/handler.js:51 | the `includes` search succeeds exactly when the query occurs at some position of the name; the empty query occurs everywhere |
| `Text.LowerIdempotent` | src/handler.js:51 | lower-casing twice equals lower-casing once, and the result has no upper-case ASCII letter |
| `Text.Lower` | src/handler.js:51 | lower-casing keeps the length and lower-cases each ASCII letter in place |
| `Selection.Select` | src/handler.js:71-72 | a filter result is no longer than the store and holds exactly the stored records that meet the criterion |
| `Selection.SelectAppend` | src/handler.js:94-95 | filtering distributes over concatenation, so kept records stay in store order |
| `Selection.SelectAgreeing` | src/handler.js:51 | two criteria that agree on every record select the same sequence |
| `Selection.SelectEverything` | src/handler.js:127-133 | with no filter, the whole store is listed in order |
| `Selection.SelectPartition` | src/handler.js:71-72 | complementary criteria split the store: their results together hold every record exactly once |
| `Selection.FlagsComplementary` | src/handler.js:94-95 | the "1" and "0" callbacks of `reading` and of `finished` accept complementary sets of records |
| `Selection.Summaries` | src/handler.js:52-58 | the projection has one entry per record, in order, each holding exactly that record's id, name and publisher |
| `Selection.FindIndex` | src/handler.js:228 | `findIndex` gives -1 exactly when no record has the id, and otherwise the first index holding it |
| `Selection.SelectByIdHead` | src/handler.js:175-178 | filtering by id is empty exactly when `findIndex` gives -1, and otherwise its first element is the record at the found index |
| `Queries.GetAllBook` | src/handler.js:48-138 | always success with code 200 and no message; a bare `[]` exactly for an empty store with no filter; otherwise the projections of the records meeting the single active filter (name, else reading, else finished), in store order, and a summary is listed exactly when a matching record projects to it |
| `Queries.SummariesMembership` | src/handler.js:127-133 | a summary is in the projection exactly when some record of the input projects to it |
| `Queries.NameTakesPriority` | src/handler.js:50-67 | with a non-empty `name` query, the `reading` and `finished` values do not change the answer |
| `Queries.ReadingTakesPriority` | src/handler.js:69-90 | with no name and a valid `reading` query, the `finished` value does not change the answer |
| `Queries.NameQueryIgnoresCase` | src/handler.js:51 | two name queries that lower-case alike give the same answer |
| `Queries.NameFilterOccurs` | src/handler.js:51 | the name filter keeps a record exactly when the lower-cased query occurs in its lower-cased name |
| `Queries.ReadingQueriesPartition` | src/handler.js:69-90 | the `reading=1` and `reading=0` listings are the projections of two filter results that together hold every record exactly once, so their lengths add up to the store's |
| `Queries.FinishedQueriesPartition` | src/handler.js:92-113 | with no `name` and no `reading` filter, the `finished=1` and `finished=0` listings are the projections of two filter results that together hold every record exactly once, so their lengths add up to the store's |
| `Queries.GetBookById` | src/handler.js:143-163 | 404 with "Buku tidak ditemukan" exactly when no record has the id; otherwise 200 with the first record holding it |
| `Handlers.RemoveAt` | src/handler.js:231 | the result of `splice(i, 1)` is one record shorter than the store, holds the records before `i` at their positions and the records after `i` one position lower, and holds one copy fewer of the record at `i` |
| `Handlers.Store.constructor` | src/handler.js:2 | the store starts empty and valid |
| `Handlers.Store.AddBook` | src/handler.js:5-43 | a missing or empty name gives 400 with its message; otherwise `readPage > pageCount` gives 400 with its message; both leave the store unchanged; otherwise exactly one record is appended after the unchanged old ones, with the given id, derived `finished` and equal timestamps, and the answer is 201 with `bookId`; validity is kept |
| `Handlers.Store.UpdateBook` | src/handler.js:168-222 | an empty name gives 400, then `readPage > pageCount` gives 400, then an unknown id gives 404, each with its message and the store unchanged; otherwise only the first record with the id is replaced, by the payload's fields with recomputed `finished`, the new `updatedAt` and the previous record as `insertedAt`, and the answer is 200; validity is kept |
| `Handlers.Store.DeleteBook` | src/handler.js:226-246 | an unknown id gives 404 with its message and the store unchanged; otherwise the first record with the id is spliced out, the others keep their order, and the answer is 200; validity is kept |
| `Handlers.AddThenGet` | src/handler.js:31-32 | after a successful add with a fresh id, `getBookById` returns the new record: it has the payload's fields, `finished` is true exactly when `readPage == pageCount`, and `insertedAt` is the `updatedAt` time |
| `Handlers.DeleteThenGet` | src/handler.js:228-231 | after deleting an id from a store with unique ids, `getBookById` of that id answers 404 |
| `Handlers.UpdateThenGet` | src/handler.js:206-207 | for any store, after an update the length and every other position are unchanged, and `getBookById` returns the revised record |
| `Handlers.UpdateLosesInsertedAt` | src/handler.js:175-179 | the updated record's `insertedAt` is the replaced record, and never that record's own `insertedAt` |

## Left out

- `src/server.js` (server start-up, host and port, logging) and
  `src/routes.js` (the method/path table) are not part of this model. They
  hold no logic.
- `src/books.js` is not part of this model. The store is assumed to start
  empty.
- Id generation (`nanoid(16)`) and the clock (`new Date().toISOString()`)
  are inputs. The id is required to be 16 characters long and not already
  stored, because the code never checks uniqueness itself. Timestamps are
  opaque strings.
- The HTTP framework's response objects are the `Response` datatype. JSON
  serialisation is not modelled.
- Lower-casing covers ASCII letters only. JavaScript's `toLowerCase` also
  folds other Unicode letters.
- Loose typing is not modelled. Page counts and the year are integers, the
  other fields are strings, and `reading` is a boolean. So a missing or
  non-numeric `pageCount` is not represented, and neither is the difference
  between `==` (line 144) and `===` (line 178) on ids: the two agree on
  strings.
- Queries.GetAllBook: a `reading` or `finished` value other than "1" or
  "0", on the branch that uses it, leaves the result undefined and the
  handler fails. Such queries are excluded by the precondition `Answerable`.
  No answer is modelled for them.
- There is no concurrency in the code. Each handler call is atomic.
- The assignments to the undeclared globals `newBook` and `updatedBook`
  (lines 31 and 179) have no behaviour beyond the record they build.
