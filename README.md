# Bookshelf API — a Dafny model of the book handlers

The service keeps books in one table keyed by a short random id and offers
five HTTP handlers: create (`POST /books`), list (`GET /books`, with optional
`reading` and `finished` query parameters), fetch (`GET /books/:bookId`),
update (`PUT /books/:bookId`) and delete (`DELETE /books/:bookId`).

This project models those handlers over an in-memory table
(`map<string, Book>`):

- `books.dfy`: module `Books`, the stored record (twelve fields) and the table type.
- `handler.dfy`: module `Handler`, with:
  - the create body, where gin's `binding:"required"` makes an empty string
    or a 0 count as a missing field;
  - the replies, each a status code, the handler's message and its data;
  - one pure step function per keyed handler (`Create`, `GetById`, `Update`,
    `Delete`), giving the reply and the table afterwards;
  - class `Shelf`, which holds the table. Its methods do each handler's work
    step by step and are proved against the step functions.
  - the listing methods. They build their response in a loop and are
    specified by `ListsExactly`.
- `handler_properties.dfy`: module `HandlerProperties`, with lemmas that
  relate several calls. These cover create then fetch, update then fetch,
  delete then fetch, deletion being final, the table invariant, and concrete
  runs.

There are two table invariants:

- `Keyed`: every book is stored under its own id, which the primary key
  guarantees. `Shelf.Valid()` is this invariant, and the listing relies on it.
- `Consistent`: every book has a non-empty name and `readPage <= pageCount`.
  The database does not enforce this, but every mutating handler preserves it.

Points where the code behaves differently from what a reader of the API might
expect. The model follows the code in each case:

- The `reading`/`finished` query parameters are evidently meant to filter the
  list, but the code lists every book (see Findings).
- The update handler does not assign `updatedAt`. Saving the record refreshes
  it, and the model takes the time of that save as a parameter, `savedAt`.
- A create with `reading: 0` (or any other zero-valued field) is refused as
  missing (`HandlerProperties.ZeroMeansMissing`).

## Model

| member | source | states |
|---|---|---|
| `Handler.Create` | handler/handler.go:25-70 | 201 exactly when the body binds with every required field non-zero and `readPage <= pageCount`. The readPage message is sent exactly when only the page check fails. Any 400 leaves the table unchanged. A 201 returns the fresh id, adds exactly that key and keeps every other record. |
| `Handler.GetById` | handler/handler.go:133-165 | 200 exactly when the id is stored, and then the data is the whole stored record. Otherwise the reply is 404 with the not-found message. |
| `Handler.Update` | handler/handler.go:168-224 | The save stamps `updatedAt` with `savedAt`. An absent id gives 404 and an unchanged table, whatever the body. 200 exactly when the id is present, the body decodes, the name is non-empty and `readPage <= pageCount`. 400 exactly when the id is present and one of those body checks fails. Any failure leaves the table unchanged. Success keeps the key set and every other record. |
| `Handler.Delete` | handler/handler.go:226-253 | An absent id gives 404 and an unchanged table. A present id gives 200, removes exactly that key, shrinks the table by one and keeps every other record. |
| `Handler.Selected` | handler/handler.go:77-105 | The reference definition of the filters' evident intent: a non-empty `reading`/`finished` query keeps the books whose flag equals "query is `1`". Its contract states that it selects only stored ids, and everything when both queries are empty. The filter's meaning for the listing is `ReadingFilterSelects`. |
| `Handler.DistinctIdsCount` | handler/handler.go:116-123 | A response that names each id once has as many entries as ids. |
| `Handler.Shelf.constructor` | database/db.go:13-21 | The shelf starts over the rows the table already holds. Those rows are keyed by their ids and need not pass the handlers' checks. |
| `Handler.Shelf.SavedBooks` | handler/handler.go:25-70 | Keeps `Keyed`, and keeps `Consistent` when it held before. The reply and the new table are those of `Create` on the old table. |
| `Handler.Shelf.GetBookById` | handler/handler.go:133-165 | Changes nothing and answers as `GetById` on the current table. |
| `Handler.Shelf.UpdateBook` | handler/handler.go:168-224 | Keeps `Keyed`, and keeps `Consistent` when it held before. It overwrites the fetched record field by field, then the save stamps `updatedAt`. The reply and the new table are those of `Update` on the old table. |
| `Handler.Shelf.DeleteBookById` | handler/handler.go:226-253 | Keeps `Keyed`, and keeps `Consistent` when it held before. The reply and the new table are those of `Delete` on the old table. |
| `Handler.Shelf.Projection` | handler/handler.go:116-123 | The response holds the `{id, name, publisher}` entry of each given row once, as stored, and nothing else. Its length equals the number of rows. |
| `Handler.Shelf.GetAllBooks` | handler/handler.go:72-131 | Whatever the query parameters, 200 with one entry per stored book. The list's length equals the table's size. |
| `Handler.Shelf.GetFilteredBooks` | handler/handler.go:77-105 | The corrected listing: 200 with exactly the entries of the books `Selected` by the filters. |
| `HandlerProperties.ZeroMeansMissing` | handler/handler.go:13-36 | Create refuses any body with an empty name, author, summary or publisher, or a 0 year, pageCount, readPage or reading. It answers 400 and leaves the table unchanged. |
| `HandlerProperties.CreateThenGet` | handler/handler.go:46-69 | After a successful create, fetching the returned id gives 200. The six other input fields come back unchanged. `finished` is `readPage == pageCount`, `reading` is `input.reading == 1`, and both stamps are the creation time. |
| `HandlerProperties.CreateKeepsConsistent` | handler/handler.go:38-61 | Create keeps both `Keyed` and `Consistent`. |
| `HandlerProperties.UpdateThenGet` | handler/handler.go:209-218 | After a successful update, the record has the eight new fields, and `updatedAt` is the save time. It keeps its id, `finished` and `insertedAt`. Fetching any other id answers as before. |
| `HandlerProperties.UpdateKeepsConsistent` | handler/handler.go:193-218 | Update keeps both `Keyed` and `Consistent`. |
| `HandlerProperties.UpdateLeavesFinishedStale` | handler/handler.go:209-216 | A finished book updated to `readPage 50 of 100` is still marked finished. |
| `HandlerProperties.DeleteThenGet` | handler/handler.go:226-253 | After deleting a stored id, fetching it gives 404. Fetching any other id answers as before. |
| `HandlerProperties.DeletedIsTerminal` | handler/handler.go:168-180 | After a delete, updating or deleting that id answers 404, and the update leaves the table unchanged. |
| `HandlerProperties.DeleteKeepsConsistent` | handler/handler.go:240 | Delete keeps both `Keyed` and `Consistent`. |
| `HandlerProperties.ReadingFilterIgnored` | handler/handler.go:77-107 | Take a table holding one book that is not being read. Every listing `GetAllBooks` may return for it has exactly that book's entry, although the `reading=1` filter selects nothing. |
| `HandlerProperties.ReadingFilterSelects` | handler/handler.go:77-86 | The corrected listing with `reading=1` lists every book being read and no other book. |
| `HandlerProperties.CreateGetDeleteRun` | handler/handler.go:25-253 | Create a fully read book, then fetch it, delete it and fetch it again. The replies are 201, 200 (finished, not reading), 200 and 404, and the final table is the initial one. |

## Left out

- The HTTP layer is not modelled: routing, JSON encoding of the envelope and its `status` field. A reply is its status code, message and data.
- Decoding is not modelled. A body that fails to decode is `None`; this includes an integer beyond Go's 64-bit `int`. Integers are otherwise unbounded.
- Database failures are not modelled: the error branches of the filtered and unfiltered queries (handler/handler.go:86-93, 97-104, 108-114) and of delete (242-248). These are the only ways the list's query parameters can change its outcome.
- The result of the insert at handler/handler.go:61 is ignored by the source, so create always reports success. The model instead requires a fresh id.
- Id generation (utils/utils.go) and its panic are not modelled. The id is a parameter that must not already be stored.
- Handler.Create: the source reads the clock twice, once for each stamp. The model takes one `now` for both, so the two stamps are equal.
- Handler.Update: the handler does not assign `updatedAt`; gorm's save refreshes it from the clock. The model takes that time as the parameter `savedAt`. It does not model how gorm reads the clock.
- Ids are compared by exact string equality. MySQL's default collation may match ids that differ only in letter case, and that is not modelled.
- Handler.Selected: the `finished` filter compares a boolean column with the raw query string in MySQL. The model reads only `1` as true and any other non-empty value as false. It does not model MySQL's string-to-number coercion:
  - strings that convert to 1, such as `01`, `1.0` or `1abc`, select finished books;
  - strings that convert to neither 0 nor 1, such as `2`, select nothing.
- The order of the listing is not modelled; the response is specified up to order.
- Concurrency between requests is not modelled; the source adds none of its own.

## Findings

| source | as written | input that shows it | evidently intended | confidence | as-written member | corrected member |
|---|---|---|---|---|---|---|
| handler/handler.go:107 | The unconditional query after the filtered ones (77-105) replaces their rows, so the list always holds every book | A table with one book that is not being read, and `GET /books?reading=1`: that book is listed | Only books matching each non-empty filter are listed | high (the overwrite is direct), not executed | `HandlerProperties.ReadingFilterIgnored` | `Handler.Shelf.GetFilteredBooks` |
