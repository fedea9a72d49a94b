# Book catalog service — Dafny model

The service keeps a list of book records in memory for the lifetime of the
process and offers four handlers over it: list a page of records, create a
record, update a record by id, delete a record by id. This project models that
list and those handlers, without the web framework around them.

- `wrappers.dfy` — `Option`, the model's `None`.
- `books.dfy` (module `Books`) — the value types and the pure logic:
  - the types: `Book(id, fields)`, the client `Payload(id, fields)`, and the handler `Response`;
  - the seed list and the validator;
  - the id generator `MaxId`, the lookup `FirstIndex` and the shallow merge `Merge`;
  - the delete filter `Without`, Python slicing `PySlice` with its bound normalisation, and `Paginate`;
  - the lemmas about all of these.
- `catalog.dfy` (module `Api`) — class `Catalog` with the field
  `books: seq<Book>`. Its methods are the handlers. They change `books` as the
  source does: `Create` appends, `Update` replaces the record found, and
  `Delete` rebinds the list to a filtered copy. `FindBookById` is the source's
  linear search, written as a loop.

Responses stand in for the HTTP replies:

| Response | HTTP reply |
|---|---|
| `Created` | 201 |
| `Ok` | 200 |
| `BadRequest` | 400 |
| `NotFound` | 404 |
| `ServerError` | 500 (an uncaught exception) |

Behaviour of the code worth noting:
- Validation only checks that the `title` and `author` keys are present. It does
  not check that they are non-empty.
- Delete removes every record that carries the id, not just one. When ids are
  unique, that is exactly one record (`WithoutUniqueRemovesOne`).
- Update merges the payload's `id` into the record. So the unique-id invariant
  is not kept by update in general: `UpdateCanDuplicateIds` gives an example,
  and `UpdateKeepsIdsUniquePositiveIff` states exactly when the invariant is kept.
- On an empty catalog, create's `max` raises before anything is appended. The
  model answers `ServerError` and leaves the catalog unchanged. It does not
  require callers to avoid that case.

## Model

| member | source | states |
|---|---|---|
| Books.Seed | app.py:16-19 | the seed catalog has two records, with ids 1 and 2, and each has a title and an author |
| Books.ValidBookData | app.py:22-25 | a payload is accepted exactly when both `title` and `author` are among its keys |
| Books.ValidationInspectsOnlyTitleAndAuthor | app.py:22-25 | two payloads that agree on whether `title` and `author` are present are both accepted or both rejected; no other field matters |
| Books.MaxId | app.py:39 | the result is at least every id in the non-empty catalog and is the id of some record |
| Books.CreatedIdIsFresh | app.py:39-40 | the id given to a new record is strictly greater than every existing id |
| Books.CreateKeepsIdsUniquePositive | app.py:39-43 | appending a record with id max+1 to a catalog with unique positive ids keeps the ids unique and positive |
| Books.FirstIndex | app.py:63-70 | `Some(k)` means record k carries the id and no earlier record does; `None` means no record carries it |
| Books.Merge | app.py:83 | the payload's id, if any, replaces the record's id; the merged keys are the union of both key sets; payload values win; keys missing from the payload keep their old values |
| Books.UpdateKeepsIdsUniquePositiveIff | app.py:83 | on a catalog with unique positive ids, updating record k keeps the ids unique and positive if and only if the payload has no id, or has a positive id that no other record carries |
| Books.UpdateCanDuplicateIds | app.py:83 | on the seed catalog, a PUT to id 2 with payload id 1 leaves two records with id 1 |
| Books.Without | app.py:117 | the filtered list is no longer than the original; no record in it carries the deleted id; every record in it comes from the original list (that every other record is kept, with its multiplicity, is `WithoutCount`) |
| Books.WithoutCount | app.py:117 | after the filter, a record with the deleted id occurs zero times, and any other record occurs as often as before |
| Books.WithoutDistributes | app.py:117 | filtering a concatenation is the concatenation of the filtered parts, so the remaining records keep their relative order |
| Books.WithoutAbsent | app.py:117 | filtering out an id that no record carries leaves the list unchanged |
| Books.WithoutAround | app.py:117 | filtering the whole list equals filtering the records before position k, record k itself and the records after it, joined in that order |
| Books.OthersKeptAround | app.py:117 | with unique ids, filtering the id of record k leaves the records before k and the records after k unchanged |
| Books.TailKeepsUniqueIds | app.py:117 | dropping the first record of a list with unique ids leaves unique ids |
| Books.WithoutUniqueRemovesOne | app.py:114-117 | when ids are unique, deleting the id of record k yields the list with exactly record k removed and the rest in order |
| Books.PrependKeepsIdsUniquePositive | app.py:117 | putting a record with a positive id in front of a list with unique positive ids that does not carry that id keeps ids unique and positive |
| Books.DeleteKeepsIdsUniquePositive | app.py:116-117 | the filtered list of a catalog with unique positive ids again has unique positive ids |
| Books.SliceBound | app.py:57 | a slice bound is normalised as Python does: a bound in 0..n is kept; one past the end becomes n; a negative bound counts from the end; one before the start becomes 0 |
| Books.PySlice | app.py:57 | Python's `s[a:b]` is no longer than `s`, holds at most b - a records when a <= b, and is the contiguous run of `s` that starts at the normalised lower bound |
| Books.PySliceNonNegative | app.py:57 | Python's `s[a:b]` with 0 <= a <= b is empty when a is at or past the end, and otherwise is `s[a..min(b, length)]` |
| Books.PageStart | app.py:53 | for page >= 1 and limit >= 0 the start index (page-1)*limit is non-negative |
| Books.PageStartFacts | app.py:53-54 | page 1 starts at index 0, and page p+1 starts `limit` records after page p |
| Books.Paginate | app.py:53-57 | for any page and any limit >= 0, negative pages included, a page holds at most `limit` records |
| Books.PaginateIsExactRange | app.py:49-57 | for page >= 1 and limit >= 0, start = (page-1)*limit (`PageStart`) is non-negative; the page is empty when start >= length; otherwise it is exactly `books[start..min(start+limit, length)]`; it never holds more than `limit` records |
| Books.ConsecutivePagesJoin | app.py:53-57 | page p followed by page p+1 is exactly the slice from (p-1)*limit to (p+1)*limit: nothing is skipped and nothing is repeated |
| Books.SeedIdsUniquePositive | app.py:16-19 | the seed catalog's ids are unique and positive |
| Books.SeedExamples | app.py:16-57 | on the seed catalog, the next id is 3; page 1 with limit 2 is the whole seed; page 2 with limit 1 is the second record; page 3 with limit 1 is empty |
| Api.Catalog.constructor | app.py:16-19 | a new catalog holds the seed records, whose ids are unique and positive |
| Api.Catalog.FindBookById | app.py:63-70 | the loop returns the position of the first record carrying the id, or None when no record carries it, as `FirstIndex` specifies |
| Api.Catalog.List | app.py:47-60 | returns `Paginate` of the catalog; a missing page defaults to 1 and a missing limit to 10; for page >= 1 and limit >= 0 the result is the exact sub-range, at most `limit` long |
| Api.Catalog.Create | app.py:31-46 | an invalid payload gives BadRequest with the catalog unchanged; on an empty catalog a valid payload gives ServerError with the catalog unchanged; otherwise the payload's fields get id max+1 and are appended, the earlier records are untouched, the new id exceeds every old id, and unique positive ids stay unique and positive |
| Api.Catalog.Update | app.py:73-86 | an unknown id gives NotFound with the catalog unchanged; otherwise only the first matching record is replaced by its merge with the payload (length, order and every other record are unchanged), and the merged record is returned |
| Api.SeedScenario | app.py:16-120 | on a fresh catalog, creating Dune by Frank Herbert answers 201 with id 3; updating id 7 answers 404; deleting id 1 answers 200 with the first seed record |
| Api.Catalog.Delete | app.py:106-120 | an unknown id gives NotFound with the catalog unchanged; otherwise the catalog becomes the list filtered of that id, and the record found before deletion is returned; unique positive ids stay unique and positive; with unique ids the catalog shrinks by exactly one |

## Left out

- Flask routing, `request.get_json()`, `jsonify` and status tuples: these are replaced by method parameters and the `Response` datatype. The generic 404/405 error handlers (app.py:123-130) are routing behaviour.
- Request bodies that are not JSON objects. For PUT, `dict.update` (app.py:83) also accepts a list of key/value pairs. A well-formed pair list acts like the object with those pairs, which `Payload` covers. A list that breaks part-way through writes the pairs before the fault and then fails with a 500, so the catalog is changed on an error path; that path is not modelled. Other non-object bodies fail before the catalog is touched.
- JSON value types: field values are modelled as strings and the `id` as an integer. A PUT that sets `id` to a non-integer, and the later `max` failure it would cause, are not modelled.
- Query-string coercion with `int(...)` (app.py:49-50). `List` takes already-parsed optional integers. The error for a non-numeric value is Python runtime behaviour.
- Rate limiting (app.py:2-3, 8, 29). It depends on a wall clock and per-client keys inside an outside library.
- Logging setup and server start-up (app.py:4, 12, 133-134). These are I/O.
- The first `delete_book` (app.py:89-103). The model follows the filtering version at app.py:106-120. Registering the same endpoint twice is not modelled.
- Concurrent requests. The list has no lock, and the model gives the sequential semantics of one request at a time.
- Aliasing: `find_book_by_id` returns the dict itself, and the update mutates it in place. The model returns the record's position, and `Update` replaces the record at that position, which has the same effect on the list.
