# Bookstore inventory: a verified model of the stock ledger and the catalog tables

This project models the core of a bookstore backend in Dafny. Books exist in a
catalog; stores hold changing quantities of each book. The model covers two
services.

- `BookStoreService` owns the store table and the stock ledger. Store names are
  unique. The ledger keeps at most one stock record per (store, book) pair. Adding
  stock raises a record's quantity or creates the record. Removing stock checks
  that enough is held, lowers the quantity, and deletes the record when it reaches
  exactly zero. A query returns the quantity, or 0 when there is no record. Every
  ledger call first looks the store up and fails with `BookStoreNotFound` when it
  is missing.
- `BookService` owns the book table. ISBNs are unique. It creates, finds, updates
  and removes books.

Layout:

- `exceptions.dfy` (`Exceptions`): the four typed failures, and `Result`/`Option`.
  A thrown exception becomes an `Err` value.
- `entities.dfy` (`Entities`): the entities, the request bodies, and the request
  validators written as predicates.
- `bookstores.dfy` (`BookStores`): the store service as pure functions. Each takes
  the tables before a call and returns the call's result and the tables after it.
  `Valid` is the invariant. The module also holds lemmas that relate several
  calls, and `Run`, which replays any sequence of calls.
- `bookstore_service.dfy` (`BookStoreServices`): the class `BookStoreService`. Its
  tables are `map` fields that its methods read, check and reassign, in the order
  the service does. Each method is proved to produce exactly the result and state
  the matching `BookStores` function gives, and to keep `Valid`.
- `books.dfy` (`Books`) and `book_service.dfy` (`BookServices`): the same two
  layers for the book table.
- `scenarios.dfy` (`Scenarios`): the scenarios of the two unit-test files, replayed
  against the classes, plus the end-to-end stock lifecycle and the two asymmetries
  described below.

Behaviour reproduced as written:

- `removeBook` on a store that exists but holds no record of the book fails with
  `BookStoreNotFound(storeId)`. It does not treat the missing record as zero stock.
- `InsufficientStock` carries the book id and the available quantity, as the
  code builds it (src/common/exceptions/custom.exception.ts:30). The requested
  amount is not reported.
- The service never consults the book table. `addBook` does not check that the
  book exists, and `remove` on a book does not look at its stock records. Only the
  database's foreign key from a stock record to its book stands in the way, and
  that key is not part of this model (see "Left out").
- The uniqueness checks in both `update` methods run only for a truthy (non-empty)
  new name or ISBN. The lemma `BookStores.EmptyNameSkipsUniquenessCheck` shows
  that two stores can end up sharing the empty name. Only the request validators
  prevent this: a store name must have at least two characters, and an ISBN must
  be well formed. So the invariants are proved for validated requests.

Modelling choices:

- Identifiers are integers. A path parameter only has to be a numeric string
  (src/common/dto/params.dto.ts:6), and the controllers convert it with unary `+`,
  so a negative id reaches the services and comes back in their not-found errors.
  The database's generated ids are a `nextId` counter, starting at 1.
- A stock record is keyed by its (store, book) pair. The record's own generated id
  is not modelled. Keying by the pair captures "at most one record per pair". The
  service keeps that property by always looking a record up before creating one.
- The repository's lookup by name or by ISBN returns some matching row
  (`FindByName`, `FindByIsbn`). Under the uniqueness invariant that row is the only
  match. So "found, with a different id" is the same as "held by another row"
  (`NameHeldByOther`, `IsbnHeldByOther`).
- `Object.assign` with a partial update body is `Assign`. It overwrites exactly
  the properties the body carries.
- The request validators become preconditions. Stock changes need a quantity of at
  least 1. Updates need the body to pass its validators.
- The file `src/book/dto/update-book.dto.ts` is not part of this model. Its body
  is taken to be the partial form of the create body: every property is optional.

## Model

| member | source | states |
|---|---|---|
| `BookStores.Create` | src/bookstore/bookstore.service.ts:25-43 | Fails with DuplicateEntry, changing nothing, exactly when the name is in use. Otherwise adds one store under a fresh id with the given name and address. Leaves the ledger alone and keeps `Valid` |
| `BookStores.Assign` | src/bookstore/bookstore.service.ts:82 | The updated store keeps its id. Each property the update carries is overwritten and every other property is kept |
| `BookStores.Update` | src/bookstore/bookstore.service.ts:64-84 | An unknown id gives BookStoreNotFound. Given the id exists, it fails exactly when a non-empty new name belongs to a store with another id. A failure changes nothing. Success replaces only this store. Keeps `Valid` for a validated body |
| `BookStores.AddBook` | src/bookstore/bookstore.service.ts:86-116 | An unknown store gives BookStoreNotFound with nothing changed. Otherwise the pair's record holds exactly old quantity + requested, and is created if absent. The saved record is returned. All other records and the store table are unchanged. Keeps positive stock |
| `BookStores.RemoveBook` | src/bookstore/bookstore.service.ts:118-152 | Fails with BookStoreNotFound exactly when the store or the record is missing. Fails with InsufficientStock(book, stored quantity) exactly when less is held than requested. Failures change nothing. On success the quantity drops by exactly the request. The record is deleted and nothing is returned exactly when it reaches zero; otherwise the updated record is returned. All other records are unchanged. Keeps `Valid` |
| `BookStores.GetBookQuantity` | src/bookstore/bookstore.service.ts:154-166 | Fails with BookStoreNotFound exactly when the store is missing. Otherwise returns the stored quantity. In a valid state that is never negative, and is zero exactly when the pair has no record |
| `BookStores.AddThenRemoveRestores` | src/bookstore/bookstore.service.ts:104-151 | Adding n copies and then removing n copies restores the tables exactly |
| `BookStores.RemoveThenAddRestores` | src/bookstore/bookstore.service.ts:104-151 | A successful removal of n copies is undone by adding n copies, whether the removal decremented the record or deleted it |
| `BookStores.AddsAccumulate` | src/bookstore/bookstore.service.spec.ts:100-117 | Two additions to one pair accumulate, as in 5 + 3 = 8 |
| `BookStores.ExactRemovalDeletesRecord` | src/bookstore/bookstore.service.ts:144-149 | Removing the whole stored quantity returns nothing and deletes the record. The quantity then reads 0, and a further removal fails with BookStoreNotFound |
| `BookStores.UpdateMayKeepOwnName` | src/bookstore/bookstore.service.ts:70-80 | Updating a store to the name it already has is accepted |
| `BookStores.EmptyNameSkipsUniquenessCheck` | src/bookstore/bookstore.service.ts:70 | An update to the empty name skips the uniqueness check. Two stores can then share a name |
| `BookStores.RunKeepsValid` | src/bookstore/bookstore.service.ts:25-152 | After any sequence of validated create, update, add and remove calls, names are unique, every record has quantity > 0, and every record's store exists |
| `BookStores.UnitAddsAreCounted` | src/bookstore/bookstore.service.ts:104-106 | n successive additions of one copy raise the quantity by exactly n |
| `BookStoreServices.BookStoreService.constructor` | src/bookstore/bookstore.service.ts:17-23 | Takes the tables its injected repositories hold, which must satisfy `Valid`, and keeps them unchanged |
| `BookStoreServices.BookStoreService.FindOne` | src/bookstore/bookstore.service.ts:51-62 | Returns the stored store exactly when the id is present. Otherwise fails with BookStoreNotFound(id) |
| `BookStoreServices.BookStoreService.FindByName` | src/bookstore/bookstore.service.ts:31-33 | Finds nothing exactly when no store has the name. Otherwise returns a stored store with that name |
| `BookStoreServices.BookStoreService.Create` | src/bookstore/bookstore.service.ts:25-43 | Result and new tables are those of `BookStores.Create`. Keeps `Valid` |
| `BookStoreServices.BookStoreService.Update` | src/bookstore/bookstore.service.ts:64-84 | Result and new tables are those of `BookStores.Update`. Keeps `Valid` |
| `BookStoreServices.BookStoreService.AddBook` | src/bookstore/bookstore.service.ts:86-116 | Result and new tables are those of `BookStores.AddBook`. Keeps `Valid` |
| `BookStoreServices.BookStoreService.RemoveBook` | src/bookstore/bookstore.service.ts:118-152 | Result and new tables are those of `BookStores.RemoveBook`. Keeps `Valid` |
| `BookStoreServices.BookStoreService.GetBookQuantity` | src/bookstore/bookstore.service.ts:154-166 | Fails with BookStoreNotFound exactly when the store is missing. Otherwise returns a non-negative quantity: zero exactly when there is no record, else the record's quantity |
| `Books.Create` | src/book/book.service.ts:21-48 | Fails with DuplicateEntry, storing nothing, exactly when the ISBN is in use. Otherwise adds exactly one book under a fresh id, with the given title, author, ISBN and price, and returns it. Keeps `Valid` |
| `Books.Assign` | src/book/book.service.ts:97 | The updated book keeps its id. Each property the update carries is overwritten and every other property is kept |
| `Books.Update` | src/book/book.service.ts:77-104 | An unknown id gives BookNotFound before any other check. Given the id exists, it fails exactly when a non-empty new ISBN belongs to another book. A failure changes nothing. Success replaces only this book. Keeps `Valid` for a validated body |
| `Books.Remove` | src/book/book.service.ts:106-111 | An unknown id gives BookNotFound with nothing changed. Otherwise exactly that book leaves the table and every other book is unchanged |
| `Books.CreatedBookIsFound` | src/book/book.service.ts:41-75 | A created book is stored under its new id, which no earlier book had, so the lookup by that id finds it |
| `Books.CreateThenRemoveRestores` | src/book/book.service.ts:106-111 | Removing a just-created book restores the book table |
| `Books.UpdateMayKeepOwnIsbn` | src/book/book.service.ts:81-95 | Updating a book to the ISBN it already has is accepted |
| `Books.RunKeepsIsbnsDistinct` | src/book/book.service.ts:21-111 | After any sequence of validated create, update and remove calls, `Valid` still holds: ISBNs are pairwise distinct and each book is filed under its own id. The id counter never decreases, so no generated id is reused |
| `BookServices.BookService.constructor` | src/book/book.service.ts:15-19 | Takes the table its injected repository holds, which must satisfy `Valid`, and keeps it unchanged |
| `BookServices.BookService.FindByIsbn` | src/book/book.service.ts:27-29 | Finds nothing exactly when no book has the ISBN. Otherwise returns a stored book with that ISBN |
| `BookServices.BookService.Create` | src/book/book.service.ts:21-48 | Result and new table are those of `Books.Create`. Keeps `Valid` |
| `BookServices.BookService.FindOne` | src/book/book.service.ts:61-75 | Returns the stored book exactly when the id is present. Otherwise fails with BookNotFound(id) |
| `BookServices.BookService.Update` | src/book/book.service.ts:77-104 | Result and new table are those of `Books.Update`. Keeps `Valid` |
| `BookServices.BookService.Remove` | src/book/book.service.ts:106-111 | Result and new table are those of `Books.Remove`. Keeps `Valid` |
| `Scenarios.AddToExistingRecord` | src/bookstore/bookstore.service.spec.ts:100-117 | A record of 5 plus 3 saves 8 |
| `Scenarios.RemoveMoreThanHeld` | src/bookstore/bookstore.service.spec.ts:121-135 | Removing 10 of 5 fails with InsufficientStock(1, 5), and the quantity stays 5 |
| `Scenarios.RemoveEverything` | src/bookstore/bookstore.service.spec.ts:137-153 | Removing 5 of 5 returns nothing, and the quantity reads 0 |
| `Scenarios.UnknownStore` | src/bookstore/bookstore.service.ts:57-59 | Add, remove and query on an unknown store all fail with BookStoreNotFound |
| `Scenarios.StockLifecycle` | src/bookstore/bookstore.service.ts:104-165 | Add 10, remove 4, remove 6 reads 10, 6, 0. A further removal fails with BookStoreNotFound |
| `Scenarios.RemoveNeverStocked` | src/bookstore/bookstore.service.ts:136-138 | For a store that exists, removing a book it never held fails with BookStoreNotFound |
| `Scenarios.StockOfUncataloguedBook` | src/bookstore/bookstore.service.ts:95-115 | The service's own checks let through a stock addition for a book id the catalog does not hold: it never consults the book table |
| `Scenarios.NegativeIdNotFound` | src/book/book.service.ts:61-75 | Id -1 is looked up like any other: the book lookup fails with BookNotFound(-1), and the store lookup and stock query with BookStoreNotFound(-1) |
| `Scenarios.CreateDuplicateIsbn` | src/book/book.service.spec.ts:56-72 | A second book with the same ISBN is refused with DuplicateEntry |
| `Scenarios.CreateThenFind` | src/book/book.service.spec.ts:74-123 | A created book carries the given properties and is found by its id. Id 999 gives BookNotFound(999) |

## Left out

- Concurrency. The services read a record, change it in memory and save it, with no lock. The model makes calls one after another, so it neither shows nor excludes lost updates.
- Logging. Every call to the logger is dropped.
- Loading relations (a store's list of records, a book's list of stores) and both `findAll` methods. These are plain list reads.
- Authentication and role checks. Registration, login, password hashing and token signing are calls into libraries whose behaviour is not visible. The role guards on the controllers only decide whether a call reaches a service.
- Controllers, the exception filter, module wiring and bootstrap. This is HTTP plumbing.
- The price. It is an opaque `real`: it is copied, never computed with, and its rounding to two decimal places is not modelled.
- Quantities are integers. The body validator accepts any positive number of at least 1, and non-integer quantities are not modelled.
- Number width. Ids and quantities are unbounded integers, with no floating-point limits.
- `Entities.ValidCreateBook`: the ISBN format and checksum check is weakened to "not empty".
- Repository faults: lost connections and unexpected constraint errors.
- Foreign keys from a stock record to its book and to its store (src/entities/bookstore-book.entity.ts:16-21). With the schema synchronised on Postgres they become database constraints. Two database errors follow, and neither is modelled: `addBook` for a book id the catalog does not hold fails on save, and removing a book that some store still stocks fails on delete. The model keeps the stock table and the book table apart, as the service code does.
- Fractional ids. A numeric-string parameter such as "1.5" converts to a fraction. Ids are modelled as integers, so what the database does with such a lookup is not modelled.
