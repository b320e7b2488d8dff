/** The store service as an object whose repository tables are fields that its
    methods read, check and overwrite, one call after another. Each method that
    changes a table is proved to leave exactly the state the matching function in
    BookStores describes, and to keep BookStores.Valid. Mutating calls are reached
    only by administrators (and, for stock changes, store managers); that gate sits
    in front of the service and is not part of this model. */
module BookStoreServices {
  import opened Exceptions
  import opened Entities
  import BookStores

  class BookStoreService {
    /** The store table, keyed by id. */
    var stores: map<StoreId, BookStore>
    /** The stock-record table, keyed by (store, book). */
    var records: map<BookStores.Pair, int>
    /** The id the database generates for the next store it saves. */
    var nextId: StoreId

    function State(): BookStores.State
      reads this
    {
      BookStores.State(stores, records, nextId)
    }

    ghost predicate Valid()
      reads this
    {
      BookStores.Valid(State())
    }

    /** A service over the tables its repositories hold, which satisfy the invariant. */
    constructor (initial: BookStores.State)
      requires BookStores.Valid(initial)
      ensures Valid() && State() == initial
    {
      stores := initial.stores;
      records := initial.records;
      nextId := initial.nextId;
    }

    /** The store with this id, or BookStoreNotFound. */
    method FindOne(id: StoreId) returns (r: Result<BookStore>)
      ensures r.Ok? <==> id in stores
      ensures r.Ok? ==> r.value == stores[id]
      ensures r.Err? ==> r.error == BookStoreNotFound(id)
    {
      if id !in stores {
        return Err(BookStoreNotFound(id));
      }
      return Ok(stores[id]);
    }

    /** The repository's lookup by name: some store with that name, or nothing when
        no store has it. With unique names the store found is the only one. */
    method FindByName(name: string) returns (found: Option<BookStore>)
      requires Valid()
      ensures found.None? <==> !BookStores.NameInUse(stores, name)
      ensures found.Some? ==>
        found.value.id in stores && stores[found.value.id] == found.value && found.value.name == name
    {
      if id :| id in stores && stores[id].name == name {
        found := Some(stores[id]);
      } else {
        found := None;
      }
    }

    /** Creating a store under a name no store holds yet. */
    method Create(dto: CreateBookStoreDto) returns (r: Result<BookStore>)
      requires Valid()
      modifies this
      ensures Valid()
      ensures BookStores.Step(r, State()) == BookStores.Create(old(State()), dto)
    {
      var existing := FindByName(dto.name);
      if existing.Some? {
        return Err(DuplicateEntry(dto.name));
      }
      var store := BookStore(nextId, dto.name, dto.address);
      stores := stores[store.id := store];
      nextId := nextId + 1;
      return Ok(store);
    }

    /** Updating a store's name or address; a non-empty new name must not belong to
        another store. */
    method Update(id: StoreId, dto: UpdateBookStoreDto) returns (r: Result<BookStore>)
      requires Valid() && ValidUpdateBookStore(dto)
      modifies this
      ensures Valid()
      ensures BookStores.Step(r, State()) == BookStores.Update(old(State()), id, dto)
    {
      var found := FindOne(id);
      if found.Err? {
        return Err(found.error);
      }
      var store := found.value;
      if dto.name.Some? && dto.name.value != "" {
        var existing := FindByName(dto.name.value);
        if existing.Some? && existing.value.id != id {
          return Err(DuplicateEntry(dto.name.value));
        }
        assert !BookStores.NameHeldByOther(stores, dto.name.value, id);
      }
      store := BookStores.Assign(store, dto);
      stores := stores[id := store];
      return Ok(store);
    }

    /** Adding `quantity` copies of a book to a store: the record's quantity grows,
        or a record is created. */
    method AddBook(storeId: StoreId, bookId: BookId, quantity: int) returns (r: Result<BookStoreBook>)
      requires Valid() && quantity >= 1
      modifies this
      ensures Valid()
      ensures BookStores.Step(r, State()) == BookStores.AddBook(old(State()), storeId, bookId, quantity)
    {
      var store := FindOne(storeId);
      if store.Err? {
        return Err(store.error);
      }
      var key := BookStores.Pair(storeId, bookId);
      if key in records {
        var existing := BookStoreBook(storeId, bookId, records[key]);
        existing := existing.(quantity := existing.quantity + quantity);
        records := records[key := existing.quantity];
        return Ok(existing);
      }
      var created := BookStoreBook(storeId, bookId, quantity);
      records := records[key := created.quantity];
      return Ok(created);
    }

    /** Removing `quantity` copies of a book from a store: the record must exist and
        hold enough; it is deleted when it reaches zero. */
    method RemoveBook(storeId: StoreId, bookId: BookId, quantity: int) returns (r: Result<Option<BookStoreBook>>)
      requires Valid() && quantity >= 1
      modifies this
      ensures Valid()
      ensures BookStores.Step(r, State()) == BookStores.RemoveBook(old(State()), storeId, bookId, quantity)
    {
      var store := FindOne(storeId);
      if store.Err? {
        return Err(store.error);
      }
      var key := BookStores.Pair(storeId, bookId);
      if key !in records {
        return Err(BookStoreNotFound(storeId));
      }
      var record := BookStoreBook(storeId, bookId, records[key]);
      if record.quantity < quantity {
        return Err(InsufficientStock(bookId, record.quantity));
      }
      record := record.(quantity := record.quantity - quantity);
      if record.quantity == 0 {
        records := records - {key};
        return Ok(None);
      }
      records := records[key := record.quantity];
      return Ok(Some(record));
    }

    /** How many copies of a book a store holds: 0 when it has no record of it. */
    method GetBookQuantity(storeId: StoreId, bookId: BookId) returns (r: Result<int>)
      requires Valid()
      ensures r.Err? <==> storeId !in stores
      ensures r.Err? ==> r.error == BookStoreNotFound(storeId)
      ensures r.Ok? ==> r.value >= 0
      ensures r.Ok? ==> (r.value == 0 <==> BookStores.Pair(storeId, bookId) !in records)
      ensures r.Ok? && r.value > 0 ==> r.value == records[BookStores.Pair(storeId, bookId)]
    {
      var store := FindOne(storeId);
      if store.Err? {
        return Err(store.error);
      }
      var key := BookStores.Pair(storeId, bookId);
      if key in records {
        return Ok(records[key]);
      }
      return Ok(0);
    }
  }
}
