/** What the store service does, as functions from the state of its two tables to
    the result of a call and the state after it: the store table (unique names) and
    the stock ledger (one record per store and book, each with a positive quantity).
    The class in BookStoreServices is proved against these functions. */
module BookStores {
  import opened Exceptions
  import opened Entities

  /** The key a stock record is looked up by. */
  datatype Pair = Pair(storeId: StoreId, bookId: BookId)

  /** The store table keyed by id, the stock records keyed by (store, book), and the
      id the database will generate for the next store. */
  datatype State = State(stores: map<StoreId, BookStore>, records: map<Pair, int>, nextId: StoreId)

  /** The outcome of a call that may change the tables. */
  datatype Step<T> = Step(result: Result<T>, state: State)

  /** No two stores share a name. */
  ghost predicate UniqueNames(stores: map<StoreId, BookStore>) {
    forall i, j | i in stores && j in stores && stores[i].name == stores[j].name :: i == j
  }

  /** Every stored quantity is positive: a record that reaches zero is deleted. */
  ghost predicate PositiveStock(records: map<Pair, int>) {
    forall p | p in records :: records[p] > 0
  }

  /** The invariant of the service's tables: each store is filed under its own id,
      below the next generated id; names are unique; every record has positive
      quantity and belongs to a store that exists. */
  ghost predicate Valid(s: State) {
    && (forall id | id in s.stores :: s.stores[id].id == id && id < s.nextId)
    && UniqueNames(s.stores)
    && PositiveStock(s.records)
    && (forall p | p in s.records :: p.storeId in s.stores)
  }

  /** Empty tables; generated ids start at 1. */
  function Empty(): (s: State)
    ensures Valid(s) && s.stores == map[] && s.records == map[]
  {
    State(map[], map[], 1)
  }

  /** Some store already has this name: the lookup by name finds a row. */
  predicate NameInUse(stores: map<StoreId, BookStore>, name: string) {
    exists id | id in stores :: stores[id].name == name
  }

  /** A store other than `id` has this name: the lookup by name finds a row whose id
      differs. With unique names, the row found is the only one with that name. */
  predicate NameHeldByOther(stores: map<StoreId, BookStore>, name: string, id: StoreId) {
    exists j | j in stores :: stores[j].name == name && j != id
  }

  /** The quantity the ledger holds for a store and a book: the record's, or 0 when
      there is no record. */
  function Quantity(records: map<Pair, int>, storeId: StoreId, bookId: BookId): int {
    var key := Pair(storeId, bookId);
    if key in records then records[key] else 0
  }

  /** Creating a store: refused with DuplicateEntry when its name is taken; otherwise
      exactly one store is added, under a fresh id, carrying the given name and address. */
  function Create(s: State, dto: CreateBookStoreDto): (r: Step<BookStore>)
    ensures r.result.Err? <==> NameInUse(s.stores, dto.name)
    ensures r.result.Err? ==> r == Step(Err(DuplicateEntry(dto.name)), s)
    ensures r.result.Ok? ==>
      var store := r.result.value;
      && store.name == dto.name && store.address == dto.address
      && r.state.stores == s.stores[store.id := store]
      && r.state.records == s.records
    ensures Valid(s) ==> Valid(r.state) && (r.result.Ok? ==> r.result.value.id !in s.stores)
  {
    if NameInUse(s.stores, dto.name) then
      Step(Err(DuplicateEntry(dto.name)), s)
    else
      var store := BookStore(s.nextId, dto.name, dto.address);
      Step(Ok(store), s.(stores := s.stores[s.nextId := store], nextId := s.nextId + 1))
  }

  /** Copying the properties a partial update carries onto a store; the id is never
      part of an update body. */
  function Assign(store: BookStore, dto: UpdateBookStoreDto): (r: BookStore)
    ensures r.id == store.id
    ensures r.name == (if dto.name.Some? then dto.name.value else store.name)
    ensures r.address == (if dto.address.Some? then dto.address.value else store.address)
  {
    store.(name := dto.name.GetOr(store.name), address := dto.address.GetOr(store.address))
  }

  /** Updating a store: BookStoreNotFound for an unknown id; DuplicateEntry when the
      new name is non-empty and held by another store; otherwise only this store
      changes, and only in the properties the update carries. */
  function Update(s: State, id: StoreId, dto: UpdateBookStoreDto): (r: Step<BookStore>)
    ensures id !in s.stores ==> r == Step(Err(BookStoreNotFound(id)), s)
    ensures id in s.stores ==>
      (r.result.Err? <==> dto.name.Some? && dto.name.value != "" && NameHeldByOther(s.stores, dto.name.value, id))
    ensures r.result.Err? ==> r.state == s
    ensures r.result.Err? && id in s.stores ==> r.result.error == DuplicateEntry(dto.name.value)
    ensures r.result.Ok? ==>
      && id in s.stores
      && r.result.value == Assign(s.stores[id], dto)
      && r.state == s.(stores := s.stores[id := r.result.value])
    ensures Valid(s) && ValidUpdateBookStore(dto) ==> Valid(r.state)
  {
    if id !in s.stores then
      Step(Err(BookStoreNotFound(id)), s)
    else if dto.name.Some? && dto.name.value != "" && NameHeldByOther(s.stores, dto.name.value, id) then
      Step(Err(DuplicateEntry(dto.name.value)), s)
    else
      var store := Assign(s.stores[id], dto);
      Step(Ok(store), s.(stores := s.stores[id := store]))
  }

  /** Adding copies of a book to a store: BookStoreNotFound for an unknown store, with
      nothing changed; otherwise the pair's quantity grows by exactly `quantity` (a
      record is created when there was none), the saved record is returned, and every
      other record and the store table are untouched. The book id is not checked. */
  function AddBook(s: State, storeId: StoreId, bookId: BookId, quantity: int): (r: Step<BookStoreBook>)
    requires quantity >= 1
    ensures storeId !in s.stores ==> r == Step(Err(BookStoreNotFound(storeId)), s)
    ensures storeId in s.stores ==>
      var total := Quantity(s.records, storeId, bookId) + quantity;
      && r.result == Ok(BookStoreBook(storeId, bookId, total))
      && Pair(storeId, bookId) in r.state.records
      && Quantity(r.state.records, storeId, bookId) == total
      && r.state.records - {Pair(storeId, bookId)} == s.records - {Pair(storeId, bookId)}
      && r.state.stores == s.stores && r.state.nextId == s.nextId
    ensures Valid(s) ==> Valid(r.state)
  {
    if storeId !in s.stores then
      Step(Err(BookStoreNotFound(storeId)), s)
    else
      var key := Pair(storeId, bookId);
      if key in s.records then
        var total := s.records[key] + quantity;
        Step(Ok(BookStoreBook(storeId, bookId, total)), s.(records := s.records[key := total]))
      else
        Step(Ok(BookStoreBook(storeId, bookId, quantity)), s.(records := s.records[key := quantity]))
  }

  /** Removing copies of a book from a store. It fails, changing nothing, with
      BookStoreNotFound when the store is unknown or holds no record of the book, and
      with InsufficientStock(book, available) when fewer copies are held than asked
      for. On success the quantity drops by exactly `quantity`; the record is deleted
      (and nothing returned) when it reaches zero, else the updated record is
      returned; every other record and the store table are untouched. */
  function RemoveBook(s: State, storeId: StoreId, bookId: BookId, quantity: int): (r: Step<Option<BookStoreBook>>)
    requires quantity >= 1
    ensures r.result.Err? ==> r.state == s
    ensures r.result.Err? ==> r.result.error == BookStoreNotFound(storeId) || r.result.error.InsufficientStock?
    ensures r.result == Err(BookStoreNotFound(storeId)) <==>
      storeId !in s.stores || Pair(storeId, bookId) !in s.records
    ensures r.result.Err? && r.result.error.InsufficientStock? <==>
      storeId in s.stores && Pair(storeId, bookId) in s.records && s.records[Pair(storeId, bookId)] < quantity
    ensures r.result.Err? && r.result.error.InsufficientStock? ==>
      r.result.error == InsufficientStock(bookId, Quantity(s.records, storeId, bookId))
    ensures r.result.Ok? ==>
      && Quantity(r.state.records, storeId, bookId) == Quantity(s.records, storeId, bookId) - quantity
      && r.state.records - {Pair(storeId, bookId)} == s.records - {Pair(storeId, bookId)}
      && r.state.stores == s.stores && r.state.nextId == s.nextId
      && (r.result.value.None? <==> Pair(storeId, bookId) !in r.state.records)
      && (r.result.value.Some? ==>
            r.result.value.value == BookStoreBook(storeId, bookId, r.state.records[Pair(storeId, bookId)]))
    ensures Valid(s) ==> Valid(r.state)
  {
    var key := Pair(storeId, bookId);
    if storeId !in s.stores then
      Step(Err(BookStoreNotFound(storeId)), s)
    else if key !in s.records then
      Step(Err(BookStoreNotFound(storeId)), s)
    else if s.records[key] < quantity then
      Step(Err(InsufficientStock(bookId, s.records[key])), s)
    else
      var left := s.records[key] - quantity;
      if left == 0 then
        Step(Ok(None), s.(records := s.records - {key}))
      else
        Step(Ok(Some(BookStoreBook(storeId, bookId, left))), s.(records := s.records[key := left]))
  }

  /** Querying stock: BookStoreNotFound for an unknown store; otherwise the ledger's
      quantity, which in a valid state is never negative and is zero exactly when
      the pair has no record. */
  function GetBookQuantity(s: State, storeId: StoreId, bookId: BookId): (r: Result<int>)
    ensures r.Err? <==> storeId !in s.stores
    ensures r.Err? ==> r.error == BookStoreNotFound(storeId)
    ensures r.Ok? ==> r.value == Quantity(s.records, storeId, bookId)
    ensures r.Ok? && Valid(s) ==> r.value >= 0 && (r.value == 0 <==> Pair(storeId, bookId) !in s.records)
  {
    if storeId !in s.stores then Err(BookStoreNotFound(storeId))
    else Ok(Quantity(s.records, storeId, bookId))
  }

  /** Adding copies and then removing as many restores the tables exactly: the two
      operations are inverse on a store that exists. */
  lemma AddThenRemoveRestores(s: State, storeId: StoreId, bookId: BookId, quantity: int)
    requires Valid(s) && storeId in s.stores && quantity >= 1
    ensures var added := AddBook(s, storeId, bookId, quantity);
      RemoveBook(added.state, storeId, bookId, quantity).state == s
  {
  }

  /** A removal that succeeds is undone by adding the same number of copies back,
      whether it decremented the record or deleted it. */
  lemma RemoveThenAddRestores(s: State, storeId: StoreId, bookId: BookId, quantity: int)
    requires Valid(s) && quantity >= 1
    requires RemoveBook(s, storeId, bookId, quantity).result.Ok?
    ensures var removed := RemoveBook(s, storeId, bookId, quantity);
      AddBook(removed.state, storeId, bookId, quantity).state == s
  {
  }

  /** Two additions to the same pair accumulate: the quantity afterwards is the
      quantity before plus both amounts (5 + 3 = 8 on a record holding 5 is one case). */
  lemma AddsAccumulate(s: State, storeId: StoreId, bookId: BookId, first: int, second: int)
    requires storeId in s.stores && first >= 1 && second >= 1
    ensures var once := AddBook(s, storeId, bookId, first);
      var twice := AddBook(once.state, storeId, bookId, second);
      && twice.result == Ok(BookStoreBook(storeId, bookId, Quantity(s.records, storeId, bookId) + first + second))
      && GetBookQuantity(twice.state, storeId, bookId) == Ok(Quantity(s.records, storeId, bookId) + first + second)
  {
  }

  /** Removing exactly the stored quantity deletes the record and returns nothing;
      the quantity then reads 0, and removing even one more copy fails with
      BookStoreNotFound, as for a pair that never had a record. */
  lemma ExactRemovalDeletesRecord(s: State, storeId: StoreId, bookId: BookId)
    requires Valid(s) && storeId in s.stores && Pair(storeId, bookId) in s.records
    ensures var emptied := RemoveBook(s, storeId, bookId, s.records[Pair(storeId, bookId)]);
      && emptied.result == Ok(None)
      && Pair(storeId, bookId) !in emptied.state.records
      && GetBookQuantity(emptied.state, storeId, bookId) == Ok(0)
      && RemoveBook(emptied.state, storeId, bookId, 1) == Step(Err(BookStoreNotFound(storeId)), emptied.state)
  {
  }

  /** A store may be updated to the name it already has: only another store's name
      is refused. */
  lemma UpdateMayKeepOwnName(s: State, id: StoreId, address: Option<string>)
    requires Valid(s) && id in s.stores
    ensures Update(s, id, UpdateBookStoreDto(Some(s.stores[id].name), address)).result.Ok?
  {
  }

  /** The uniqueness check on update only runs for a non-empty name, so two stores
      can end up sharing the empty name. Only the request validators (a name has at
      least two characters) keep names unique. */
  lemma EmptyNameSkipsUniquenessCheck()
    ensures var first := Create(Empty(), CreateBookStoreDto("", "Main Street 1"));
      var second := Create(first.state, CreateBookStoreDto("Downtown Books", "Main Street 2"));
      var renamed := Update(second.state, 2, UpdateBookStoreDto(Some(""), None));
      && renamed.result.Ok?
      && !UniqueNames(renamed.state.stores)
  {
    var first := Create(Empty(), CreateBookStoreDto("", "Main Street 1"));
    var second := Create(first.state, CreateBookStoreDto("Downtown Books", "Main Street 2"));
    var renamed := Update(second.state, 2, UpdateBookStoreDto(Some(""), None));
    assert renamed.state.stores[1].name == renamed.state.stores[2].name;
  }

  /** The calls that change the store service's tables. Finding a store and
      querying a quantity read them only. */
  datatype Call =
    | CreateStore(create: CreateBookStoreDto)
    | UpdateStore(id: StoreId, update: UpdateBookStoreDto)
    | AddStock(storeId: StoreId, bookId: BookId, quantity: int)
    | RemoveStock(storeId: StoreId, bookId: BookId, quantity: int)

  /** A call whose request body passed validation. */
  predicate Admissible(c: Call) {
    match c
    case CreateStore(dto) => ValidCreateBookStore(dto)
    case UpdateStore(_, dto) => ValidUpdateBookStore(dto)
    case AddStock(_, _, quantity) => quantity >= 1
    case RemoveStock(_, _, quantity) => quantity >= 1
  }

  /** The tables after one call, whether it succeeded or failed. */
  function Apply(s: State, c: Call): State
    requires Admissible(c)
  {
    match c
    case CreateStore(dto) => Create(s, dto).state
    case UpdateStore(id, dto) => Update(s, id, dto).state
    case AddStock(storeId, bookId, quantity) => AddBook(s, storeId, bookId, quantity).state
    case RemoveStock(storeId, bookId, quantity) => RemoveBook(s, storeId, bookId, quantity).state
  }

  /** The tables after a sequence of calls, made one after another. */
  function Run(s: State, calls: seq<Call>): State
    requires forall i | 0 <= i < |calls| :: Admissible(calls[i])
    decreases |calls|
  {
    if calls == [] then s else Run(Apply(s, calls[0]), calls[1..])
  }

  /** Whatever validated calls are made, the invariant holds afterwards: names stay
      unique, every record has positive quantity, and every record belongs to a
      store that exists. */
  lemma {:induction false} RunKeepsValid(s: State, calls: seq<Call>)
    requires Valid(s)
    requires forall i | 0 <= i < |calls| :: Admissible(calls[i])
    ensures Valid(Run(s, calls))
    decreases |calls|
  {
    if calls != [] {
      RunKeepsValid(Apply(s, calls[0]), calls[1..]);
    }
  }

  /** `count` copies of the same call. */
  function Repeat(c: Call, count: nat): (r: seq<Call>)
    ensures |r| == count && forall i | 0 <= i < count :: r[i] == c
  {
    if count == 0 then [] else [c] + Repeat(c, count - 1)
  }

  /** Adding one copy `count` times, one call after another, raises the quantity by
      exactly `count`: no addition is lost. */
  lemma {:induction false} UnitAddsAreCounted(s: State, storeId: StoreId, bookId: BookId, count: nat)
    requires storeId in s.stores
    ensures GetBookQuantity(Run(s, Repeat(AddStock(storeId, bookId, 1), count)), storeId, bookId)
         == Ok(Quantity(s.records, storeId, bookId) + count)
    decreases count
  {
    if count > 0 {
      var c := AddStock(storeId, bookId, 1);
      assert Repeat(c, count)[1..] == Repeat(c, count - 1);
      UnitAddsAreCounted(Apply(s, c), storeId, bookId, count - 1);
    }
  }
}
