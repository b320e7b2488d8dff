/** The scenarios of the services' unit tests, replayed against the two service
    classes: each method starts from empty repository tables, makes the calls of one test in
    order, and promises the outcome that test expects. */
module Scenarios {
  import opened Exceptions
  import opened Entities
  import BookStores
  import BookStoreServices
  import Books
  import BookServices

  /** A service with one store, "Test Store", which gets id 1. */
  method StoreWithOneShop() returns (service: BookStoreServices.BookStoreService)
    ensures fresh(service) && service.Valid()
    ensures service.stores.Keys == {1} && service.records == map[]
  {
    service := new BookStoreServices.BookStoreService(BookStores.Empty());
    var created := service.Create(CreateBookStoreDto("Test Store", "Test Address"));
    assert created == Ok(BookStore(1, "Test Store", "Test Address"));
  }

  /** A store holding 5 copies of book 1 receives 3 more: the saved record holds 8. */
  method AddToExistingRecord() returns (r: Result<BookStoreBook>)
    ensures r == Ok(BookStoreBook(1, 1, 8))
  {
    var service := StoreWithOneShop();
    var first := service.AddBook(1, 1, 5);
    r := service.AddBook(1, 1, 3);
  }

  /** Removing 10 copies from a record of 5 fails with InsufficientStock, reporting 5
      available, and the quantity stays 5. */
  method RemoveMoreThanHeld() returns (r: Result<Option<BookStoreBook>>, after: Result<int>)
    ensures r == Err(InsufficientStock(1, 5))
    ensures after == Ok(5)
  {
    var service := StoreWithOneShop();
    var added := service.AddBook(1, 1, 5);
    r := service.RemoveBook(1, 1, 10);
    after := service.GetBookQuantity(1, 1);
  }

  /** Removing all 5 copies deletes the record and returns nothing; the quantity then
      reads 0. */
  method RemoveEverything() returns (r: Result<Option<BookStoreBook>>, after: Result<int>)
    ensures r == Ok(None)
    ensures after == Ok(0)
  {
    var service := StoreWithOneShop();
    var added := service.AddBook(1, 1, 5);
    r := service.RemoveBook(1, 1, 5);
    after := service.GetBookQuantity(1, 1);
  }

  /** Every ledger call names an unknown store: each fails with BookStoreNotFound and
      no record is created. */
  method UnknownStore() returns (added: Result<BookStoreBook>, removed: Result<Option<BookStoreBook>>, count: Result<int>)
    ensures added == Err(BookStoreNotFound(999))
    ensures removed == Err(BookStoreNotFound(999))
    ensures count == Err(BookStoreNotFound(999))
  {
    var service := StoreWithOneShop();
    added := service.AddBook(999, 1, 1);
    removed := service.RemoveBook(999, 1, 1);
    count := service.GetBookQuantity(999, 1);
    assert service.records == map[];
  }

  /** Stock moves 10, then 6 after removing 4, then nothing after removing 6; the
      quantity reads 0, and removing one more copy fails as for a book never held. */
  method StockLifecycle() returns (trail: seq<Result<int>>, last: Result<Option<BookStoreBook>>)
    ensures trail == [Ok(10), Ok(6), Ok(0)]
    ensures last == Err(BookStoreNotFound(1))
  {
    var service := StoreWithOneShop();
    var added := service.AddBook(1, 1, 10);
    var q1 := service.GetBookQuantity(1, 1);
    var removed := service.RemoveBook(1, 1, 4);
    var q2 := service.GetBookQuantity(1, 1);
    removed := service.RemoveBook(1, 1, 6);
    assert removed == Ok(None);
    var q3 := service.GetBookQuantity(1, 1);
    trail := [q1, q2, q3];
    last := service.RemoveBook(1, 1, 1);
  }

  /** A second book with an ISBN already in the catalog is refused. */
  method CreateDuplicateIsbn() returns (r: Result<Book>)
    ensures r == Err(DuplicateEntry("123456789"))
  {
    var service := new BookServices.BookService(Books.Empty());
    var first := service.Create(CreateBookDto("Test Book", "Test Author", "123456789", 29.99));
    r := service.Create(CreateBookDto("Another Book", "Another Author", "123456789", 10.00));
  }

  /** A book with a new ISBN is created with the given properties, under id 1, and is
      then found by that id; an unknown id is not found. */
  method CreateThenFind() returns (created: Result<Book>, found: Result<Book>, missing: Result<Book>)
    ensures created == Ok(Book(1, "Test Book", "Test Author", "123456789", 29.99))
    ensures found == created
    ensures missing == Err(BookNotFound(999))
  {
    var service := new BookServices.BookService(Books.Empty());
    created := service.Create(CreateBookDto("Test Book", "Test Author", "123456789", 29.99));
    found := service.FindOne(1);
    missing := service.FindOne(999);
  }

  /** Removing a book the store has never held fails with BookStoreNotFound for
      that store, although the store itself is found. */
  method RemoveNeverStocked() returns (store: Result<BookStore>, r: Result<Option<BookStoreBook>>)
    ensures store.Ok? && store.value.id == 1
    ensures r == Err(BookStoreNotFound(1))
  {
    var service := StoreWithOneShop();
    store := service.FindOne(1);
    r := service.RemoveBook(1, 7, 1);
  }

  /** The service never consults the book table: its stock call for a book id the
      catalog no longer holds gets past every check of its own. The database's
      foreign key from a stock record to its book, which would refuse that save, is
      not part of this model. */
  method StockOfUncataloguedBook() returns (added: Result<BookStoreBook>, lookup: Result<Book>, count: Result<int>)
    ensures added == Ok(BookStoreBook(1, 1, 4))
    ensures lookup == Err(BookNotFound(1))
    ensures count == Ok(4)
  {
    var catalog := new BookServices.BookService(Books.Empty());
    var stores := StoreWithOneShop();
    var created := catalog.Create(CreateBookDto("Clean Code", "Robert C. Martin", "9780132350884", 44.99));
    assert created.Ok? && created.value.id == 1;
    var removed := catalog.Remove(1);
    added := stores.AddBook(1, 1, 4);
    lookup := catalog.FindOne(1);
    count := stores.GetBookQuantity(1, 1);
  }

  /** A negative id passes the numeric-string check of a path parameter, and the
      lookups report it back unchanged in their not-found errors. */
  method NegativeIdNotFound() returns (book: Result<Book>, store: Result<BookStore>, count: Result<int>)
    ensures book == Err(BookNotFound(-1))
    ensures store == Err(BookStoreNotFound(-1))
    ensures count == Err(BookStoreNotFound(-1))
  {
    var catalog := new BookServices.BookService(Books.Empty());
    var stores := StoreWithOneShop();
    book := catalog.FindOne(-1);
    store := stores.FindOne(-1);
    count := stores.GetBookQuantity(-1, 1);
  }
}
