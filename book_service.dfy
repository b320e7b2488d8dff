/** The book service as an object whose book table is a field that its methods
    read, check and overwrite. Each method that changes the table is proved to leave
    exactly the state the matching function in Books describes, and to keep
    Books.Valid (ISBNs unique). Creating, updating and removing books is gated to
    administrators in front of the service; that gate is not part of this model. */
module BookServices {
  import opened Exceptions
  import opened Entities
  import Books

  class BookService {
    /** The book table, keyed by id. */
    var books: map<BookId, Book>
    /** The id the database generates for the next book it saves. */
    var nextId: BookId

    function State(): Books.State
      reads this
    {
      Books.State(books, nextId)
    }

    ghost predicate Valid()
      reads this
    {
      Books.Valid(State())
    }

    /** A service over the table its repository holds, which satisfies the invariant. */
    constructor (initial: Books.State)
      requires Books.Valid(initial)
      ensures Valid() && State() == initial
    {
      books := initial.books;
      nextId := initial.nextId;
    }

    /** The repository's lookup by ISBN: some book with that ISBN, or nothing when no
        book has it. With unique ISBNs the book found is the only one. */
    method FindByIsbn(isbn: string) returns (found: Option<Book>)
      requires Valid()
      ensures found.None? <==> !Books.IsbnInUse(books, isbn)
      ensures found.Some? ==>
        found.value.id in books && books[found.value.id] == found.value && found.value.isbn == isbn
    {
      if id :| id in books && books[id].isbn == isbn {
        found := Some(books[id]);
      } else {
        found := None;
      }
    }

    /** Creating a book under an ISBN no book holds yet. */
    method Create(dto: CreateBookDto) returns (r: Result<Book>)
      requires Valid()
      modifies this
      ensures Valid()
      ensures Books.Step(r, State()) == Books.Create(old(State()), dto)
    {
      var existing := FindByIsbn(dto.isbn);
      if existing.Some? {
        return Err(DuplicateEntry(dto.isbn));
      }
      var book := Book(nextId, dto.title, dto.author, dto.isbn, dto.price);
      books := books[book.id := book];
      nextId := nextId + 1;
      return Ok(book);
    }

    /** The book with this id, or BookNotFound. */
    method FindOne(id: BookId) returns (r: Result<Book>)
      ensures r.Ok? <==> id in books
      ensures r.Ok? ==> r.value == books[id]
      ensures r.Err? ==> r.error == BookNotFound(id)
    {
      if id !in books {
        return Err(BookNotFound(id));
      }
      return Ok(books[id]);
    }

    /** Updating a book's properties; a non-empty new ISBN must not belong to another
        book. */
    method Update(id: BookId, dto: UpdateBookDto) returns (r: Result<Book>)
      requires Valid() && ValidUpdateBook(dto)
      modifies this
      ensures Valid()
      ensures Books.Step(r, State()) == Books.Update(old(State()), id, dto)
    {
      var found := FindOne(id);
      if found.Err? {
        return Err(found.error);
      }
      var book := found.value;
      if dto.isbn.Some? && dto.isbn.value != "" {
        var existing := FindByIsbn(dto.isbn.value);
        if existing.Some? && existing.value.id != id {
          return Err(DuplicateEntry(dto.isbn.value));
        }
        assert !Books.IsbnHeldByOther(books, dto.isbn.value, id);
      }
      book := Books.Assign(book, dto);
      books := books[id := book];
      return Ok(book);
    }

    /** Removing the book with this id. */
    method Remove(id: BookId) returns (r: Result<()>)
      requires Valid()
      modifies this
      ensures Valid()
      ensures Books.Step(r, State()) == Books.Remove(old(State()), id)
    {
      var found := FindOne(id);
      if found.Err? {
        return Err(found.error);
      }
      books := books - {found.value.id};
      return Ok(());
    }
  }
}
