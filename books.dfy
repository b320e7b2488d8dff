/** What the book service does, as functions from the book table to the result of a
    call and the table after it. ISBNs are unique only because the service checks
    them before every insert and every change of ISBN; the table itself does not
    enforce it. The class in BookServices is proved against these functions. */
module Books {
  import opened Exceptions
  import opened Entities

  /** The book table keyed by id, and the id the database will generate next. */
  datatype State = State(books: map<BookId, Book>, nextId: BookId)

  /** The outcome of a call that may change the table. */
  datatype Step<T> = Step(result: Result<T>, state: State)

  /** No two books share an ISBN. */
  ghost predicate UniqueIsbns(books: map<BookId, Book>) {
    forall i, j | i in books && j in books && books[i].isbn == books[j].isbn :: i == j
  }

  /** The invariant of the table: each book is filed under its own id, below the next
      generated id, and ISBNs are unique. */
  ghost predicate Valid(s: State) {
    && (forall id | id in s.books :: s.books[id].id == id && id < s.nextId)
    && UniqueIsbns(s.books)
  }

  /** An empty table; generated ids start at 1. */
  function Empty(): (s: State)
    ensures Valid(s) && s.books == map[]
  {
    State(map[], 1)
  }

  /** Some book has this ISBN: the lookup by ISBN finds a row. */
  predicate IsbnInUse(books: map<BookId, Book>, isbn: string) {
    exists id | id in books :: books[id].isbn == isbn
  }

  /** A book other than `id` has this ISBN: the lookup by ISBN finds a row whose id
      differs. With unique ISBNs, the row found is the only one with that ISBN. */
  predicate IsbnHeldByOther(books: map<BookId, Book>, isbn: string, id: BookId) {
    exists j | j in books :: books[j].isbn == isbn && j != id
  }

  /** Creating a book: refused with DuplicateEntry, storing nothing, when its ISBN is
      taken; otherwise exactly one book is added, under a fresh id, carrying the
      given title, author, ISBN and price, and it is returned. */
  function Create(s: State, dto: CreateBookDto): (r: Step<Book>)
    ensures r.result.Err? <==> IsbnInUse(s.books, dto.isbn)
    ensures r.result.Err? ==> r == Step(Err(DuplicateEntry(dto.isbn)), s)
    ensures r.result.Ok? ==>
      var book := r.result.value;
      && book == Book(book.id, dto.title, dto.author, dto.isbn, dto.price)
      && r.state.books == s.books[book.id := book]
    ensures Valid(s) ==> Valid(r.state) && (r.result.Ok? ==> r.result.value.id !in s.books)
  {
    if IsbnInUse(s.books, dto.isbn) then
      Step(Err(DuplicateEntry(dto.isbn)), s)
    else
      var book := Book(s.nextId, dto.title, dto.author, dto.isbn, dto.price);
      Step(Ok(book), State(s.books[s.nextId := book], s.nextId + 1))
  }

  /** Copying the properties a partial update carries onto a book; the id is never
      part of an update body. */
  function Assign(book: Book, dto: UpdateBookDto): (r: Book)
    ensures r.id == book.id
    ensures r.title == (if dto.title.Some? then dto.title.value else book.title)
    ensures r.author == (if dto.author.Some? then dto.author.value else book.author)
    ensures r.isbn == (if dto.isbn.Some? then dto.isbn.value else book.isbn)
    ensures r.price == (if dto.price.Some? then dto.price.value else book.price)
  {
    book.(title := dto.title.GetOr(book.title), author := dto.author.GetOr(book.author),
          isbn := dto.isbn.GetOr(book.isbn), price := dto.price.GetOr(book.price))
  }

  /** Updating a book: BookNotFound for an unknown id, before any other check;
      DuplicateEntry when a non-empty new ISBN belongs to another book; otherwise
      only this book changes, and only in the properties the update carries. */
  function Update(s: State, id: BookId, dto: UpdateBookDto): (r: Step<Book>)
    ensures id !in s.books ==> r == Step(Err(BookNotFound(id)), s)
    ensures id in s.books ==>
      (r.result.Err? <==> dto.isbn.Some? && dto.isbn.value != "" && IsbnHeldByOther(s.books, dto.isbn.value, id))
    ensures r.result.Err? ==> r.state == s
    ensures r.result.Err? && id in s.books ==> r.result.error == DuplicateEntry(dto.isbn.value)
    ensures r.result.Ok? ==>
      && id in s.books
      && r.result.value == Assign(s.books[id], dto)
      && r.state == s.(books := s.books[id := r.result.value])
    ensures Valid(s) && ValidUpdateBook(dto) ==> Valid(r.state)
  {
    if id !in s.books then
      Step(Err(BookNotFound(id)), s)
    else if dto.isbn.Some? && dto.isbn.value != "" && IsbnHeldByOther(s.books, dto.isbn.value, id) then
      Step(Err(DuplicateEntry(dto.isbn.value)), s)
    else
      var book := Assign(s.books[id], dto);
      Step(Ok(book), s.(books := s.books[id := book]))
  }

  /** Removing a book: BookNotFound, changing nothing, for an unknown id; otherwise
      exactly that book leaves the table. */
  function Remove(s: State, id: BookId): (r: Step<()>)
    ensures r.result.Err? <==> id !in s.books
    ensures r.result.Err? ==> r == Step(Err(BookNotFound(id)), s)
    ensures r.result.Ok? ==> r.state.books.Keys == s.books.Keys - {id}
    ensures forall j | j in r.state.books :: j in s.books && r.state.books[j] == s.books[j]
    ensures r.state.nextId == s.nextId
    ensures Valid(s) ==> Valid(r.state)
  {
    if id !in s.books then Step(Err(BookNotFound(id)), s)
    else Step(Ok(()), s.(books := s.books - {id}))
  }

  /** A book just created is stored under the id it was given, so a lookup by that
      id finds it; no book stored before had that id. */
  lemma CreatedBookIsFound(s: State, dto: CreateBookDto)
    requires Valid(s) && !IsbnInUse(s.books, dto.isbn)
    ensures var created := Create(s, dto);
      && created.result.Ok?
      && created.result.value.id !in s.books
      && created.result.value.id in created.state.books
      && created.state.books[created.result.value.id] == created.result.value
  {
  }

  /** Removing a book just created gives back the table as it was, apart from the
      id counter: creation and removal are inverse. */
  lemma CreateThenRemoveRestores(s: State, dto: CreateBookDto)
    requires Valid(s) && !IsbnInUse(s.books, dto.isbn)
    ensures var created := Create(s, dto);
      Remove(created.state, created.result.value.id).state.books == s.books
  {
  }

  /** A book may be updated to the ISBN it already has: only another book's ISBN is
      refused. */
  lemma UpdateMayKeepOwnIsbn(s: State, id: BookId, dto: UpdateBookDto)
    requires Valid(s) && id in s.books && dto.isbn == Some(s.books[id].isbn)
    ensures Update(s, id, dto).result.Ok?
  {
  }

  /** The calls that change the book table. Finding a book and listing books read it
      only. */
  datatype Call =
    | CreateBook(create: CreateBookDto)
    | UpdateBook(id: BookId, update: UpdateBookDto)
    | RemoveBook(id: BookId)

  /** A call whose request body passed validation. */
  predicate Admissible(c: Call) {
    match c
    case CreateBook(dto) => ValidCreateBook(dto)
    case UpdateBook(_, dto) => ValidUpdateBook(dto)
    case RemoveBook(_) => true
  }

  /** The table after one call, whether it succeeded or failed. */
  function Apply(s: State, c: Call): State
    requires Admissible(c)
  {
    match c
    case CreateBook(dto) => Create(s, dto).state
    case UpdateBook(id, dto) => Update(s, id, dto).state
    case RemoveBook(id) => Remove(s, id).state
  }

  /** The table after a sequence of calls, made one after another. */
  function Run(s: State, calls: seq<Call>): State
    requires forall i | 0 <= i < |calls| :: Admissible(calls[i])
    decreases |calls|
  {
    if calls == [] then s else Run(Apply(s, calls[0]), calls[1..])
  }

  /** When books are only added, changed and removed through the service, ISBNs stay
      pairwise distinct (the `UniqueIsbns` part of `Valid`), whatever validated calls
      are made; and the id counter never moves back, so no generated id is handed
      out twice. */
  lemma {:induction false} RunKeepsIsbnsDistinct(s: State, calls: seq<Call>)
    requires Valid(s)
    requires forall i | 0 <= i < |calls| :: Admissible(calls[i])
    ensures Valid(Run(s, calls))
    ensures s.nextId <= Run(s, calls).nextId
    decreases |calls|
  {
    if calls != [] {
      RunKeepsIsbnsDistinct(Apply(s, calls[0]), calls[1..]);
    }
  }
}
