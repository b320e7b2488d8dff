/** The persisted entities and the request bodies the services accept. Identifiers
    arrive as path parameters that only need to be numeric strings and are then
    converted to numbers, so a negative id reaches the services; ids are integers. */
module Entities {
  import opened Exceptions

  type StoreId = int
  type BookId = int

  /** A catalog book. The decimal price is carried as an opaque value and never
      computed with. */
  datatype Book = Book(id: BookId, title: string, author: string, isbn: string, price: real)

  /** A store; its list of stock records is loaded on demand and is kept apart, in
      the record table. */
  datatype BookStore = BookStore(id: StoreId, name: string, address: string)

  /** A stock record: how many copies of one book one store holds. */
  datatype BookStoreBook = BookStoreBook(storeId: StoreId, bookId: BookId, quantity: int)

  datatype CreateBookDto = CreateBookDto(title: string, author: string, isbn: string, price: real)

  /** A partial update: `None` is a property the request body leaves out. */
  datatype UpdateBookDto =
    UpdateBookDto(title: Option<string>, author: Option<string>, isbn: Option<string>, price: Option<real>)

  datatype CreateBookStoreDto = CreateBookStoreDto(name: string, address: string)

  datatype UpdateBookStoreDto = UpdateBookStoreDto(name: Option<string>, address: Option<string>)

  /** The validators on a book body: title and author of at least two characters, an
      ISBN (its checksum is not modelled, only that it is not empty), a positive price. */
  predicate ValidCreateBook(dto: CreateBookDto) {
    |dto.title| >= 2 && |dto.author| >= 2 && dto.isbn != "" && dto.price > 0.0
  }

  /** The same validators, applied to each property a partial book update carries. */
  predicate ValidUpdateBook(dto: UpdateBookDto) {
    && (dto.title.Some? ==> |dto.title.value| >= 2)
    && (dto.author.Some? ==> |dto.author.value| >= 2)
    && (dto.isbn.Some? ==> dto.isbn.value != "")
    && (dto.price.Some? ==> dto.price.value > 0.0)
  }

  /** The validators on a store body: a name of at least two characters and an
      address of at least five. */
  predicate ValidCreateBookStore(dto: CreateBookStoreDto) {
    |dto.name| >= 2 && |dto.address| >= 5
  }

  /** The same validators, applied to each property a partial store update carries. */
  predicate ValidUpdateBookStore(dto: UpdateBookStoreDto) {
    && (dto.name.Some? ==> |dto.name.value| >= 2)
    && (dto.address.Some? ==> |dto.address.value| >= 5)
  }
}
