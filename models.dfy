/** The four persisted entities (Models/Book.cs). Navigation properties
    (`Book.Category`, `Book.Seller`, `User.Books`, ...) become the plain foreign-key
    ids they are resolved from; `decimal` amounts are integers in the smallest
    currency unit, and timestamps are integer ticks. */
module Models {

  /** A `decimal` amount, exact, in the smallest currency unit. */
  type Money = int

  datatype User = User(id: int, username: string, passwordHash: string, budget: Money, isSeller: bool)

  datatype Book = Book(id: int, title: string, author: string, price: Money, categoryId: int, sellerId: int)

  datatype Category = Category(id: int, name: string)

  datatype Order = Order(id: int, bookId: int, userId: int, orderDate: int)

  /** The primary key of each table, as a function value for the generic table operations. */
  function UserKey(u: User): int { u.id }
  function BookKey(b: Book): int { b.id }
  function CategoryKey(c: Category): int { c.id }
  function OrderKey(o: Order): int { o.id }
}

/** The request and response records (DTOs/BookDto.cs). */
module Dtos {
  import opened Models

  /** Body of POST /books and PUT /books/{id}, and one element of GET /books. */
  datatype BookDto = BookDto(id: int, title: string, author: string, price: Money, category: string, seller: string)

  /** Body of POST /register and POST /login. */
  datatype UserDto = UserDto(id: int, username: string, budget: Money, isSeller: bool)

  /** One element of GET /myorders. */
  datatype OrderDto = OrderDto(id: int, bookTitle: string, buyer: string, orderDate: int)
}
