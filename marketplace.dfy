/** What each HTTP handler of Program.cs does to the store, as one atomic step
    from the tables before the request to the tables after it and the result.
    The caller's id is the "UserId" claim of an already validated token;
    `now` stands for `DateTime.UtcNow`; `hash` and `verify` stand for BCrypt. */
module Marketplace {
  import opened Linq
  import opened Models
  import opened Dtos
  import opened Data

  /** The HTTP results the handlers return. */
  datatype Outcome = Ok | Forbid | NotFound | BadRequest(message: string)

  /** What POST /login answers: 401, or a token issued for this user. */
  datatype LoginResult = Rejected | TokenFor(user: User)

  /** The demo password scheme: a user's password is the username followed by this. */
  const PasswordSuffix := "123"

  const NotEnoughMoney := "Not enough money"

  // Selectors of the LINQ queries

  function UserNamed(name: string): User -> bool
  {
    (u: User) => u.username == name
  }

  function CategoryNamed(name: string): Category -> bool
  {
    (c: Category) => c.name == name
  }

  function SoldBy(sellerId: int): Book -> bool
  {
    (b: Book) => b.sellerId == sellerId
  }

  function PlacedBy(userId: int): Order -> bool
  {
    (o: Order) => o.userId == userId
  }

  // ---------------------------------------------------------------------------
  // POST /register

  /** The user row built from the request; its id is assigned on insert. */
  function NewUser(dto: UserDto, hash: string -> string): User
  {
    User(0, dto.username, hash(dto.username + PasswordSuffix), dto.budget, dto.isSeller)
  }

  /** Registration always succeeds: neither the name's uniqueness nor the
      budget's sign is checked. The new user comes after every stored one,
      under the next key, with the requested name, budget and role and the
      hash of the demo password; no other table changes. */
  function RegisterStep(t: Tables, dto: UserDto, hash: string -> string): (r: Tables)
    ensures |r.users| == |t.users| + 1 && r.users[..|t.users|] == t.users
    ensures r.users[|t.users|]
         == User(t.nextUserId, dto.username, hash(dto.username + PasswordSuffix), dto.budget, dto.isSeller)
    ensures r.(users := t.users, nextUserId := t.nextUserId) == t
  {
    InsertUser(t, NewUser(dto, hash))
  }

  // ---------------------------------------------------------------------------
  // POST /login

  /** The first user with the requested name, if the demo password verifies
      against its stored hash. A token names a stored user bearing the
      requested name whose hash verifies; an unknown name is rejected. */
  function Login(t: Tables, dto: UserDto, verify: (string, string) -> bool): (r: LoginResult)
    ensures r.TokenFor? ==>
              && r.user in t.users
              && r.user.username == dto.username
              && verify(dto.username + PasswordSuffix, r.user.passwordHash)
    ensures (forall u :: u in t.users ==> u.username != dto.username) ==> r == Rejected
  {
    match FirstOrDefault(t.users, UserNamed(dto.username))
    case None => Rejected
    case Some(user) =>
      if !verify(dto.username + PasswordSuffix, user.passwordHash) then Rejected
      else TokenFor(user)
  }

  // ---------------------------------------------------------------------------
  // GET /books

  function CategoryNameOf(t: Tables, categoryId: int): string
  {
    match Find(t.categories, CategoryKey, categoryId)
    case None => ""
    case Some(c) => c.name
  }

  function UsernameOf(t: Tables, userId: int): string
  {
    match Find(t.users, UserKey, userId)
    case None => ""
    case Some(u) => u.username
  }

  /** The projection copies the book's own fields; a category or seller that
      is not stored is shown as "". */
  function ToBookDto(t: Tables, b: Book): (r: BookDto)
    ensures r.id == b.id && r.title == b.title && r.author == b.author && r.price == b.price
    ensures (forall c :: c in t.categories ==> c.id != b.categoryId) ==> r.category == ""
    ensures (forall u :: u in t.users ==> u.id != b.sellerId) ==> r.seller == ""
  {
    BookDto(b.id, b.title, b.author, b.price, CategoryNameOf(t, b.categoryId), UsernameOf(t, b.sellerId))
  }

  /** Every stored book, projected with its category name and seller name:
      one entry per book, in storage order, carrying that book's own fields. */
  function BooksView(t: Tables): (r: seq<BookDto>)
    ensures |r| == |t.books|
    ensures forall i :: 0 <= i < |t.books| ==>
              && r[i].id == t.books[i].id && r[i].title == t.books[i].title
              && r[i].author == t.books[i].author && r[i].price == t.books[i].price
  {
    Select(t.books, BookDtoIn(t))
  }

  /** The selector `b => new BookDto { … }` of GET /books. */
  function BookDtoIn(t: Tables): Book -> BookDto
  {
    (b: Book) => ToBookDto(t, b)
  }

  // ---------------------------------------------------------------------------
  // POST /books

  /** The first category with this exact name, or a new one inserted for it.
      Either way the answer bears the name and is the first category with that
      name in the resulting table; an existing one leaves the store as it was,
      and only the category table and its counter can change. */
  function ResolveCategory(t: Tables, name: string): (r: (Tables, Category))
    ensures r.1.name == name
    ensures FirstOrDefault(r.0.categories, CategoryNamed(name)) == Some(r.1)
    ensures FirstOrDefault(t.categories, CategoryNamed(name)).Some? ==> r.0 == t
    ensures r.0.(categories := t.categories, nextCategoryId := t.nextCategoryId) == t
  {
    match FirstOrDefault(t.categories, CategoryNamed(name))
    case Some(c) => (t, c)
    case None =>
      FirstOrDefaultAppend(t.categories, Category(t.nextCategoryId, name), CategoryNamed(name));
      (InsertCategory(t, Category(0, name)), Category(t.nextCategoryId, name))
  }

  /** POST /books answers Ok or Forbid; Forbid leaves the store as it was, and
      Ok adds one book without touching the users or the orders. */
  function AddBookStep(t: Tables, callerId: int, dto: BookDto): (r: (Tables, Outcome))
    ensures r.1 in {Ok, Forbid}
    ensures r.1 == Forbid ==> r.0 == t
    ensures r.1 == Ok ==> |r.0.books| == |t.books| + 1 && r.0.users == t.users && r.0.orders == t.orders
  {
    match Find(t.users, UserKey, callerId)
    case None => (t, Forbid)
    case Some(user) =>
      if !user.isSeller then (t, Forbid)
      else
        var resolved := ResolveCategory(t, dto.category);
        var book := Book(0, dto.title, dto.author, dto.price, resolved.1.id, user.id);
        (InsertBook(resolved.0, book), Ok)
  }

  // ---------------------------------------------------------------------------
  // PUT /books/{id} and DELETE /books/{id}

  /** The fields PUT copies from the request; id, category and seller stay. */
  function Edited(b: Book, dto: BookDto): (r: Book)
    ensures r.id == b.id && r.categoryId == b.categoryId && r.sellerId == b.sellerId
    ensures r.title == dto.title && r.author == dto.author && r.price == dto.price
  {
    b.(title := dto.title, author := dto.author, price := dto.price)
  }

  /** A missing book answers Forbid, as a book of another seller does. Forbid
      leaves the store as it was; an edit changes only the book table, and
      neither its length nor any key in it. */
  function EditBookStep(t: Tables, callerId: int, id: int, dto: BookDto): (r: (Tables, Outcome))
    ensures r.1 in {Ok, Forbid}
    ensures r.1 == Forbid ==> r.0 == t
    ensures r.0.(books := t.books) == t
    ensures |r.0.books| == |t.books| && forall i :: 0 <= i < |t.books| ==> r.0.books[i].id == t.books[i].id
  {
    match Find(t.books, BookKey, id)
    case None => (t, Forbid)
    case Some(book) =>
      if book.sellerId != callerId then (t, Forbid)
      else
        assert forall i :: 0 <= i < |t.books| ==> ReplaceByKey(t.books, BookKey, Edited(book, dto))[i].id == t.books[i].id by {
          forall i | 0 <= i < |t.books| {
            ReplaceByKeyAt(t.books, BookKey, Edited(book, dto), i);
          }
        }
        (t.(books := ReplaceByKey(t.books, BookKey, Edited(book, dto))), Ok)
  }

  /** DELETE /books/{id} answers Ok or Forbid; Forbid leaves the store as it
      was, and a removal changes only the books and, by the cascade, the orders. */
  function RemoveBookStep(t: Tables, callerId: int, id: int): (r: (Tables, Outcome))
    ensures r.1 in {Ok, Forbid}
    ensures r.1 == Forbid ==> r.0 == t
    ensures r.0.(books := t.books, orders := t.orders) == t
  {
    match Find(t.books, BookKey, id)
    case None => (t, Forbid)
    case Some(book) =>
      if book.sellerId != callerId then (t, Forbid)
      else (DeleteBook(t, id), Ok)
  }

  // ---------------------------------------------------------------------------
  // POST /buy/{bookId}

  /** The one save of a successful purchase: the buyer's row written back with
      the price debited, and an order linking the buyer and the book inserted. */
  function Purchase(t: Tables, user: User, book: Book, now: int): (r: Tables)
    ensures |r.users| == |t.users|
    ensures |r.orders| == |t.orders| + 1 && r.orders[..|t.orders|] == t.orders
    ensures r.orders[|t.orders|] == Order(t.nextOrderId, book.id, user.id, now)
    ensures r.(users := t.users, orders := t.orders, nextOrderId := t.nextOrderId) == t
  {
    var buyer := user.(budget := user.budget - book.price);
    InsertOrder(t.(users := ReplaceByKey(t.users, UserKey, buyer)), Order(0, book.id, buyer.id, now))
  }

  /** NotFound for a missing caller or book, then the budget check; the book
      stays listed, so it can be bought again. No other answer is possible,
      and a refused purchase changes nothing. */
  function BuyStep(t: Tables, callerId: int, bookId: int, now: int): (r: (Tables, Outcome))
    ensures r.1 in {Ok, NotFound, BadRequest(NotEnoughMoney)}
    ensures r.1 != Ok ==> r.0 == t
    ensures r.0.books == t.books && r.0.categories == t.categories
  {
    var user := Find(t.users, UserKey, callerId);
    var book := Find(t.books, BookKey, bookId);
    if user.None? || book.None? then (t, NotFound)
    else if user.value.budget < book.value.price then (t, BadRequest(NotEnoughMoney))
    else (Purchase(t, user.value, book.value, now), Ok)
  }

  // ---------------------------------------------------------------------------
  // GET /mybooks and GET /myorders

  /** The caller's own listings, in storage order. */
  function MyBooks(t: Tables, callerId: int): (r: seq<Book>)
    ensures forall b :: b in r <==> b in t.books && b.sellerId == callerId
  {
    Where(t.books, SoldBy(callerId))
  }

  function BookTitleOf(t: Tables, bookId: int): string
  {
    match Find(t.books, BookKey, bookId)
    case None => ""
    case Some(b) => b.title
  }

  /** The selector of /myorders as written: `o.User` is never loaded, so the
      buyer is "". */
  function OrderLineAsWritten(t: Tables): Order -> OrderDto
  {
    (o: Order) => OrderDto(o.id, BookTitleOf(t, o.bookId), "", o.orderDate)
  }

  /** The selector of /myorders with the buyer's row loaded. */
  function OrderLine(t: Tables): Order -> OrderDto
  {
    (o: Order) => OrderDto(o.id, BookTitleOf(t, o.bookId), UsernameOf(t, o.userId), o.orderDate)
  }

  /** /myorders as written: the query loads each order's book but never its
      user, so `o.User` is null and the buyer is always "". One entry per order
      of the caller, in storage order, with that order's id and date. */
  function MyOrdersAsWritten(t: Tables, callerId: int): (r: seq<OrderDto>)
    ensures |r| == |Where(t.orders, PlacedBy(callerId))|
    ensures forall i :: 0 <= i < |r| ==>
              && r[i].id == Where(t.orders, PlacedBy(callerId))[i].id
              && r[i].orderDate == Where(t.orders, PlacedBy(callerId))[i].orderDate
              && r[i].bookTitle == BookTitleOf(t, Where(t.orders, PlacedBy(callerId))[i].bookId)
              && r[i].buyer == ""
  {
    Select(Where(t.orders, PlacedBy(callerId)), OrderLineAsWritten(t))
  }

  /** /myorders with the buyer resolved, as the DTO's `Buyer` field intends.
      One entry per order of the caller, in storage order, with that order's
      id and date. */
  function MyOrders(t: Tables, callerId: int): (r: seq<OrderDto>)
    ensures |r| == |Where(t.orders, PlacedBy(callerId))|
    ensures forall i :: 0 <= i < |r| ==>
              && r[i].id == Where(t.orders, PlacedBy(callerId))[i].id
              && r[i].orderDate == Where(t.orders, PlacedBy(callerId))[i].orderDate
              && r[i].bookTitle == BookTitleOf(t, Where(t.orders, PlacedBy(callerId))[i].bookId)
              && r[i].buyer == UsernameOf(t, Where(t.orders, PlacedBy(callerId))[i].userId)
  {
    Select(Where(t.orders, PlacedBy(callerId)), OrderLine(t))
  }
}
