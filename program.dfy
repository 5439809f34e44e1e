/** The handler bodies of Program.cs, each run as one atomic step over the
    scoped database context. Each method does what its handler does, in the
    same order, and is proved to produce exactly the step function's result,
    so everything proved about the step functions holds of it; each keeps the
    store invariant. */
module Program {
  import opened Linq
  import opened Models
  import opened Dtos
  import opened Data
  import opened Repositories
  import opened Marketplace
  import opened MarketplaceProperties

  /** POST /register: stores a new user whose password hash is computed from
      the username and the demo suffix. */
  method Register(db: AppDbContext, dto: UserDto, hash: string -> string) returns (r: Outcome)
    requires db.Valid()
    modifies db
    ensures db.Valid()
    ensures db.Snapshot() == RegisterStep(old(db.Snapshot()), dto, hash) && r == Ok
  {
    RegisterKeepsInvariant(db.Snapshot(), dto, hash);
    var user := User(0, dto.username, hash(dto.username + PasswordSuffix), dto.budget, dto.isSeller);
    db.users := db.users + [user.(id := db.nextUserId)];
    db.nextUserId := db.nextUserId + 1;
    r := Ok;
  }

  /** POST /login: the first user with that name, if the demo password
      verifies against the stored hash. */
  method LoginHandler(db: AppDbContext, dto: UserDto, verify: (string, string) -> bool) returns (r: LoginResult)
    ensures r == Login(db.Snapshot(), dto, verify)
    ensures r.TokenFor? ==> r.user in db.users && r.user.username == dto.username
  {
    var user := FirstOrDefault(db.users, UserNamed(dto.username));
    if user.None? || !verify(dto.username + PasswordSuffix, user.value.passwordHash) {
      return Rejected;
    }
    r := TokenFor(user.value);
  }

  /** GET /books: every book with its category name and seller name. */
  method GetBooks(repo: BookRepository) returns (r: seq<BookDto>)
    ensures r == BooksView(repo.context.Snapshot())
    ensures |r| == |repo.context.books|
  {
    var books := repo.GetAll();
    r := Select(books, BookDtoIn(repo.context.Snapshot()));
  }

  /** POST /books: only a stored seller may list; the category is looked up by
      exact name and created when missing, then the book is added. */
  method AddBook(repo: BookRepository, db: AppDbContext, callerId: int, dto: BookDto) returns (r: Outcome)
    requires repo.context == db && db.Valid()
    modifies db
    ensures db.Valid()
    ensures (db.Snapshot(), r) == AddBookStep(old(db.Snapshot()), callerId, dto)
  {
    ghost var before := db.Snapshot();
    var user := Find(db.users, UserKey, callerId);
    if user.None? || !user.value.isSeller {
      return Forbid;
    }
    ResolveCategoryKeepsInvariant(before, dto.category);
    AddBookKeepsInvariant(before, callerId, dto);
    var category := FindOrCreateCategory(db, dto.category);
    var book := Book(0, dto.title, dto.author, dto.price, category.id, user.value.id);
    var _ := repo.Add(book);
    r := Ok;
  }

  /** The category lookup of POST /books: the first category with that exact
      name, or a new one saved first so that its key is known. */
  method FindOrCreateCategory(db: AppDbContext, name: string) returns (category: Category)
    modifies db
    ensures (db.Snapshot(), category) == ResolveCategory(old(db.Snapshot()), name)
  {
    var found := FirstOrDefault(db.categories, CategoryNamed(name));
    if found.Some? {
      return found.value;
    }
    category := Category(0, name).(id := db.nextCategoryId);
    db.categories := db.categories + [category];
    db.nextCategoryId := db.nextCategoryId + 1;
  }

  /** PUT /books/{id}: the owning seller replaces the title, author and price;
      a missing book or another seller's book answers Forbid. */
  method EditBook(repo: BookRepository, callerId: int, id: int, dto: BookDto) returns (r: Outcome)
    requires repo.context.Valid()
    modifies repo.context
    ensures repo.context.Valid()
    ensures (repo.context.Snapshot(), r) == EditBookStep(old(repo.context.Snapshot()), callerId, id, dto)
  {
    EditBookKeepsInvariant(repo.context.Snapshot(), callerId, id, dto);
    var book := repo.GetById(id);
    if book.None? || book.value.sellerId != callerId {
      return Forbid;
    }
    var edited := book.value.(title := dto.title, author := dto.author, price := dto.price);
    var _ := repo.Update(edited);
    r := Ok;
  }

  /** DELETE /books/{id}: the owning seller removes the book; a missing book
      or another seller's book answers Forbid. */
  method RemoveBook(repo: BookRepository, callerId: int, id: int) returns (r: Outcome)
    requires repo.context.Valid()
    modifies repo.context
    ensures repo.context.Valid()
    ensures (repo.context.Snapshot(), r) == RemoveBookStep(old(repo.context.Snapshot()), callerId, id)
  {
    RemoveBookKeepsInvariant(repo.context.Snapshot(), callerId, id);
    var book := repo.GetById(id);
    if book.None? || book.value.sellerId != callerId {
      return Forbid;
    }
    repo.Delete(id);
    r := Ok;
  }

  /** POST /buy/{bookId}: checks the budget, debits the price and records the
      order in one save. */
  method Buy(db: AppDbContext, callerId: int, bookId: int, now: int) returns (r: Outcome)
    requires db.Valid()
    modifies db
    ensures db.Valid()
    ensures (db.Snapshot(), r) == BuyStep(old(db.Snapshot()), callerId, bookId, now)
  {
    ghost var before := db.Snapshot();
    var user := Find(db.users, UserKey, callerId);
    var book := Find(db.books, BookKey, bookId);
    if user.None? || book.None? {
      assert BuyStep(before, callerId, bookId, now) == (before, NotFound);
      return NotFound;
    }
    if user.value.budget < book.value.price {
      assert BuyStep(before, callerId, bookId, now) == (before, BadRequest(NotEnoughMoney));
      return BadRequest(NotEnoughMoney);
    }
    BuyStepOk(before, callerId, bookId, now);
    BuyKeepsInvariant(before, callerId, bookId, now);
    SavePurchase(db, user.value, book.value, now);
    r := Ok;
  }

  /** The tail of POST /buy: the price is debited from the tracked buyer, a
      new order for the book is added, and one `SaveChangesAsync` writes both. */
  method SavePurchase(db: AppDbContext, user: User, book: Book, now: int)
    modifies db
    ensures db.Snapshot() == Purchase(old(db.Snapshot()), user, book, now)
  {
    var buyer := user.(budget := user.budget - book.price);
    var order := Order(0, book.id, buyer.id, now);
    db.users, db.orders, db.nextOrderId :=
      ReplaceByKey(db.users, UserKey, buyer), db.orders + [order.(id := db.nextOrderId)], db.nextOrderId + 1;
  }

  /** GET /mybooks: the caller's own listings, in storage order. */
  method GetMyBooks(db: AppDbContext, callerId: int) returns (r: seq<Book>)
    ensures r == MyBooks(db.Snapshot(), callerId)
    ensures forall b :: b in r <==> b in db.books && b.sellerId == callerId
  {
    r := Where(db.books, SoldBy(callerId));
  }

  /** GET /myorders as the handler is written: the caller's orders with each
      book's title; the query never loads the order's user, so the buyer is
      always "". */
  method GetMyOrders(db: AppDbContext, callerId: int) returns (r: seq<OrderDto>)
    ensures r == MyOrdersAsWritten(db.Snapshot(), callerId)
    ensures |r| == |Where(db.orders, PlacedBy(callerId))|
    ensures forall i :: 0 <= i < |r| ==> r[i].buyer == ""
  {
    var orders := Where(db.orders, PlacedBy(callerId));
    r := Select(orders, OrderLineAsWritten(db.Snapshot()));
  }
}
