/** What the handlers promise, proved about their step functions. */
module MarketplaceProperties {
  import opened Linq
  import opened Models
  import opened Dtos
  import opened Data
  import opened Marketplace

  // ---------------------------------------------------------------------------
  // POST /register and POST /login

  /** Registration keeps every store invariant. */
  lemma RegisterKeepsInvariant(t: Tables, dto: UserDto, hash: string -> string)
    requires Invariant(t)
    ensures Invariant(RegisterStep(t, dto, hash))
  {
    var t' := RegisterStep(t, dto, hash);
    var u := NewUser(dto, hash).(id := t.nextUserId);
    AppendKeepsKeyedBelow(t.users, UserKey, t.nextUserId, u);
    forall id | Find(t.users, UserKey, id).Some? ensures Find(t'.users, UserKey, id).Some? {
      FindAfterAppend(t.users, UserKey, t.nextUserId, u, id);
    }
  }

  /** Only the first stored user with the requested name is ever considered:
      a token goes to that user, and login is rejected exactly when there is
      no such user or the demo password does not verify against its hash (a
      later namesake's hash is never tried). */
  lemma LoginChecksFirstNamesake(t: Tables, dto: UserDto, verify: (string, string) -> bool)
    ensures Login(t, dto, verify).TokenFor? ==>
              && Login(t, dto, verify).user == FirstOrDefault(t.users, UserNamed(dto.username)).value
              && exists i :: 0 <= i < |t.users| && t.users[i] == Login(t, dto, verify).user
                   && forall j :: 0 <= j < i ==> t.users[j].username != dto.username
    ensures Login(t, dto, verify).Rejected? <==>
              (forall u :: u in t.users ==> u.username != dto.username)
              || !verify(dto.username + "123", FirstOrDefault(t.users, UserNamed(dto.username)).value.passwordHash)
  {
    if FirstOrDefault(t.users, UserNamed(dto.username)).Some? {
      FirstOrDefaultIsFirst(t.users, UserNamed(dto.username));
    }
  }

  /** Logging in right after registering: the new user gets the token, unless a
      user with that name was registered before, who keeps answering to the
      name (usernames are not checked for uniqueness). */
  lemma {:induction false} RegisterThenLogin(t: Tables, dto: UserDto, hash: string -> string, verify: (string, string) -> bool)
    requires forall p :: verify(p, hash(p))
    ensures Login(RegisterStep(t, dto, hash), dto, verify)
         == if exists u :: u in t.users && u.username == dto.username then Login(t, dto, verify)
            else TokenFor(User(t.nextUserId, dto.username, hash(dto.username + "123"), dto.budget, dto.isSeller))
  {
    var u := NewUser(dto, hash).(id := t.nextUserId);
    FirstOrDefaultAppend(t.users, u, UserNamed(dto.username));
    if FirstOrDefault(t.users, UserNamed(dto.username)).Some? {
      var v := FirstOrDefault(t.users, UserNamed(dto.username)).value;
      assert v in t.users && v.username == dto.username;
    }
  }

  // ---------------------------------------------------------------------------
  // POST /books

  /** Resolving a category name a second time finds the category the first
      call found or created, and changes nothing. */
  lemma ResolveCategoryIsIdempotent(t: Tables, name: string)
    ensures ResolveCategory(ResolveCategory(t, name).0, name) == ResolveCategory(t, name)
  {
    if FirstOrDefault(t.categories, CategoryNamed(name)).None? {
      FirstOrDefaultAppend(t.categories, Category(t.nextCategoryId, name), CategoryNamed(name));
    }
  }

  /** Only a stored seller may list a book: the answer is Forbid exactly when
      the caller is not a stored user or is not a seller. */
  lemma AddBookRequiresSeller(t: Tables, callerId: int, dto: BookDto)
    ensures AddBookStep(t, callerId, dto).1 == Forbid <==>
              (forall u :: u in t.users ==> u.id != callerId) || !Find(t.users, UserKey, callerId).value.isSeller
  {
  }

  /** A listed book is appended under the next key with the caller as seller,
      and under the first category bearing the requested name: an existing one
      is reused, otherwise exactly one is created. Users and orders are untouched. */
  lemma AddBookListsUnderCategory(t: Tables, callerId: int, dto: BookDto)
    requires AddBookStep(t, callerId, dto).1 == Ok
    ensures var t' := AddBookStep(t, callerId, dto).0;
      && |t'.books| == |t.books| + 1
      && t'.books[..|t.books|] == t.books
      && t'.books[|t.books|].id == t.nextBookId
      && t'.books[|t.books|].title == dto.title
      && t'.books[|t.books|].author == dto.author
      && t'.books[|t.books|].price == dto.price
      && t'.books[|t.books|].sellerId == callerId
      && FirstOrDefault(t'.categories, CategoryNamed(dto.category))
         == Some(Category(t'.books[|t.books|].categoryId, dto.category))
      && (FirstOrDefault(t.categories, CategoryNamed(dto.category)).Some? ==> t'.categories == t.categories)
      && (FirstOrDefault(t.categories, CategoryNamed(dto.category)).None? ==>
            t'.categories == t.categories + [Category(t.nextCategoryId, dto.category)])
      && t'.users == t.users && t'.orders == t.orders
  {
    var t' := AddBookStep(t, callerId, dto).0;
    assert t'.books[..|t.books|] == t.books;
    ResolveCategoryIsIdempotent(t, dto.category);
  }

  /** Two books listed under the same category name share one category: the
      second listing creates none. */
  lemma AddBookTwiceSharesCategory(t: Tables, seller1: int, dto1: BookDto, seller2: int, dto2: BookDto)
    requires dto1.category == dto2.category
    requires AddBookStep(t, seller1, dto1).1 == Ok
    requires AddBookStep(AddBookStep(t, seller1, dto1).0, seller2, dto2).1 == Ok
    ensures var t1 := AddBookStep(t, seller1, dto1).0;
            var t2 := AddBookStep(t1, seller2, dto2).0;
      && t2.categories == t1.categories
      && t2.books[|t1.books|].categoryId == t1.books[|t.books|].categoryId
  {
    var t1 := AddBookStep(t, seller1, dto1).0;
    AddBookListsUnderCategory(t, seller1, dto1);
    AddBookListsUnderCategory(t1, seller2, dto2);
  }

  /** Listing a book keeps every store invariant, category names unique included. */
  lemma AddBookKeepsInvariant(t: Tables, callerId: int, dto: BookDto)
    requires Invariant(t)
    ensures Invariant(AddBookStep(t, callerId, dto).0)
  {
    if AddBookStep(t, callerId, dto).1 == Ok {
      var resolved := ResolveCategory(t, dto.category);
      var user := Find(t.users, UserKey, callerId).value;
      ResolveCategoryKeepsInvariant(t, dto.category);
      InsertBookKeepsInvariant(resolved.0, Book(0, dto.title, dto.author, dto.price, resolved.1.id, user.id));
    }
  }

  /** Resolving a category keeps every store invariant, and the category it
      answers is stored; the users are untouched. */
  lemma ResolveCategoryKeepsInvariant(t: Tables, name: string)
    requires Invariant(t)
    ensures Invariant(ResolveCategory(t, name).0)
    ensures Find(ResolveCategory(t, name).0.categories, CategoryKey, ResolveCategory(t, name).1.id).Some?
    ensures ResolveCategory(t, name).0.users == t.users
  {
    var c := ResolveCategory(t, name).1;
    if FirstOrDefault(t.categories, CategoryNamed(name)).None? {
      var t1 := t.(categories := t.categories + [c]);
      assert ResolveCategory(t, name).0 == t1.(nextCategoryId := t.nextCategoryId + 1);
      AppendKeepsKeyedBelow(t.categories, CategoryKey, t.nextCategoryId, c);
      AppendCategoryKeepsReferences(t, c);
      ReferencesIgnoreCounters(t1, t.nextUserId, t.nextBookId, t.nextCategoryId + 1, t.nextOrderId);
      FindAfterAppend(t.categories, CategoryKey, t.nextCategoryId, c, c.id);
      NewNameKeepsNamesUnique(t.categories, c);
    } else {
      assert c in t.categories;
    }
  }

  lemma AppendCategoryKeepsReferences(t: Tables, c: Category)
    requires ReferencesResolve(t) && KeyedBelow(t.categories, CategoryKey, t.nextCategoryId)
    requires c.id == t.nextCategoryId
    ensures ReferencesResolve(t.(categories := t.categories + [c]))
  {
    var t' := t.(categories := t.categories + [c]);
    forall id | Find(t.categories, CategoryKey, id).Some? ensures Find(t'.categories, CategoryKey, id).Some? {
      FindAfterAppend(t.categories, CategoryKey, t.nextCategoryId, c, id);
    }
  }

  /** The counters play no part in the references. */
  lemma ReferencesIgnoreCounters(t: Tables, nextUser: int, nextBook: int, nextCategory: int, nextOrder: int)
    requires ReferencesResolve(t)
    ensures ReferencesResolve(t.(nextUserId := nextUser, nextBookId := nextBook, nextCategoryId := nextCategory, nextOrderId := nextOrder))
  {
  }

  /** A category whose name no stored category bears keeps the names unique. */
  lemma NewNameKeepsNamesUnique(cs: seq<Category>, c: Category)
    requires UniqueCategoryNames(cs) && FirstOrDefault(cs, CategoryNamed(c.name)).None?
    ensures UniqueCategoryNames(cs + [c])
  {
    var cs' := cs + [c];
    forall i, j | 0 <= i < j < |cs'| ensures cs'[i].name != cs'[j].name {
      if j == |cs| {
        assert cs'[i] in cs;
      } else {
        assert cs'[i] == cs[i] && cs'[j] == cs[j];
      }
    }
  }

  /** Inserting a book whose category and seller are stored keeps every store invariant. */
  lemma InsertBookKeepsInvariant(t: Tables, book: Book)
    requires Invariant(t)
    requires Find(t.categories, CategoryKey, book.categoryId).Some? && Find(t.users, UserKey, book.sellerId).Some?
    ensures Invariant(InsertBook(t, book))
  {
    var stored := book.(id := t.nextBookId);
    var t' := InsertBook(t, book);
    assert t'.books == t.books + [stored];
    assert t'.(books := t.books, nextBookId := t.nextBookId) == t;
    AppendKeepsKeyedBelow(t.books, BookKey, t.nextBookId, stored);
    forall o | o in t'.orders ensures Find(t'.books, BookKey, o.bookId).Some? {
      FindAfterAppend(t.books, BookKey, t.nextBookId, stored, o.bookId);
    }
  }

  // ---------------------------------------------------------------------------
  // PUT /books/{id} and DELETE /books/{id}

  /** Only the seller who owns a stored book may edit it: a missing book and a
      book of another seller both answer Forbid, and nothing else does. */
  lemma EditBookChecksOwner(t: Tables, callerId: int, id: int, dto: BookDto)
    ensures EditBookStep(t, callerId, id, dto).1 == Forbid <==>
              (forall b :: b in t.books ==> b.id != id) || Find(t.books, BookKey, id).value.sellerId != callerId
  {
  }

  /** A successful edit sets the title, author and price of that book, keeps
      its id, category and seller, and changes no other row of any table. */
  lemma EditBookChangesOnlyThatBook(t: Tables, callerId: int, id: int, dto: BookDto)
    requires EditBookStep(t, callerId, id, dto).1 == Ok
    ensures var t' := EditBookStep(t, callerId, id, dto).0;
            var before := Find(t.books, BookKey, id).value;
      && Find(t'.books, BookKey, id) == Some(Book(id, dto.title, dto.author, dto.price, before.categoryId, before.sellerId))
      && (forall other :: other != id ==> Find(t'.books, BookKey, other) == Find(t.books, BookKey, other))
      && t'.(books := t.books) == t
  {
    var before := Find(t.books, BookKey, id).value;
    FindAfterReplace(t.books, BookKey, Edited(before, dto), id);
    forall other | other != id
      ensures Find(ReplaceByKey(t.books, BookKey, Edited(before, dto)), BookKey, other) == Find(t.books, BookKey, other)
    {
      FindAfterReplace(t.books, BookKey, Edited(before, dto), other);
    }
  }

  /** Editing keeps every store invariant. */
  lemma EditBookKeepsInvariant(t: Tables, callerId: int, id: int, dto: BookDto)
    requires Invariant(t)
    ensures Invariant(EditBookStep(t, callerId, id, dto).0)
  {
    if EditBookStep(t, callerId, id, dto).1 == Ok {
      var before := Find(t.books, BookKey, id).value;
      var edited := Edited(before, dto);
      var books' := ReplaceByKey(t.books, BookKey, edited);
      ReplaceKeepsKeyedBelow(t.books, BookKey, t.nextBookId, edited);
      forall b | b in books'
        ensures Find(t.categories, CategoryKey, b.categoryId).Some? && Find(t.users, UserKey, b.sellerId).Some?
      {
        var i :| 0 <= i < |books'| && books'[i] == b;
        ReplaceByKeyAt(t.books, BookKey, edited, i);
        assert t.books[i] in t.books;
      }
      forall o | o in t.orders ensures Find(books', BookKey, o.bookId).Some? {
        FindAfterReplace(t.books, BookKey, edited, o.bookId);
      }
    }
  }

  /** Only the seller who owns a stored book may remove it: the answer is
      Forbid exactly when the book is missing or belongs to another seller. */
  lemma RemoveBookChecksOwner(t: Tables, callerId: int, id: int)
    ensures RemoveBookStep(t, callerId, id).1 == Forbid <==>
              (forall b :: b in t.books ==> b.id != id) || Find(t.books, BookKey, id).value.sellerId != callerId
  {
  }

  /** A successful removal deletes exactly the book with that id and, by the
      cascade, exactly the orders of that book. */
  lemma RemoveBookDeletesOnlyThatBook(t: Tables, callerId: int, id: int)
    requires RemoveBookStep(t, callerId, id).1 == Ok
    ensures var t' := RemoveBookStep(t, callerId, id).0;
      && (forall b :: b in t'.books <==> b in t.books && b.id != id)
      && Find(t'.books, BookKey, id).None?
      && (forall o :: o in t'.orders <==> o in t.orders && o.bookId != id)
  {
  }

  /** Removing keeps every store invariant: thanks to the cascade no order is
      left behind that names the removed book. */
  lemma RemoveBookKeepsInvariant(t: Tables, callerId: int, id: int)
    requires Invariant(t)
    ensures Invariant(RemoveBookStep(t, callerId, id).0)
  {
    if RemoveBookStep(t, callerId, id).1 == Ok {
      var t' := DeleteBook(t, id);
      assert RemoveBookStep(t, callerId, id).0 == t';
      WhereKeepsKeyedBelow(t.books, BookKey, t.nextBookId, LacksKey(BookKey, id));
      WhereKeepsKeyedBelow(t.orders, OrderKey, t.nextOrderId, NotForBook(id));
      forall o | o in t'.orders ensures Find(t'.books, BookKey, o.bookId).Some? {
        FindAfterRemove(t.books, BookKey, id, o.bookId);
      }
    }
  }

  /** Whatever the request, the books table changes only when the caller is the
      seller of the stored book the request names. */
  lemma OnlyTheOwnerChangesABook(t: Tables, callerId: int, id: int, dto: BookDto)
    requires EditBookStep(t, callerId, id, dto).0 != t || RemoveBookStep(t, callerId, id).0 != t
    ensures exists b :: b in t.books && b.id == id && b.sellerId == callerId
  {
    var b := Find(t.books, BookKey, id).value;
    assert b in t.books;
  }

  // ---------------------------------------------------------------------------
  // POST /buy/{bookId}

  /** A purchase fails with NotFound exactly when the caller or the book is
      missing, and with "Not enough money" exactly when both exist and the
      budget is below the price. */
  lemma BuyFailureCauses(t: Tables, callerId: int, bookId: int, now: int)
    ensures var user := Find(t.users, UserKey, callerId);
            var book := Find(t.books, BookKey, bookId);
      && (BuyStep(t, callerId, bookId, now).1 == NotFound <==> user.None? || book.None?)
      && (BuyStep(t, callerId, bookId, now).1 == BadRequest("Not enough money") <==>
            user.Some? && book.Some? && user.value.budget < book.value.price)
  {
  }

  /** A successful purchase debits exactly the price from the buyer alone,
      whose budget stays non-negative, appends exactly one order linking the
      buyer and the book, and leaves the books and categories as they were. */
  lemma BuyDebitsAndRecords(t: Tables, callerId: int, bookId: int, now: int)
    requires BuyStep(t, callerId, bookId, now).1 == Ok
    ensures var t' := BuyStep(t, callerId, bookId, now).0;
            var buyer := Find(t.users, UserKey, callerId).value;
            var price := Find(t.books, BookKey, bookId).value.price;
      && Find(t'.users, UserKey, callerId) == Some(buyer.(budget := buyer.budget - price))
      && buyer.budget - price >= 0
      && |t'.users| == |t.users|
      && (forall i :: 0 <= i < |t.users| && t.users[i].id != callerId ==> t'.users[i] == t.users[i])
      && t'.orders == t.orders + [Order(t.nextOrderId, bookId, callerId, now)]
      && t'.books == t.books && t'.categories == t.categories
  {
    var buyer := Find(t.users, UserKey, callerId).value;
    var book := Find(t.books, BookKey, bookId).value;
    BuyStepOk(t, callerId, bookId, now);
    PurchaseDebitsOnlyTheBuyer(t, buyer, book, now);
  }

  /** The shape of a successful purchase: the caller and the book exist, and
      the step is the purchase of that book by that caller. */
  lemma BuyStepOk(t: Tables, callerId: int, bookId: int, now: int)
    requires BuyStep(t, callerId, bookId, now).1 == Ok
    ensures Find(t.users, UserKey, callerId).Some? && Find(t.books, BookKey, bookId).Some?
    ensures Find(t.users, UserKey, callerId).value.budget >= Find(t.books, BookKey, bookId).value.price
    ensures BuyStep(t, callerId, bookId, now).0
         == Purchase(t, Find(t.users, UserKey, callerId).value, Find(t.books, BookKey, bookId).value, now)
  {
  }

  /** A purchase writes back the buyer's row alone and appends one order. */
  lemma PurchaseDebitsOnlyTheBuyer(t: Tables, user: User, book: Book, now: int)
    requires Find(t.users, UserKey, user.id) == Some(user)
    ensures var t' := Purchase(t, user, book, now);
      && Find(t'.users, UserKey, user.id) == Some(user.(budget := user.budget - book.price))
      && |t'.users| == |t.users|
      && (forall i :: 0 <= i < |t.users| && t.users[i].id != user.id ==> t'.users[i] == t.users[i])
      && t'.orders == t.orders + [Order(t.nextOrderId, book.id, user.id, now)]
      && t'.books == t.books && t'.categories == t.categories
  {
    var debited := user.(budget := user.budget - book.price);
    var users' := ReplaceByKey(t.users, UserKey, debited);
    assert Purchase(t, user, book, now).users == users';
    FindAfterReplace(t.users, UserKey, debited, user.id);
    forall i | 0 <= i < |t.users| && t.users[i].id != user.id
      ensures users'[i] == t.users[i]
    {
      ReplaceByKeyAt(t.users, UserKey, debited, i);
    }
  }

  /** A purchase never leaves any budget negative when none was before (a
      registration can still store a negative budget: it is not validated). */
  lemma BuyKeepsBudgetsNonNegative(t: Tables, callerId: int, bookId: int, now: int)
    requires forall u :: u in t.users ==> u.budget >= 0
    ensures forall u :: u in BuyStep(t, callerId, bookId, now).0.users ==> u.budget >= 0
  {
    if BuyStep(t, callerId, bookId, now).1 == Ok {
      BuyStepOk(t, callerId, bookId, now);
      var buyer := Find(t.users, UserKey, callerId).value;
      var debited := buyer.(budget := buyer.budget - Find(t.books, BookKey, bookId).value.price);
      var users' := ReplaceByKey(t.users, UserKey, debited);
      assert BuyStep(t, callerId, bookId, now).0.users == users';
      forall u | u in users' ensures u.budget >= 0 {
        var i :| 0 <= i < |users'| && users'[i] == u;
        ReplaceByKeyAt(t.users, UserKey, debited, i);
        assert t.users[i] in t.users;
      }
    }
  }

  /** A purchase keeps every store invariant. */
  lemma BuyKeepsInvariant(t: Tables, callerId: int, bookId: int, now: int)
    requires Invariant(t)
    ensures Invariant(BuyStep(t, callerId, bookId, now).0)
  {
    if BuyStep(t, callerId, bookId, now).1 == Ok {
      BuyStepOk(t, callerId, bookId, now);
      var book := Find(t.books, BookKey, bookId).value;
      assert Find(t.books, BookKey, book.id).Some?;
      PurchaseKeepsInvariant(t, Find(t.users, UserKey, callerId).value, book, now);
    } else {
      assert BuyStep(t, callerId, bookId, now).0 == t;
    }
  }

  /** A purchase of a stored book by a stored user keeps every store
      invariant: the buyer's key is unchanged, and the new order refers to a
      stored user and a stored book. */
  lemma PurchaseKeepsInvariant(t: Tables, user: User, book: Book, now: int)
    requires Invariant(t) && Find(t.users, UserKey, user.id).Some? && Find(t.books, BookKey, book.id).Some?
    ensures Invariant(Purchase(t, user, book, now))
  {
    var t' := Purchase(t, user, book, now);
    assert t'.categories == t.categories;
    PurchaseKeepsKeys(t, user, book, now);
    PurchaseKeepsReferences(t, user, book, now);
  }

  lemma PurchaseKeepsKeys(t: Tables, user: User, book: Book, now: int)
    requires KeysValid(t)
    ensures KeysValid(Purchase(t, user, book, now))
  {
    var buyer := user.(budget := user.budget - book.price);
    var order := Order(t.nextOrderId, book.id, user.id, now);
    var t' := Purchase(t, user, book, now);
    assert t'.users == ReplaceByKey(t.users, UserKey, buyer);
    assert t'.orders == t.orders + [order] && t'.nextOrderId == t.nextOrderId + 1;
    assert t'.(users := t.users, orders := t.orders, nextOrderId := t.nextOrderId) == t;
    ReplaceKeepsKeyedBelow(t.users, UserKey, t.nextUserId, buyer);
    AppendKeepsKeyedBelow(t.orders, OrderKey, t.nextOrderId, order);
  }

  lemma PurchaseKeepsReferences(t: Tables, user: User, book: Book, now: int)
    requires ReferencesResolve(t) && Find(t.users, UserKey, user.id).Some? && Find(t.books, BookKey, book.id).Some?
    ensures ReferencesResolve(Purchase(t, user, book, now))
  {
    var buyer := user.(budget := user.budget - book.price);
    var order := Order(t.nextOrderId, book.id, user.id, now);
    PurchaseWritesBackAndAppends(t, user, book, now);
    DebitAndOrderKeepReferences(t, buyer, order);
  }

  /** The purchase's save, field by field. */
  lemma PurchaseWritesBackAndAppends(t: Tables, user: User, book: Book, now: int)
    ensures Purchase(t, user, book, now)
         == t.(users := ReplaceByKey(t.users, UserKey, user.(budget := user.budget - book.price)),
               orders := t.orders + [Order(t.nextOrderId, book.id, user.id, now)],
               nextOrderId := t.nextOrderId + 1)
  {
  }

  /** Writing back a stored user and appending an order of a stored user and
      a stored book keep every reference resolving. */
  lemma DebitAndOrderKeepReferences(t: Tables, buyer: User, order: Order)
    requires ReferencesResolve(t) && Find(t.users, UserKey, buyer.id).Some?
    requires Find(t.users, UserKey, order.userId).Some? && Find(t.books, BookKey, order.bookId).Some?
    ensures ReferencesResolve(t.(users := ReplaceByKey(t.users, UserKey, buyer), orders := t.orders + [order], nextOrderId := t.nextOrderId + 1))
  {
    var t1 := t.(users := ReplaceByKey(t.users, UserKey, buyer));
    WriteBackKeepsReferences(t, buyer);
    FindAfterReplace(t.users, UserKey, buyer, order.userId);
    var t2 := t1.(orders := t1.orders + [order]);
    AppendOrderKeepsReferences(t1, order);
    ReferencesIgnoreCounters(t2, t.nextUserId, t.nextBookId, t.nextCategoryId, t.nextOrderId + 1);
    assert t2.(nextOrderId := t.nextOrderId + 1)
        == t.(users := ReplaceByKey(t.users, UserKey, buyer), orders := t.orders + [order], nextOrderId := t.nextOrderId + 1);
  }

  lemma WriteBackKeepsReferences(t: Tables, buyer: User)
    requires ReferencesResolve(t) && Find(t.users, UserKey, buyer.id).Some?
    ensures ReferencesResolve(t.(users := ReplaceByKey(t.users, UserKey, buyer)))
  {
    var t' := t.(users := ReplaceByKey(t.users, UserKey, buyer));
    forall id | Find(t.users, UserKey, id).Some? ensures Find(t'.users, UserKey, id).Some? {
      FindAfterReplace(t.users, UserKey, buyer, id);
    }
  }

  lemma AppendOrderKeepsReferences(t: Tables, order: Order)
    requires ReferencesResolve(t)
    requires Find(t.users, UserKey, order.userId).Some? && Find(t.books, BookKey, order.bookId).Some?
    ensures ReferencesResolve(t.(orders := t.orders + [order]))
  {
  }

  /** The caller's order list grows by the new order; everyone else's is unchanged. */
  lemma BuyExtendsOnlyCallersOrders(t: Tables, callerId: int, bookId: int, now: int, userId: int)
    requires BuyStep(t, callerId, bookId, now).1 == Ok
    ensures Where(BuyStep(t, callerId, bookId, now).0.orders, PlacedBy(userId))
         == Where(t.orders, PlacedBy(userId)) + (if userId == callerId then [Order(t.nextOrderId, bookId, callerId, now)] else [])
  {
    WhereAppend(t.orders, Order(t.nextOrderId, bookId, callerId, now), PlacedBy(userId));
  }

  /** A bought book is not marked sold: it stays listed, and the same buyer can
      buy it again while the remaining budget covers the price. */
  lemma BookCanBeBoughtAgain(t: Tables, callerId: int, bookId: int, now: int, later: int)
    requires BuyStep(t, callerId, bookId, now).1 == Ok
    requires Find(t.users, UserKey, callerId).value.budget >= 2 * Find(t.books, BookKey, bookId).value.price
    ensures Find(BuyStep(t, callerId, bookId, now).0.books, BookKey, bookId) == Find(t.books, BookKey, bookId)
    ensures BuyStep(BuyStep(t, callerId, bookId, now).0, callerId, bookId, later).1 == Ok
  {
    BuyDebitsAndRecords(t, callerId, bookId, now);
  }

  // ---------------------------------------------------------------------------
  // GET /books and GET /myorders

  /** One book's projection: since keys are unique, the category and seller
      names are those of the very rows the book's keys name. */
  lemma ToBookDtoProjects(t: Tables, b: Book)
    requires KeysValid(t)
    ensures var dto := ToBookDto(t, b);
      && (forall c :: c in t.categories && c.id == b.categoryId ==> dto.category == c.name)
      && (forall u :: u in t.users && u.id == b.sellerId ==> dto.seller == u.username)
  {
    forall c | c in t.categories && c.id == b.categoryId ensures ToBookDto(t, b).category == c.name {
      FindUnique(t.categories, CategoryKey, t.nextCategoryId, b.categoryId, c);
    }
    forall u | u in t.users && u.id == b.sellerId ensures ToBookDto(t, b).seller == u.username {
      FindUnique(t.users, UserKey, t.nextUserId, b.sellerId, u);
    }
  }

  /** Since references always resolve, GET /books shows every book with the
      name of its category and of its seller (never the "" fallback of a
      missing row). */
  lemma BooksViewResolvesNames(t: Tables)
    requires ReferencesResolve(t)
    ensures forall i :: 0 <= i < |t.books| ==>
      && Find(t.categories, CategoryKey, t.books[i].categoryId) == Some(Category(t.books[i].categoryId, BooksView(t)[i].category))
      && exists u :: u in t.users && u.id == t.books[i].sellerId && u.username == BooksView(t)[i].seller
  {
    forall i | 0 <= i < |t.books|
      ensures exists u :: u in t.users && u.id == t.books[i].sellerId && u.username == BooksView(t)[i].seller
    {
      assert t.books[i] in t.books;
      var u := Find(t.users, UserKey, t.books[i].sellerId).value;
      assert u in t.users;
    }
    forall i | 0 <= i < |t.books|
      ensures Find(t.categories, CategoryKey, t.books[i].categoryId) == Some(Category(t.books[i].categoryId, BooksView(t)[i].category))
    {
      assert t.books[i] in t.books;
    }
  }

  /** A line of /myorders shows the title of a stored book and the name of a
      stored user, those that order `o` names. */
  ghost predicate ShowsStoredNames(t: Tables, o: Order, line: OrderDto)
  {
    && (exists b :: b in t.books && b.id == o.bookId && b.title == line.bookTitle)
    && (exists u :: u in t.users && u.id == o.userId && u.username == line.buyer)
  }

  /** Since references always resolve, every entry of /myorders (with the
      buyer resolved) belongs to one of the caller's orders and carries the
      title of the book that order names and the caller's own username. */
  lemma MyOrdersNamesTheBuyer(t: Tables, callerId: int)
    requires ReferencesResolve(t)
    ensures forall i :: 0 <= i < |MyOrders(t, callerId)| ==>
      && Where(t.orders, PlacedBy(callerId))[i] in t.orders
      && Where(t.orders, PlacedBy(callerId))[i].userId == callerId
      && ShowsStoredNames(t, Where(t.orders, PlacedBy(callerId))[i], MyOrders(t, callerId)[i])
  {
    var mine := Where(t.orders, PlacedBy(callerId));
    var view := MyOrders(t, callerId);
    forall i | 0 <= i < |view|
      ensures mine[i] in t.orders && mine[i].userId == callerId && ShowsStoredNames(t, mine[i], view[i])
    {
      assert mine[i] in mine;
      OrderNamesResolve(t, mine[i]);
    }
  }

  /** A stored order's book title and buyer name come from stored rows. */
  lemma OrderNamesResolve(t: Tables, o: Order)
    requires ReferencesResolve(t) && o in t.orders
    ensures exists b :: b in t.books && b.id == o.bookId && b.title == BookTitleOf(t, o.bookId)
    ensures exists u :: u in t.users && u.id == o.userId && u.username == UsernameOf(t, o.userId)
  {
    var b := Find(t.books, BookKey, o.bookId).value;
    assert b in t.books;
    var u := Find(t.users, UserKey, o.userId).value;
    assert u in t.users;
  }

  /** The query as written and the corrected one list the same orders, in the
      same order, with the same id, title and date: only the buyer differs. */
  lemma MyOrdersAsWrittenDiffersOnlyInBuyer(t: Tables, callerId: int)
    ensures |MyOrdersAsWritten(t, callerId)| == |MyOrders(t, callerId)|
    ensures forall i :: 0 <= i < |MyOrders(t, callerId)| ==>
              MyOrdersAsWritten(t, callerId)[i] == MyOrders(t, callerId)[i].(buyer := "")
  {
  }

  /** A store where the seller "alice" has bought her own book once. */
  const AliceBoughtDune := Tables([User(1, "alice", "", 100, true)], [Book(1, "Dune", "Herbert", 10, 1, 1)],
                                  [Category(1, "Novel")], [Order(1, 1, 1, 0)], 2, 2, 2, 2)

  /** As written, /myorders leaves the buyer empty even when the buyer exists:
      one order by "alice" of her own book, in a store that keeps every
      invariant, is enough to show it. */
  lemma MyOrdersAsWrittenDropsBuyer()
    ensures Invariant(AliceBoughtDune)
    ensures MyOrdersAsWritten(AliceBoughtDune, 1) == [OrderDto(1, "Dune", "", 0)]
    ensures MyOrders(AliceBoughtDune, 1) == [OrderDto(1, "Dune", "alice", 0)]
  {
    var t := AliceBoughtDune;
    AliceBoughtDuneIsValid();
    assert Where(t.orders, PlacedBy(1)) == [Order(1, 1, 1, 0)];
    assert Find(t.users, UserKey, 1) == Some(User(1, "alice", "", 100, true));
    assert Find(t.books, BookKey, 1) == Some(Book(1, "Dune", "Herbert", 10, 1, 1));
  }

  lemma AliceBoughtDuneIsValid()
    ensures Invariant(AliceBoughtDune)
  {
    var t := AliceBoughtDune;
    assert Find(t.users, UserKey, 1) == Some(User(1, "alice", "", 100, true));
    assert Find(t.books, BookKey, 1) == Some(Book(1, "Dune", "Herbert", 10, 1, 1));
    assert Find(t.categories, CategoryKey, 1) == Some(Category(1, "Novel"));
  }
}
