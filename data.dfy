/** The database context (DTOs/AppDbContext.cs): four tables kept in storage
    order, each with an AUTOINCREMENT primary key that starts at 1. EF Core's
    `Add` + `SaveChangesAsync` appends a row under the next key; writing back a
    tracked entity replaces the row with the same key; `Remove` drops it. */
module Data {
  import opened Linq
  import opened Models

  /** The value of the whole store: the four tables and the next key of each. */
  datatype Tables = Tables(
    users: seq<User>, books: seq<Book>, categories: seq<Category>, orders: seq<Order>,
    nextUserId: int, nextBookId: int, nextCategoryId: int, nextOrderId: int)

  /** A freshly migrated, empty database. */
  const EmptyTables := Tables([], [], [], [], 1, 1, 1, 1)

  // ---------------------------------------------------------------------------
  // Keyed tables

  /** Primary keys are positive, strictly increasing in storage order (so
      unique), and below the next key the table will assign. */
  ghost predicate KeyedBelow<T>(s: seq<T>, key: T -> int, next: int)
  {
    && 0 < next
    && (forall i :: 0 <= i < |s| ==> 0 < key(s[i]) < next)
    && (forall i, j :: 0 <= i < j < |s| ==> key(s[i]) < key(s[j]))
  }

  /** The selector `x => key(x) == id`. */
  function HasKey<T>(key: T -> int, id: int): T -> bool
  {
    x => key(x) == id
  }

  /** The selector `x => key(x) != id`. */
  function LacksKey<T>(key: T -> int, id: int): T -> bool
  {
    x => key(x) != id
  }

  /** `DbSet.FindAsync(id)` (and `FirstOrDefaultAsync(b => b.Id == id)`): the
      row whose primary key is `id`, or `None`. */
  function Find<T>(s: seq<T>, key: T -> int, id: int): (r: Option<T>)
    ensures r.Some? ==> r.value in s && key(r.value) == id
    ensures r.None? <==> forall x :: x in s ==> key(x) != id
  {
    FirstOrDefault(s, HasKey(key, id))
  }

  /** `SaveChangesAsync` for a tracked entity `x` whose fields were assigned:
      the stored row with `x`'s key now holds `x`. */
  function ReplaceByKey<T>(s: seq<T>, key: T -> int, x: T): (r: seq<T>)
    ensures |r| == |s|
  {
    if s == [] then []
    else [if key(s[0]) == key(x) then x else s[0]] + ReplaceByKey(s[1..], key, x)
  }

  /** `Remove` + `SaveChangesAsync`: every row whose key is `id` is dropped. */
  function RemoveByKey<T(!new)>(s: seq<T>, key: T -> int, id: int): (r: seq<T>)
    ensures forall x :: x in r <==> x in s && key(x) != id
  {
    Where(s, LacksKey(key, id))
  }

  /** With unique keys, Find answers exactly the row that carries the key. */
  lemma FindUnique<T>(s: seq<T>, key: T -> int, next: int, id: int, x: T)
    requires KeyedBelow(s, key, next)
    ensures Find(s, key, id) == Some(x) <==> x in s && key(x) == id
  {
    if x in s && key(x) == id {
      var r := Find(s, key, id);
      var i :| 0 <= i < |s| && s[i] == x;
      var j :| 0 <= j < |s| && s[j] == r.value;
      assert i == j;
    }
  }

  /** A row appended under the next key is found by that key, and every other
      lookup answers as before. */
  lemma FindAfterAppend<T>(s: seq<T>, key: T -> int, next: int, x: T, id: int)
    requires KeyedBelow(s, key, next) && key(x) == next
    ensures Find(s + [x], key, id) == if id == next then Some(x) else Find(s, key, id)
  {
    FirstOrDefaultAppend(s, x, HasKey(key, id));
  }

  /** A row appended under the next key, with the counter advanced, keeps the key invariant. */
  lemma AppendKeepsKeyedBelow<T>(s: seq<T>, key: T -> int, next: int, x: T)
    requires KeyedBelow(s, key, next) && key(x) == next
    ensures KeyedBelow(s + [x], key, next + 1)
  {
    assert forall i :: 0 <= i < |s| ==> (s + [x])[i] == s[i];
  }

  /** Writing back `x` replaces row by row and changes no key. */
  lemma {:induction false} ReplaceByKeyAt<T>(s: seq<T>, key: T -> int, x: T, i: int)
    requires 0 <= i < |s|
    ensures ReplaceByKey(s, key, x)[i] == if key(s[i]) == key(x) then x else s[i]
  {
    if i > 0 {
      ReplaceByKeyAt(s[1..], key, x, i - 1);
    } else if |s| > 1 {
      ReplaceByKeyAt(s[1..], key, x, 0);
    }
  }

  /** Writing back a row leaves the key order, and so the key invariant, intact. */
  lemma ReplaceKeepsKeyedBelow<T>(s: seq<T>, key: T -> int, next: int, x: T)
    requires KeyedBelow(s, key, next)
    ensures KeyedBelow(ReplaceByKey(s, key, x), key, next)
  {
    var r := ReplaceByKey(s, key, x);
    forall i | 0 <= i < |s| ensures key(r[i]) == key(s[i]) {
      ReplaceByKeyAt(s, key, x, i);
    }
  }

  /** After the write-back, the row with `x`'s key is `x` (if there was one),
      and every other lookup answers as before. */
  lemma {:induction false} FindAfterReplace<T>(s: seq<T>, key: T -> int, x: T, id: int)
    ensures Find(ReplaceByKey(s, key, x), key, id)
         == if id == key(x) && Find(s, key, id).Some? then Some(x) else Find(s, key, id)
  {
    if s != [] {
      var r := ReplaceByKey(s, key, x);
      var head := if key(s[0]) == key(x) then x else s[0];
      assert r == [head] + ReplaceByKey(s[1..], key, x);
      assert r[0] == head && r[1..] == ReplaceByKey(s[1..], key, x);
      FindAfterReplace(s[1..], key, x, id);
    }
  }

  /** A row put in front of a keyed table keeps the key invariant when its key
      is valid and below every key behind it. */
  lemma ConsKeepsKeyedBelow<T>(x: T, w: seq<T>, key: T -> int, next: int)
    requires KeyedBelow(w, key, next) && 0 < key(x) < next
    requires forall y :: y in w ==> key(x) < key(y)
    ensures KeyedBelow([x] + w, key, next)
  {
    var r := [x] + w;
    forall i | 0 < i < |r| ensures r[i] == w[i - 1] && r[i] in w {
    }
  }

  /** Removing the rows under one key leaves every other stored key stored. */
  lemma FindAfterRemove<T(!new)>(s: seq<T>, key: T -> int, id: int, other: int)
    requires other != id && Find(s, key, other).Some?
    ensures Find(RemoveByKey(s, key, id), key, other).Some?
  {
    var x := Find(s, key, other).value;
    assert x in RemoveByKey(s, key, id);
  }

  /** Removing rows keeps the remaining keys in order and below the counter. */
  lemma {:induction false} WhereKeepsKeyedBelow<T(!new)>(s: seq<T>, key: T -> int, next: int, p: T -> bool)
    requires KeyedBelow(s, key, next)
    ensures KeyedBelow(Where(s, p), key, next)
  {
    if s != [] {
      assert KeyedBelow(s[1..], key, next);
      WhereKeepsKeyedBelow(s[1..], key, next, p);
      var w := Where(s[1..], p);
      forall y | y in w ensures key(s[0]) < key(y) {
        var k :| 0 <= k < |s[1..]| && s[1..][k] == y;
        assert s[k + 1] == y;
      }
      if p(s[0]) {
        ConsKeepsKeyedBelow(s[0], w, key, next);
      }
    }
  }

  // ---------------------------------------------------------------------------
  // Inserting a row: Add + SaveChangesAsync assigns the next key

  /** Each insert appends the row under its table's next key and advances that
      counter, so the table's keys stay valid; nothing else changes. */
  function InsertUser(t: Tables, u: User): (r: Tables)
    ensures KeyedBelow(t.users, UserKey, t.nextUserId) ==> KeyedBelow(r.users, UserKey, r.nextUserId)
    ensures |r.users| == |t.users| + 1 && r.users[..|t.users|] == t.users && r.users[|t.users|] == u.(id := t.nextUserId)
    ensures r.(users := t.users, nextUserId := t.nextUserId) == t
  {
    assert KeyedBelow(t.users, UserKey, t.nextUserId) ==> KeyedBelow(t.users + [u.(id := t.nextUserId)], UserKey, t.nextUserId + 1) by {
      if KeyedBelow(t.users, UserKey, t.nextUserId) {
        AppendKeepsKeyedBelow(t.users, UserKey, t.nextUserId, u.(id := t.nextUserId));
      }
    }
    t.(users := t.users + [u.(id := t.nextUserId)], nextUserId := t.nextUserId + 1)
  }

  function InsertBook(t: Tables, b: Book): (r: Tables)
    ensures KeyedBelow(t.books, BookKey, t.nextBookId) ==> KeyedBelow(r.books, BookKey, r.nextBookId)
    ensures |r.books| == |t.books| + 1 && r.books[..|t.books|] == t.books && r.books[|t.books|] == b.(id := t.nextBookId)
    ensures r.(books := t.books, nextBookId := t.nextBookId) == t
  {
    assert KeyedBelow(t.books, BookKey, t.nextBookId) ==> KeyedBelow(t.books + [b.(id := t.nextBookId)], BookKey, t.nextBookId + 1) by {
      if KeyedBelow(t.books, BookKey, t.nextBookId) {
        AppendKeepsKeyedBelow(t.books, BookKey, t.nextBookId, b.(id := t.nextBookId));
      }
    }
    t.(books := t.books + [b.(id := t.nextBookId)], nextBookId := t.nextBookId + 1)
  }

  function InsertCategory(t: Tables, c: Category): (r: Tables)
    ensures KeyedBelow(t.categories, CategoryKey, t.nextCategoryId) ==> KeyedBelow(r.categories, CategoryKey, r.nextCategoryId)
    ensures |r.categories| == |t.categories| + 1 && r.categories[..|t.categories|] == t.categories && r.categories[|t.categories|] == c.(id := t.nextCategoryId)
    ensures r.(categories := t.categories, nextCategoryId := t.nextCategoryId) == t
  {
    assert KeyedBelow(t.categories, CategoryKey, t.nextCategoryId) ==> KeyedBelow(t.categories + [c.(id := t.nextCategoryId)], CategoryKey, t.nextCategoryId + 1) by {
      if KeyedBelow(t.categories, CategoryKey, t.nextCategoryId) {
        AppendKeepsKeyedBelow(t.categories, CategoryKey, t.nextCategoryId, c.(id := t.nextCategoryId));
      }
    }
    t.(categories := t.categories + [c.(id := t.nextCategoryId)], nextCategoryId := t.nextCategoryId + 1)
  }

  function InsertOrder(t: Tables, o: Order): (r: Tables)
    ensures KeyedBelow(t.orders, OrderKey, t.nextOrderId) ==> KeyedBelow(r.orders, OrderKey, r.nextOrderId)
    ensures |r.orders| == |t.orders| + 1 && r.orders[..|t.orders|] == t.orders && r.orders[|t.orders|] == o.(id := t.nextOrderId)
    ensures r.(orders := t.orders, nextOrderId := t.nextOrderId) == t
  {
    assert KeyedBelow(t.orders, OrderKey, t.nextOrderId) ==> KeyedBelow(t.orders + [o.(id := t.nextOrderId)], OrderKey, t.nextOrderId + 1) by {
      if KeyedBelow(t.orders, OrderKey, t.nextOrderId) {
        AppendKeepsKeyedBelow(t.orders, OrderKey, t.nextOrderId, o.(id := t.nextOrderId));
      }
    }
    t.(orders := t.orders + [o.(id := t.nextOrderId)], nextOrderId := t.nextOrderId + 1)
  }

  /** The selector `o => o.BookId != bookId`. */
  function NotForBook(bookId: int): Order -> bool
  {
    (o: Order) => o.bookId != bookId
  }

  /** `DeleteAsync` of a stored book: the book row is removed and, since an
      order's book is a required relationship, the database cascades the
      delete to the orders of that book. */
  function DeleteBook(t: Tables, id: int): (r: Tables)
    ensures forall b :: b in r.books <==> b in t.books && b.id != id
    ensures forall o :: o in r.orders <==> o in t.orders && o.bookId != id
    ensures r.(books := t.books, orders := t.orders) == t
  {
    t.(books := RemoveByKey(t.books, BookKey, id), orders := Where(t.orders, NotForBook(id)))
  }

  // ---------------------------------------------------------------------------
  // Store invariants

  /** Every table's keys are unique, positive and below that table's counter. */
  ghost predicate KeysValid(t: Tables)
  {
    && KeyedBelow(t.users, UserKey, t.nextUserId)
    && KeyedBelow(t.books, BookKey, t.nextBookId)
    && KeyedBelow(t.categories, CategoryKey, t.nextCategoryId)
    && KeyedBelow(t.orders, OrderKey, t.nextOrderId)
  }

  /** The foreign keys of the relationship configuration all resolve: a
      book's category and seller, and an order's book and buyer, exist. */
  ghost predicate ReferencesResolve(t: Tables)
  {
    && (forall b :: b in t.books ==>
          Find(t.categories, CategoryKey, b.categoryId).Some? && Find(t.users, UserKey, b.sellerId).Some?)
    && (forall o :: o in t.orders ==>
          Find(t.books, BookKey, o.bookId).Some? && Find(t.users, UserKey, o.userId).Some?)
  }

  /** No two categories share a name. */
  ghost predicate UniqueCategoryNames(cs: seq<Category>)
  {
    forall i, j :: 0 <= i < j < |cs| ==> cs[i].name != cs[j].name
  }

  ghost predicate Invariant(t: Tables)
  {
    KeysValid(t) && ReferencesResolve(t) && UniqueCategoryNames(t.categories)
  }

  /** The scoped `AppDbContext`: the tables as fields the handlers update in place. */
  class AppDbContext {
    var users: seq<User>
    var books: seq<Book>
    var categories: seq<Category>
    var orders: seq<Order>
    var nextUserId: int
    var nextBookId: int
    var nextCategoryId: int
    var nextOrderId: int

    /** The current contents of the store. */
    function Snapshot(): Tables
      reads this
    {
      Tables(users, books, categories, orders, nextUserId, nextBookId, nextCategoryId, nextOrderId)
    }

    ghost predicate Valid()
      reads this
    {
      Invariant(Snapshot())
    }

    /** A context over a freshly migrated database. */
    constructor ()
      ensures Snapshot() == EmptyTables && Valid()
    {
      users, books, categories, orders := [], [], [], [];
      nextUserId, nextBookId, nextCategoryId, nextOrderId := 1, 1, 1, 1;
    }
  }
}
