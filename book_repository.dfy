/** `BookRepository` (Repositories/IBookRepository.cs): the book table's
    primitives over the shared database context. */
module Repositories {
  import opened Linq
  import opened Models
  import opened Data

  class BookRepository {
    const context: AppDbContext

    constructor (context: AppDbContext)
      ensures this.context == context
    {
      this.context := context;
    }

    /** GetAllAsync: the whole book table, in storage order, nothing dropped or added. */
    method GetAll() returns (r: seq<Book>)
      ensures r == context.books
    {
      r := context.books;
    }

    /** GetByIdAsync: the book whose id is `id`, or `None` when there is none. */
    function GetById(id: int): (r: Option<Book>)
      reads context
      ensures r.Some? ==> r.value in context.books && r.value.id == id
      ensures r.None? <==> forall b :: b in context.books ==> b.id != id
    {
      Find(context.books, BookKey, id)
    }

    /** AddAsync: the book is stored under the next key, after every book already there. */
    method Add(book: Book) returns (id: int)
      requires KeysValid(context.Snapshot())
      modifies context
      ensures id == old(context.nextBookId)
      ensures context.Snapshot() == InsertBook(old(context.Snapshot()), book)
      ensures KeysValid(context.Snapshot())
      ensures GetById(id) == Some(book.(id := id))
      ensures forall other :: other != id ==> GetById(other) == old(GetById(other))
    {
      id := context.nextBookId;
      var stored := book.(id := id);
      ghost var before := context.books;
      context.books := context.books + [stored];
      context.nextBookId := id + 1;
      forall other | true
        ensures Find(before + [stored], BookKey, other)
             == if other == id then Some(stored) else Find(before, BookKey, other)
      {
        FindAfterAppend(before, BookKey, id, stored, other);
      }
      AppendKeepsKeyedBelow(before, BookKey, id, stored);
    }

    /** UpdateAsync: the stored book with the same id is replaced by `book`; no
        other book changes. A book that is not stored makes EF Core throw before
        anything is saved: `found` is then false and nothing changes. */
    method Update(book: Book) returns (found: bool)
      requires KeysValid(context.Snapshot())
      modifies context
      ensures found == old(GetById(book.id)).Some?
      ensures context.Snapshot()
           == old(context.Snapshot()).(books := if found then ReplaceByKey(old(context.books), BookKey, book)
                                                else old(context.books))
      ensures KeysValid(context.Snapshot())
      ensures found ==> GetById(book.id) == Some(book)
      ensures forall other :: other != book.id ==> GetById(other) == old(GetById(other))
    {
      found := GetById(book.id).Some?;
      if found {
        ghost var before := context.books;
        ReplaceKeepsKeyedBelow(before, BookKey, context.nextBookId, book);
        context.books := ReplaceByKey(context.books, BookKey, book);
        forall other | true
          ensures Find(ReplaceByKey(before, BookKey, book), BookKey, other)
               == if other == book.id && Find(before, BookKey, other).Some? then Some(book)
                  else Find(before, BookKey, other)
        {
          FindAfterReplace(before, BookKey, book, other);
        }
      }
    }

    /** DeleteAsync: removes the book with that id when there is one, and does
        nothing otherwise. The orders of the removed book go with it: the
        order-to-book relationship is required, so the delete cascades. */
    method Delete(id: int)
      requires KeysValid(context.Snapshot())
      modifies context
      ensures context.Snapshot()
           == if old(GetById(id)).Some? then DeleteBook(old(context.Snapshot()), id) else old(context.Snapshot())
      ensures KeysValid(context.Snapshot())
      ensures forall b :: b in context.books <==> b in old(context.books) && b.id != id
      ensures GetById(id) == None
    {
      var book := GetById(id);
      if book.Some? {
        WhereKeepsKeyedBelow(context.books, BookKey, context.nextBookId, LacksKey(BookKey, id));
        WhereKeepsKeyedBelow(context.orders, OrderKey, context.nextOrderId, NotForBook(id));
        context.books, context.orders := RemoveByKey(context.books, BookKey, id), Where(context.orders, NotForBook(id));
      }
    }
  }

  /** Deleting by id a second time finds nothing to delete. */
  lemma DeleteIsIdempotent(books: seq<Book>, id: int)
    ensures RemoveByKey(RemoveByKey(books, BookKey, id), BookKey, id) == RemoveByKey(books, BookKey, id)
  {
    WhereIdempotent(books, LacksKey(BookKey, id));
  }

  /** Deleting an id that no book carries leaves the table as it was. */
  lemma DeleteAbsentIsNoop(books: seq<Book>, id: int)
    requires forall b :: b in books ==> b.id != id
    ensures RemoveByKey(books, BookKey, id) == books
  {
    WhereKeepsAll(books, LacksKey(BookKey, id));
  }
}
