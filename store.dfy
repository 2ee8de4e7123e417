/** The mutating handlers addBook, updateBook and deleteBook, as methods of
    the store object that owns the ordered array of records. */
module Handlers {
  import opened Records
  import opened Selection
  import Queries

  /** Length of the ids the id generator produces. */
  const ID_LENGTH := 16

  /** What the validations and the derivation of `finished` guarantee of
      every stored record. */
  predicate WellFormed(b: Book) {
    && b.name != ""
    && b.readPage <= b.pageCount
    && b.finished == (b.pageCount == b.readPage)
    && |b.id| == ID_LENGTH
  }

  predicate Consistent(books: seq<Book>) {
    IdsUnique(books) && forall b :: b in books ==> WellFormed(b)
  }

  /** The record addBook appends. */
  function NewBook(id: string, p: Payload, now: string): Book
    requires p.name.Some?
  {
    Book(id, p.name.value, p.year, p.author, p.summary, p.publisher,
         p.pageCount, p.readPage, p.pageCount == p.readPage, p.reading,
         Stamp(now), now)
  }

  /** The record updateBook stores in place of `previous`: its `insertedAt`
      is `previous` itself, as the handler assigns it. */
  function Revised(bookId: string, p: Payload, previous: Book, now: string): Book
    requires p.name.Some?
  {
    Book(bookId, p.name.value, p.year, p.author, p.summary, p.publisher,
         p.pageCount, p.readPage, p.pageCount == p.readPage, p.reading,
         PreviousRecord(previous), now)
  }

  /** `books.splice(i, 1)`: the record at `i` leaves, the others keep their order. */
  function RemoveAt(books: seq<Book>, i: int): (r: seq<Book>)
    requires 0 <= i < |books|
    ensures |r| == |books| - 1
    ensures forall j :: 0 <= j < i ==> r[j] == books[j]
    ensures forall j :: i <= j < |r| ==> r[j] == books[j + 1]
    ensures multiset(r) == multiset(books) - multiset{books[i]}
  {
    assert books == books[..i] + [books[i]] + books[i + 1..];
    books[..i] + books[i + 1..]
  }

  class Store {
    var books: seq<Book>

    ghost predicate Valid()
      reads this
    {
      Consistent(books)
    }

    /** The store starts empty. */
    constructor ()
      ensures Valid() && books == []
    {
      books := [];
    }

    /** addBook, with the generated id and the current time as inputs. */
    method AddBook(p: Payload, id: string, now: string) returns (r: Response)
      requires Valid()
      requires |id| == ID_LENGTH && forall b :: b in books ==> b.id != id
      modifies this
      ensures Valid()
      ensures !Named(p) ==> r == Failure(ADD_NAME_MISSING, 400) && books == old(books)
      ensures Named(p) && p.readPage > p.pageCount ==>
        r == Failure(ADD_READ_PAGE_TOO_LARGE, 400) && books == old(books)
      ensures Admissible(p) ==>
        r == Response(Success, Some(ADD_SUCCEEDED), Some(BookId(id)), 201) &&
        books == old(books) + [NewBook(id, p, now)]
    {
      if !Named(p) {
        r := Failure(ADD_NAME_MISSING, 400);
        return;
      }
      if p.readPage > p.pageCount {
        r := Failure(ADD_READ_PAGE_TOO_LARGE, 400);
        return;
      }
      var newBook := NewBook(id, p, now);
      books := books + [newBook];
      r := Response(Success, Some(ADD_SUCCEEDED), Some(BookId(id)), 201);
    }

    /** updateBook. The `!book` test of the source tests an array, which is
        always truthy, so it never answers; the name and page checks therefore
        come before the unknown-id answer. */
    method UpdateBook(bookId: string, p: Payload, now: string) returns (r: Response)
      requires Valid()
      modifies this
      ensures Valid()
      ensures !Named(p) ==> r == Failure(UPDATE_NAME_MISSING, 400) && books == old(books)
      ensures Named(p) && p.readPage > p.pageCount ==>
        r == Failure(UPDATE_READ_PAGE_TOO_LARGE, 400) && books == old(books)
      ensures Admissible(p) && FindIndex(old(books), bookId) == -1 ==>
        r == Failure(UPDATE_ID_NOT_FOUND, 404) && books == old(books)
      ensures Admissible(p) && FindIndex(old(books), bookId) != -1 ==>
        var i := FindIndex(old(books), bookId);
        r == Response(Success, Some(UPDATE_SUCCEEDED), None, 200) &&
        books == old(books)[i := Revised(bookId, p, old(books)[i], now)]
    {
      var found := Select(books, IdIs(bookId));
      var index := FindIndex(books, bookId);
      if !Named(p) {
        r := Failure(UPDATE_NAME_MISSING, 400);
        return;
      }
      if p.readPage > p.pageCount {
        r := Failure(UPDATE_READ_PAGE_TOO_LARGE, 400);
        return;
      }
      if index != -1 {
        SelectByIdHead(books, bookId);
        var updated := Revised(bookId, p, found[0], now);
        books := books[index := updated];
        r := Response(Success, Some(UPDATE_SUCCEEDED), None, 200);
        return;
      }
      r := Failure(UPDATE_ID_NOT_FOUND, 404);
    }

    /** deleteBook: removes the first record with the id. */
    method DeleteBook(bookId: string) returns (r: Response)
      requires Valid()
      modifies this
      ensures Valid()
      ensures FindIndex(old(books), bookId) == -1 ==>
        r == Failure(DELETE_ID_NOT_FOUND, 404) && books == old(books)
      ensures FindIndex(old(books), bookId) != -1 ==>
        r == Response(Success, Some(DELETE_SUCCEEDED), None, 200) &&
        books == RemoveAt(old(books), FindIndex(old(books), bookId))
    {
      var index := FindIndex(books, bookId);
      if index != -1 {
        books := RemoveAt(books, index);
        r := Response(Success, Some(DELETE_SUCCEEDED), None, 200);
        return;
      }
      r := Failure(DELETE_ID_NOT_FOUND, 404);
    }
  }

  /** A created record carries the payload, the given id, a `finished` flag
      that says whether every page is read, and equal creation and update
      times; getBookById then returns it. */
  lemma AddThenGet(books: seq<Book>, p: Payload, id: string, now: string)
    requires Admissible(p)
    requires forall b :: b in books ==> b.id != id
    ensures
      var r := Queries.GetBookById(books + [NewBook(id, p, now)], id);
      && r.code == 200
      && r.data.Some? && r.data.value.Found?
      && var b := r.data.value.book;
      && b.id == id && Some(b.name) == p.name && b.year == p.year && b.author == p.author
      && b.summary == p.summary && b.publisher == p.publisher && b.pageCount == p.pageCount
      && b.readPage == p.readPage && b.reading == p.reading
      && (b.finished <==> p.readPage == p.pageCount)
      && b.insertedAt == Stamp(b.updatedAt)
  {
    var store := books + [NewBook(id, p, now)];
    assert store[|books|] == NewBook(id, p, now);
    var r := Queries.GetBookById(store, id);
    assert r.code == 200 by { assert store[|books|] in store; }
    var i :| IsFirst(store, id, i) && r.data == Some(Found(store[i]));
  }

  /** After a record is deleted from a store with unique ids, getBookById no
      longer finds its id. */
  lemma DeleteThenGet(books: seq<Book>, id: string)
    requires IdsUnique(books)
    requires FindIndex(books, id) != -1
    ensures Queries.GetBookById(RemoveAt(books, FindIndex(books, id)), id) == Failure(BOOK_NOT_FOUND, 404)
  {
    var i := FindIndex(books, id);
    var rest := RemoveAt(books, i);
    forall b | b in rest
      ensures b.id != id
    {
      var k :| 0 <= k < |rest| && rest[k] == b;
      if k < i {
        assert b == books[k];
      } else {
        assert b == books[k + 1];
      }
    }
  }

  /** After an update, getBookById finds the revised record under the same
      id, and the other records are untouched. */
  lemma UpdateThenGet(books: seq<Book>, bookId: string, p: Payload, now: string)
    requires Admissible(p)
    requires FindIndex(books, bookId) != -1
    ensures
      var i := FindIndex(books, bookId);
      var store := books[i := Revised(bookId, p, books[i], now)];
      && |store| == |books|
      && (forall j :: 0 <= j < |books| && j != i ==> store[j] == books[j])
      && Queries.GetBookById(store, bookId).data == Some(Found(Revised(bookId, p, books[i], now)))
  {
    var i := FindIndex(books, bookId);
    var store := books[i := Revised(bookId, p, books[i], now)];
    var r := Queries.GetBookById(store, bookId);
    assert store[i].id == bookId;
    assert r.code == 200 by { assert store[i] in store; }
    var k :| IsFirst(store, bookId, k) && r.data == Some(Found(store[k]));
  }

  /** The update handler does not keep the creation time: the stored
      `insertedAt` is the replaced record, never that record's own
      `insertedAt`. */
  lemma UpdateLosesInsertedAt(bookId: string, p: Payload, previous: Book, now: string)
    requires p.name.Some?
    ensures Revised(bookId, p, previous, now).insertedAt == PreviousRecord(previous)
    ensures Revised(bookId, p, previous, now).insertedAt != previous.insertedAt
  {
    assert previous.insertedAt < previous;
  }
}
