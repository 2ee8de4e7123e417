/** The two read-only handlers, getAllBook and getBookById, as functions of
    the store's contents. */
module Queries {
  import opened Records
  import opened Selection
  import Text

  /** The values the `reading` and `finished` filters understand. */
  predicate IsFlag(v: string) {
    v == "1" || v == "0"
  }

  /** The single filter a list query applies: `name` if given, else
      `reading`, else `finished`, else none. */
  function Active(q: Query): Criterion {
    if Truthy(q.name) then NameHas(q.name.value)
    else if Truthy(q.reading) then ReadingIs(q.reading.value == "1")
    else if Truthy(q.finished) then FinishedIs(q.finished.value == "1")
    else Everything
  }

  /** The query does not reach an unset result list: a `reading` or
      `finished` value other than "1" or "0" on the branch that uses it
      leaves the list undefined and the handler fails at `.map`. */
  predicate Answerable(q: Query) {
    || Truthy(q.name)
    || (Truthy(q.reading) && IsFlag(q.reading.value))
    || (!Truthy(q.reading) && (Truthy(q.finished) ==> IsFlag(q.finished.value)))
  }

  /** A successful list response. */
  function Listed(summaries: seq<Summary>): Response {
    Response(Success, None, Some(Listing(summaries)), 200)
  }

  /** getAllBook: the projected records that meet the active filter, in store
      order, wrapped as `{books: [...]}`; with no filter and an empty store the
      data is a bare `[]` instead. */
  function GetAllBook(books: seq<Book>, q: Query): (r: Response)
    requires Answerable(q)
    ensures r.status == Success && r.code == 200 && r.message == None && r.data.Some?
    ensures r.data.value.BareEmpty? <==> books == [] && Active(q) == Everything
    ensures r.data.value.BareEmpty? || r.data.value.Listing?
    ensures r.data.value.Listing? ==> r.data.value.books == Summaries(Select(books, Active(q)))
    ensures r.data.value.Listing? ==>
      forall s :: s in r.data.value.books <==> exists b :: b in books && Matches(b, Active(q)) && Summarize(b) == s
  {
    SelectEverything(books);
    SummariesMembership(Select(books, Active(q)));
    if Truthy(q.name) then
      Listed(Summaries(Select(books, NameHas(q.name.value))))
    else if Truthy(q.reading) then
      var flag := q.reading.value == "1";
      Listed(Summaries(Select(books, ReadingIs(flag))))
    else if Truthy(q.finished) then
      var flag := q.finished.value == "1";
      Listed(Summaries(Select(books, FinishedIs(flag))))
    else if |books| == 0 then
      Response(Success, None, Some(BareEmpty), 200)
    else
      Listed(Summaries(books))
  }

  /** A summary is listed exactly when some record projects to it. */
  lemma {:induction false} SummariesMembership(books: seq<Book>)
    ensures forall s :: s in Summaries(books) <==> exists b :: b in books && Summarize(b) == s
  {
    forall s | s in Summaries(books)
      ensures exists b :: b in books && Summarize(b) == s
    {
      var i :| 0 <= i < |Summaries(books)| && Summaries(books)[i] == s;
      assert books[i] in books;
    }
    forall b | b in books
      ensures Summarize(b) in Summaries(books)
    {
      var i :| 0 <= i < |books| && books[i] == b;
      assert Summaries(books)[i] == Summarize(b);
    }
  }

  /** A non-empty `name` query decides the result alone: `reading` and
      `finished` are ignored. */
  lemma NameTakesPriority(books: seq<Book>, q: Query, reading: Option<string>, finished: Option<string>)
    requires Truthy(q.name)
    ensures GetAllBook(books, q) == GetAllBook(books, Query(q.name, reading, finished))
  {
  }

  /** Without a name, a valid `reading` query decides the result alone. */
  lemma ReadingTakesPriority(books: seq<Book>, q: Query, finished: Option<string>)
    requires !Truthy(q.name) && Truthy(q.reading) && IsFlag(q.reading.value)
    ensures GetAllBook(books, q) == GetAllBook(books, Query(q.name, q.reading, finished))
  {
  }

  /** The name filter ignores case on both sides: two queries that lower-case
      alike list the same records. */
  lemma NameQueryIgnoresCase(books: seq<Book>, n1: string, n2: string, reading: Option<string>, finished: Option<string>)
    requires n1 != "" && n2 != "" && Text.Lower(n1) == Text.Lower(n2)
    ensures GetAllBook(books, Query(Some(n1), reading, finished))
         == GetAllBook(books, Query(Some(n2), reading, finished))
  {
    SelectAgreeing(books, NameHas(n1), NameHas(n2));
  }

  /** The name filter keeps a record exactly when the lower-cased query occurs
      somewhere in its lower-cased name. */
  lemma NameFilterOccurs(books: seq<Book>, n: string, b: Book)
    ensures b in Select(books, NameHas(n))
        <==> b in books && exists i :: Text.OccursAt(Text.Lower(b.name), Text.Lower(n), i)
  {
    var name, query := Text.Lower(b.name), Text.Lower(n);
    Text.IncludesIffOccurs(name, query);
    assert Matches(b, NameHas(n)) == Text.Includes(name, query);
    if b in Select(books, NameHas(n)) {
      var i :| Text.OccursAt(name, query, i);
      assert Text.OccursAt(Text.Lower(b.name), Text.Lower(n), i);
      assert b in books;
      assert exists k :: Text.OccursAt(Text.Lower(b.name), Text.Lower(n), k);
    }
  }

  /** `?reading=1` and `?reading=0` list the projections of complementary
      parts of the store: together the two parts hold every record exactly once. */
  lemma ReadingQueriesPartition(books: seq<Book>, f1: Option<string>, f0: Option<string>)
    ensures
      var read := GetAllBook(books, Query(None, Some("1"), f1)).data.value.books;
      var unread := GetAllBook(books, Query(None, Some("0"), f0)).data.value.books;
      && read == Summaries(Select(books, ReadingIs(true)))
      && unread == Summaries(Select(books, ReadingIs(false)))
      && multiset(Select(books, ReadingIs(true))) + multiset(Select(books, ReadingIs(false))) == multiset(books)
      && |read| + |unread| == |books|
  {
    FlagsComplementary(true);
    SelectPartition(books, ReadingIs(true), ReadingIs(false));
  }

  /** Without a name or reading filter, `?finished=1` and `?finished=0` list
      the projections of complementary parts of the store. */
  lemma FinishedQueriesPartition(books: seq<Book>, name: Option<string>, reading: Option<string>)
    requires !Truthy(name) && !Truthy(reading)
    ensures
      var done := GetAllBook(books, Query(name, reading, Some("1"))).data.value.books;
      var open := GetAllBook(books, Query(name, reading, Some("0"))).data.value.books;
      && done == Summaries(Select(books, FinishedIs(true)))
      && open == Summaries(Select(books, FinishedIs(false)))
      && multiset(Select(books, FinishedIs(true))) + multiset(Select(books, FinishedIs(false))) == multiset(books)
      && |done| + |open| == |books|
  {
    FlagsComplementary(true);
    SelectPartition(books, FinishedIs(true), FinishedIs(false));
  }

  /** getBookById: the first record with the requested id, or 404. */
  function GetBookById(books: seq<Book>, id: string): (r: Response)
    ensures r.code == 200 || r.code == 404
    ensures r.code == 404 <==> forall b :: b in books ==> b.id != id
    ensures r.code == 404 ==> r == Failure(BOOK_NOT_FOUND, 404)
    ensures r.code == 200 ==>
      r.status == Success && r.message == None &&
      exists i :: IsFirst(books, id, i) && r.data == Some(Found(books[i]))
  {
    SelectByIdHead(books, id);
    var found := Select(books, IdIs(id));
    if |found| == 0 then
      Failure(BOOK_NOT_FOUND, 404)
    else
      Response(Success, None, Some(Found(found[0])), 200)
  }
}
