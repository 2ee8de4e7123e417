/** The array operations the handlers apply to the store: `filter` with the
    criteria the handlers use, `findIndex` by id, and the list projection. */
module Selection {
  import opened Records
  import Text

  /** The callbacks passed to `filter` in src/handler.js. */
  datatype Criterion =
    | NameHas(query: string)
    | ReadingIs(reading: bool)
    | FinishedIs(finished: bool)
    | IdIs(id: string)
    | Everything

  predicate Matches(b: Book, c: Criterion) {
    match c
    case NameHas(q) => Text.Includes(Text.Lower(b.name), Text.Lower(q))
    case ReadingIs(flag) => b.reading == flag
    case FinishedIs(flag) => b.finished == flag
    case IdIs(id) => b.id == id
    case Everything => true
  }

  /** Every record meets exactly one of the two criteria. */
  ghost predicate Complementary(c1: Criterion, c2: Criterion) {
    forall b :: Matches(b, c1) != Matches(b, c2)
  }

  /** `books.filter(...)`: the records meeting `c`, in store order. */
  function Select(books: seq<Book>, c: Criterion): (r: seq<Book>)
    ensures |r| <= |books|
    ensures forall b :: b in r <==> b in books && Matches(b, c)

  {
    if books == [] then []
    else
      assert books == [books[0]] + books[1..];
      if Matches(books[0], c) then [books[0]] + Select(books[1..], c)
      else Select(books[1..], c)
  }

  /** Selection keeps store order: it distributes over concatenation. */
  lemma {:induction false} SelectAppend(xs: seq<Book>, ys: seq<Book>, c: Criterion)
    ensures Select(xs + ys, c) == Select(xs, c) + Select(ys, c)
  {
    if xs == [] {
      assert xs + ys == ys;
    } else {
      assert (xs + ys)[0] == xs[0];
      assert (xs + ys)[1..] == xs[1..] + ys;
      SelectAppend(xs[1..], ys, c);
    }
  }

  /** Two criteria that agree on every record select the same records. */
  lemma {:induction false} SelectAgreeing(books: seq<Book>, c1: Criterion, c2: Criterion)
    requires forall b :: Matches(b, c1) == Matches(b, c2)
    ensures Select(books, c1) == Select(books, c2)
  {
    if books != [] {
      SelectAgreeing(books[1..], c1, c2);
    }
  }

  /** The `Everything` criterion keeps the whole store, in order. */
  lemma {:induction false} SelectEverything(books: seq<Book>)
    ensures Select(books, Everything) == books
  {
    if books != [] {
      SelectEverything(books[1..]);
      assert books == [books[0]] + books[1..];
    }
  }

  /** Complementary criteria partition the store. */
  lemma {:induction false} SelectPartition(books: seq<Book>, c1: Criterion, c2: Criterion)
    requires Complementary(c1, c2)
    ensures multiset(Select(books, c1)) + multiset(Select(books, c2)) == multiset(books)
    ensures |Select(books, c1)| + |Select(books, c2)| == |books|
  {
    if books != [] {
      var b, rest := books[0], books[1..];
      SelectPartition(rest, c1, c2);
      assert books == [b] + rest;
      assert Matches(b, c1) != Matches(b, c2);
      if Matches(b, c1) {
        assert Select(books, c1) == [b] + Select(rest, c1);
        assert Select(books, c2) == Select(rest, c2);
      } else {
        assert Select(books, c1) == Select(rest, c1);
        assert Select(books, c2) == [b] + Select(rest, c2);
      }
    }
  }

  lemma FlagsComplementary(flag: bool)
    ensures Complementary(ReadingIs(flag), ReadingIs(!flag))
    ensures Complementary(FinishedIs(flag), FinishedIs(!flag))
  {
  }

  /** `books.map(...)` to `{id, name, publisher}`. */
  function Summaries(books: seq<Book>): (r: seq<Summary>)
    ensures |r| == |books|
    ensures forall i :: 0 <= i < |books| ==> r[i] == Summarize(books[i])
  {
    if books == [] then [] else [Summarize(books[0])] + Summaries(books[1..])
  }

  /** Position `i` holds the first record whose id is `id`. */
  predicate IsFirst(books: seq<Book>, id: string, i: int) {
    0 <= i < |books| && books[i].id == id && forall j :: 0 <= j < i ==> books[j].id != id
  }

  /** `books.findIndex((book) => book.id === id)`. */
  function FindIndex(books: seq<Book>, id: string): (i: int)
    ensures -1 <= i < |books|
    ensures i == -1 <==> forall b :: b in books ==> b.id != id
    ensures i != -1 ==> IsFirst(books, id, i)
  {
    if books == [] then -1
    else if books[0].id == id then 0
    else
      var k := FindIndex(books[1..], id);
      if k == -1 then -1 else k + 1
  }

  /** Filtering by id finds something exactly when `findIndex` does, and its
      first element is the record at the found index. */
  lemma {:induction false} SelectByIdHead(books: seq<Book>, id: string)
    ensures Select(books, IdIs(id)) == [] <==> FindIndex(books, id) == -1
    ensures FindIndex(books, id) != -1 ==> Select(books, IdIs(id))[0] == books[FindIndex(books, id)]
  {
    if books != [] && books[0].id != id {
      SelectByIdHead(books[1..], id);
    }
  }

  /** No two records share an id. */
  predicate IdsUnique(books: seq<Book>) {
    forall i, j :: 0 <= i < j < |books| ==> books[i].id != books[j].id
  }
}
