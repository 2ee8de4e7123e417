/** The book record, the request inputs and the response envelope shared by the
    bookshelf handlers of src/handler.js. */
module Records {

  datatype Option<+T> = None | Some(value: T)

  /** What a record's `insertedAt` holds. A created record holds its creation
      time; an updated record holds the whole record it replaced, because the
      update handler assigns the first filtered record rather than its
      `insertedAt` field. */
  datatype InsertedAt = Stamp(time: string) | PreviousRecord(record: Book)

  /** One stored book. `finished` is derived, never taken from a request. */
  datatype Book = Book(
    id: string,
    name: string,
    year: int,
    author: string,
    summary: string,
    publisher: string,
    pageCount: int,
    readPage: int,
    finished: bool,
    reading: bool,
    insertedAt: InsertedAt,
    updatedAt: string)

  /** The request body of create and update; `name` is absent when the client
      did not send one. */
  datatype Payload = Payload(
    name: Option<string>,
    year: int,
    author: string,
    summary: string,
    publisher: string,
    pageCount: int,
    readPage: int,
    reading: bool)

  /** The query string of the list request; each key may be absent. */
  datatype Query = Query(name: Option<string>, reading: Option<string>, finished: Option<string>)

  /** The projection used by every list response. */
  datatype Summary = Summary(id: string, name: string, publisher: string)

  datatype Status = Success | Fail

  /** The `data` member of a response. `BareEmpty` is the bare `[]` sent for an
      unfiltered list of an empty store. */
  datatype Data =
    | BookId(bookId: string)
    | Listing(books: seq<Summary>)
    | BareEmpty
    | Found(book: Book)

  /** The response envelope together with its HTTP status code. */
  datatype Response = Response(status: Status, message: Option<string>, data: Option<Data>, code: int)

  const ADD_NAME_MISSING := "Gagal menambahkan buku. Mohon isi nama buku"
  const ADD_READ_PAGE_TOO_LARGE := "Gagal menambahkan buku. readPage tidak boleh lebih besar dari pageCount"
  const ADD_SUCCEEDED := "Buku berhasil ditambahkan"
  const BOOK_NOT_FOUND := "Buku tidak ditemukan"
  const UPDATE_NAME_MISSING := "Gagal memperbarui buku. Mohon isi nama buku"
  const UPDATE_READ_PAGE_TOO_LARGE := "Gagal memperbarui buku. readPage tidak boleh lebih besar dari pageCount"
  const UPDATE_SUCCEEDED := "Buku berhasil diperbarui"
  const UPDATE_ID_NOT_FOUND := "Gagal memperbarui buku. Id tidak ditemukan"
  const DELETE_SUCCEEDED := "Buku berhasil dihapus"
  const DELETE_ID_NOT_FOUND := "Buku gagal dihapus. Id tidak ditemukan"

  /** JavaScript truthiness of an optional string: present and non-empty. */
  predicate Truthy(s: Option<string>) {
    s.Some? && s.value != ""
  }

  /** The payload passes the `!name` check. */
  predicate Named(p: Payload) {
    Truthy(p.name)
  }

  /** The payload passes both validations of create and update. */
  predicate Admissible(p: Payload) {
    Named(p) && !(p.readPage > p.pageCount)
  }

  function Failure(message: string, code: int): Response {
    Response(Fail, Some(message), None, code)
  }

  function Summarize(b: Book): Summary {
    Summary(b.id, b.name, b.publisher)
  }
}
