/** The five route handlers of the book service over the process-wide,
    ordered `books` collection, which is held by a `BookStore` object. The
    generated id and the current time are parameters of the handlers that
    need them; writing the collection to the data file is not modelled. */
module Routes {
  import opened Seqs
  import opened Books
  import opened Text

  /** What a handler answers; `StatusCode` gives the HTTP status. */
  datatype Response =
    | Created(message: string, bookId: string)
    | Success(message: string)
    | Listed(books: seq<BookSummary>)
    | Found(book: Book)
    | BadRequest(message: string)
    | NotFound(message: string)

  /** 201 answers a create, 400 a refused payload, 404 an unknown id, and
      every other answer is 200. */
  function StatusCode(r: Response): (code: int)
    ensures code == 201 <==> r.Created?
    ensures code == 400 <==> r.BadRequest?
    ensures code == 404 <==> r.NotFound?
    ensures code == 200 <==> r.Success? || r.Listed? || r.Found?
  {
    match r
    case Created(_, _) => 201
    case BadRequest(_) => 400
    case NotFound(_) => 404
    case _ => 200
  }

  const AddedMessage := "Buku berhasil ditambahkan"
  const BookNotFoundMessage := "Buku tidak ditemukan"
  const UpdateMissingName := "Gagal memperbarui buku. Mohon isi nama buku"
  const UpdateReadPageTooLarge := "Gagal memperbarui buku. readPage tidak boleh lebih besar dari pageCount"
  const UpdatedMessage := "Buku berhasil diperbarui"
  const UpdateIdNotFound := "Gagal memperbarui buku. Id tidak ditemukan"
  const DeleteIdNotFound := "Buku gagal dihapus. Id tidak ditemukan"
  const DeletedMessage := "Buku berhasil dihapus"

  class BookStore {
    /** The collection, in insertion order. */
    var books: seq<Book>

    /** Ids are unique and every record passed validation. */
    predicate Valid()
      reads this
    {
      WellFormed(books)
    }

    /** The collection starts out empty. */
    constructor ()
      ensures books == [] && Valid()
    {
      books := [];
    }

    /** POST /books. An invalid payload is answered with the validation
        message and changes nothing; a valid one appends exactly one record
        built from the payload, the generated `id` and the time `now`. */
    method AddBook(p: Payload, id: string, now: string) returns (r: Response)
      modifies this
      ensures !Acceptable(p) ==> r == BadRequest(ValidateBookData(p).message) && books == old(books)
      ensures Acceptable(p) ==>
                r == Created(AddedMessage, id) &&
                books == old(books) + [NewBook(p, id, now)]
      ensures old(Valid()) && id !in Ids(old(books)) ==> Valid()
    {
      var validation := ValidateBookData(p);
      if validation.Invalid? {
        return BadRequest(validation.message);
      }
      var book := NewBook(p, id, now);
      ghost var keepsInvariant := Valid() && id !in Ids(books);
      if keepsInvariant {
        WellFormedAppend(books, book);
      }
      books := books + [book];
      r := Created(AddedMessage, id);
    }

    /** GET /books. The filters the query gives are applied one after the
        other; the answer is the projection of the records that meet all of
        them, in insertion order. */
    method GetAllBooks(q: Query) returns (r: Response)
      ensures r == Listed(Summaries(Select(books, q)))
    {
      var filtered := books;
      SelectWithoutFilters(books);
      ghost var sofar := NoFilters;

      if q.name != "" {
        var searchName := Lower(q.name);
        var byName := (b: Book) => Contains(Lower(b.name), searchName);
        SelectNarrow(books, sofar, byName, Query(q.name, None, None));
        filtered := Filter(filtered, byName);
      }
      sofar := Query(q.name, None, None);

      if q.reading.Some? {
        var isReading := q.reading.value == "1";
        var byReading := (b: Book) => b.reading == isReading;
        SelectNarrow(books, sofar, byReading, Query(q.name, q.reading, None));
        filtered := Filter(filtered, byReading);
      }
      sofar := Query(q.name, q.reading, None);

      if q.finished.Some? {
        var isFinished := q.finished.value == "1";
        var byFinished := (b: Book) => b.finished == isFinished;
        SelectNarrow(books, sofar, byFinished, q);
        filtered := Filter(filtered, byFinished);
      }
      assert Query(q.name, q.reading, q.finished) == q;

      r := Listed(Summaries(filtered));
    }

    /** GET /books/{bookId}. The first record holding `id`, or not-found. */
    method GetBookById(id: string) returns (r: Response)
      ensures r.Found? <==> id in Ids(books)
      ensures !r.Found? ==> r == NotFound(BookNotFoundMessage)
      ensures r.Found? ==>
                exists k :: 0 <= k < |books| && books[k] == r.book && r.book.id == id &&
                            forall j :: 0 <= j < k ==> books[j].id != id
    {
      var book := Find(books, id);
      FindAtFindIndex(books, id);
      if book.None? {
        return NotFound(BookNotFoundMessage);
      }
      r := Found(book.value);
    }

    /** PUT /books/{bookId}. The payload is checked before the id is looked
        up, so an invalid payload is refused even for an unknown id. A valid
        payload for a known id rewrites the first record holding it and no
        other; every failure leaves the collection as it was. */
    method UpdateBookById(id: string, p: Payload, now: string) returns (r: Response)
      modifies this
      ensures p.name == "" ==> r == BadRequest(UpdateMissingName) && books == old(books)
      ensures p.name != "" && p.readPage > p.pageCount ==>
                r == BadRequest(UpdateReadPageTooLarge) && books == old(books)
      ensures Acceptable(p) && id !in Ids(old(books)) ==>
                r == NotFound(UpdateIdNotFound) && books == old(books)
      ensures Acceptable(p) && id in Ids(old(books)) ==>
                var k := FindIndex(old(books), id);
                r == Success(UpdatedMessage) &&
                books == old(books)[k := Revised(old(books)[k], p, now)]
      ensures old(Valid()) ==> Valid()
    {
      if p.name == "" {
        return BadRequest(UpdateMissingName);
      }
      if p.readPage > p.pageCount {
        return BadRequest(UpdateReadPageTooLarge);
      }
      var index := FindIndex(books, id);
      if index != -1 {
        ghost var wasValid := Valid();
        if wasValid {
          WellFormedRevise(books, index, p, now);
        }
        books := books[index := Revised(books[index], p, now)];
        return Success(UpdatedMessage);
      }
      r := NotFound(UpdateIdNotFound);
    }

    /** DELETE /books/{bookId}. Every record holding `id` is filtered out and
        the order of the rest is kept; when nothing was removed the answer
        is not-found and the collection is as it was. */
    method DeleteBookById(id: string) returns (r: Response)
      modifies this
      ensures books == RemoveId(old(books), id)
      ensures id in Ids(old(books)) ==> r == Success(DeletedMessage)
      ensures id !in Ids(old(books)) ==> r == NotFound(DeleteIdNotFound) && books == old(books)
      ensures old(Valid()) && id in Ids(old(books)) ==>
                var k := FindIndex(old(books), id);
                books == old(books)[..k] + old(books)[k + 1..]
      ensures old(Valid()) ==> Valid()
    {
      var initialLength := |books|;
      ghost var wasValid, present := Valid(), id in Ids(books);
      if wasValid {
        WellFormedRemove(books, id);
        if present {
          RemoveUniqueId(books, id);
        }
      }
      if !present {
        RemoveAbsentId(books, id);
      }
      books := RemoveId(books, id);
      if |books| == initialLength {
        return NotFound(DeleteIdNotFound);
      }
      r := Success(DeletedMessage);
    }
  }

  /** On any well-formed store, creating a book under a fresh id and then
      fetching that id returns the stored record, whose `finished` says
      whether every page was read. */
  method CreateThenGet(store: BookStore, p: Payload, id: string, now: string)
    returns (created: Response, fetched: Response)
    requires store.Valid() && id !in Ids(store.books) && Acceptable(p)
    modifies store
    ensures created == Created(AddedMessage, id) && StatusCode(created) == 201
    ensures fetched == Found(NewBook(p, id, now))
    ensures fetched.book.finished <==> p.pageCount == p.readPage
    ensures store.Valid()
  {
    ghost var before := store.books;
    created := store.AddBook(p, id, now);
    FindAfterAppend(before, NewBook(p, id, now));
    FindAtFindIndex(store.books, id);
    fetched := store.GetBookById(id);
  }

  /** On any store holding `id`, a valid update followed by a fetch returns
      the new client fields and `updatedAt`, with the `id`, `insertedAt` and
      `finished` of the record that was there. */
  method UpdateThenGet(store: BookStore, p: Payload, id: string, now: string)
    returns (updated: Response, fetched: Response)
    requires id in Ids(store.books) && Acceptable(p)
    modifies store
    ensures updated == Success(UpdatedMessage) && StatusCode(updated) == 200
    ensures var was := old(store.books)[FindIndex(old(store.books), id)];
            && fetched.Found? && PayloadOf(fetched.book) == p && fetched.book.updatedAt == now
            && fetched.book.id == id && fetched.book.insertedAt == was.insertedAt
            && fetched.book.finished == was.finished
  {
    ghost var before := store.books;
    updated := store.UpdateBookById(id, p, now);
    FindAfterRevise(before, id, p, now);
    FindAtFindIndex(store.books, id);
    fetched := store.GetBookById(id);
  }

  /** On any store holding `id`, deleting it twice succeeds and then reports
      not-found. */
  method DeleteTwice(store: BookStore, id: string) returns (first: Response, second: Response)
    requires id in Ids(store.books)
    modifies store
    ensures first == Success(DeletedMessage) && StatusCode(first) == 200
    ensures second == NotFound(DeleteIdNotFound) && StatusCode(second) == 404
    ensures id !in Ids(store.books)
  {
    first := store.DeleteBookById(id);
    second := store.DeleteBookById(id);
  }
}
