/** The records of the book collection and the pure logic the route handlers
    apply to them: payload validation, building and revising a record,
    lookup by id, removal by id and the list query. */
module Books {
  import opened Seqs
  import opened Text

  datatype Option<T> = None | Some(value: T)

  /** The fields a client sends in the body of a create or update request.
      An empty `name` stands for a name that is missing or empty. */
  datatype Payload = Payload(
    name: string,
    year: int,
    author: string,
    summary: string,
    publisher: string,
    pageCount: int,
    readPage: int,
    reading: bool)

  /** A stored book record. */
  datatype Book = Book(
    id: string,
    name: string,
    year: int,
    author: string,
    summary: string,
    publisher: string,
    pageCount: int,
    readPage: int,
    finished: bool,
    reading: bool,
    insertedAt: string,
    updatedAt: string)

  /** The client-supplied fields of a record. */
  function PayloadOf(b: Book): Payload {
    Payload(b.name, b.year, b.author, b.summary, b.publisher, b.pageCount, b.readPage, b.reading)
  }

  // ---------------------------------------------------------------------
  // Validation

  /** A payload that both handlers that write records accept. */
  predicate Acceptable(p: Payload) {
    p.name != "" && p.readPage <= p.pageCount
  }

  datatype Validation = Valid | Invalid(message: string)

  const AddMissingName := "Gagal menambahkan buku. Mohon isi nama buku"
  const AddReadPageTooLarge := "Gagal menambahkan buku. readPage tidak boleh lebih besar dari pageCount"

  /** The validation the create handler runs. A missing name is reported
      before the page counts are looked at. */
  function ValidateBookData(p: Payload): (r: Validation)
    ensures r.Valid? <==> Acceptable(p)
    ensures p.name == "" ==> r == Invalid(AddMissingName)
    ensures p.name != "" && p.readPage > p.pageCount ==> r == Invalid(AddReadPageTooLarge)
  {
    if p.name == "" then Invalid(AddMissingName)
    else if p.readPage > p.pageCount then Invalid(AddReadPageTooLarge)
    else Valid
  }

  // ---------------------------------------------------------------------
  // Building and revising records

  /** The record the create handler stores, given the generated id and the
      current time. */
  function NewBook(p: Payload, id: string, now: string): (b: Book)
    ensures PayloadOf(b) == p
    ensures b.id == id
    ensures b.finished <==> p.pageCount == p.readPage
    ensures b.insertedAt == now && b.updatedAt == now
  {
    Book(id, p.name, p.year, p.author, p.summary, p.publisher, p.pageCount, p.readPage,
         p.pageCount == p.readPage, p.reading, now, now)
  }

  /** The record the update handler writes over `b`: every client-supplied
      field comes from `p`; `id`, `insertedAt` and `finished` are kept (the
      latter is not recomputed). */
  function Revised(b: Book, p: Payload, now: string): (r: Book)
    ensures PayloadOf(r) == p
    ensures r.updatedAt == now
    ensures r.id == b.id && r.insertedAt == b.insertedAt && r.finished == b.finished
  {
    b.(name := p.name, year := p.year, author := p.author, summary := p.summary,
       publisher := p.publisher, pageCount := p.pageCount, readPage := p.readPage,
       reading := p.reading, updatedAt := now)
  }

  /** Because `finished` is computed only at creation, an update can leave a
      record marked finished although fewer pages than its page count are read. */
  lemma FinishedGoesStale()
    ensures var created := NewBook(Payload("A", 2020, "", "", "", 100, 100, false), "b1", "t0");
            var revised := Revised(created, Payload("A", 2020, "", "", "", 100, 50, true), "t1");
            revised.finished && revised.readPage < revised.pageCount
  {
  }

  // ---------------------------------------------------------------------
  // The collection and its invariant

  function Ids(s: seq<Book>): set<string> {
    set b | b in s :: b.id
  }

  predicate UniqueIds(s: seq<Book>) {
    forall i, j :: 0 <= i < j < |s| ==> s[i].id != s[j].id
  }

  /** What every write keeps true of the collection: ids are unique and each
      record passed validation. */
  predicate WellFormed(s: seq<Book>) {
    UniqueIds(s) && forall b :: b in s ==> Acceptable(PayloadOf(b))
  }

  lemma WellFormedAppend(s: seq<Book>, b: Book)
    requires WellFormed(s) && b.id !in Ids(s) && Acceptable(PayloadOf(b))
    ensures WellFormed(s + [b])
  {
  }

  lemma WellFormedRevise(s: seq<Book>, k: int, p: Payload, now: string)
    requires WellFormed(s) && 0 <= k < |s| && Acceptable(p)
    ensures WellFormed(s[k := Revised(s[k], p, now)])
  {
  }

  /** Any filter of a collection with unique ids has unique ids. */
  lemma {:induction false} FilterKeepsUniqueIds(s: seq<Book>, p: Book -> bool)
    requires UniqueIds(s)
    ensures UniqueIds(Filter(s, p))
  {
    if s != [] {
      var rest := Filter(s[1..], p);
      FilterKeepsUniqueIds(s[1..], p);
      if p(s[0]) {
        var r := [s[0]] + rest;
        forall i, j | 0 <= i < j < |r| ensures r[i].id != r[j].id {
          if i == 0 {
            assert r[j] in rest;
            var m :| 0 <= m < |s[1..]| && s[1..][m] == r[j];
            assert s[m + 1] == r[j];
          } else {
            assert r[i] == rest[i - 1] && r[j] == rest[j - 1];
          }
        }
      }
    }
  }

  // ---------------------------------------------------------------------
  // Lookup by id

  /** `books.findIndex(b => b.id === id)`: the first index holding `id`, or -1. */
  function FindIndex(s: seq<Book>, id: string): (k: int)
    ensures -1 <= k < |s|
    ensures k == -1 <==> id !in Ids(s)
    ensures k >= 0 ==> s[k].id == id && forall j :: 0 <= j < k ==> s[j].id != id
  {
    if s == [] then -1
    else if s[0].id == id then 0
    else
      var k := FindIndex(s[1..], id);
      assert id in Ids(s[1..]) ==> id in Ids(s) by {
        if id in Ids(s[1..]) {
          var b :| b in s[1..] && b.id == id;
          assert b in s;
        }
      }
      if k == -1 then -1 else k + 1
  }

  /** `books.find(b => b.id === id)`: the first record holding `id`. */
  function Find(s: seq<Book>, id: string): (r: Option<Book>)
    ensures r.Some? <==> id in Ids(s)
    ensures r.Some? ==> r.value.id == id && r.value in s
  {
    if s == [] then None
    else if s[0].id == id then Some(s[0])
    else
      assert id in Ids(s[1..]) <==> id in Ids(s) by {
        if id in Ids(s[1..]) {
          var b :| b in s[1..] && b.id == id;
          assert b in s;
        }
        if id in Ids(s) {
          var b :| b in s && b.id == id;
          assert b in s[1..];
        }
      }
      Find(s[1..], id)
  }

  /** `find` returns the record at the index `findIndex` reports. */
  lemma {:induction false} FindAtFindIndex(s: seq<Book>, id: string)
    ensures Find(s, id) == if FindIndex(s, id) == -1 then None else Some(s[FindIndex(s, id)])
  {
    if s != [] && s[0].id != id {
      FindAtFindIndex(s[1..], id);
    }
  }

  /** A record appended with a fresh id is what a lookup of that id finds. */
  lemma FindAfterAppend(s: seq<Book>, b: Book)
    requires b.id !in Ids(s)
    ensures FindIndex(s + [b], b.id) == |s|
    ensures Find(s + [b], b.id) == Some(b)
  {
  }

  /** After the update handler rewrites the record `findIndex` reported, a
      lookup of the same id finds the rewritten record. */
  lemma FindAfterRevise(s: seq<Book>, id: string, p: Payload, now: string)
    requires FindIndex(s, id) >= 0
    ensures var k := FindIndex(s, id);
            Find(s[k := Revised(s[k], p, now)], id) == Some(Revised(s[k], p, now))
  {
  }

  // ---------------------------------------------------------------------
  // Removal by id

  /** The predicate of the delete handler's filter. */
  function OtherId(id: string): Book -> bool {
    (b: Book) => b.id != id
  }

  /** `books.filter(b => b.id !== id)`. */
  function RemoveId(s: seq<Book>, id: string): (r: seq<Book>)
    ensures forall b :: b in r <==> b in s && b.id != id
    ensures id !in Ids(r)
    ensures |r| == |s| <==> id !in Ids(s)
  {
    FilterKeepsLength(s, OtherId(id));
    Filter(s, OtherId(id))
  }

  /** Nothing is removed when no record holds the id. */
  lemma RemoveAbsentId(s: seq<Book>, id: string)
    requires id !in Ids(s)
    ensures RemoveId(s, id) == s
  {
    FilterAll(s, OtherId(id));
  }

  /** Removal keeps the order of the remaining records: what survives of a
      front part stays in front of what survives of the back. */
  lemma RemoveIdKeepsOrder(s: seq<Book>, t: seq<Book>, id: string)
    ensures RemoveId(s + t, id) == RemoveId(s, id) + RemoveId(t, id)
  {
    FilterConcat(s, t, OtherId(id));
  }

  /** Removing the id of the one record that holds it, between two parts
      that do not, returns the two parts joined. */
  lemma RemoveBetween(front: seq<Book>, x: Book, back: seq<Book>, id: string)
    requires id !in Ids(front) && x.id == id && id !in Ids(back)
    ensures RemoveId(front + [x] + back, id) == front + back
  {
    calc {
      RemoveId(front + [x] + back, id);
      { RemoveIdKeepsOrder(front + [x], back, id); }
      RemoveId(front + [x], id) + RemoveId(back, id);
      { RemoveIdKeepsOrder(front, [x], id); }
      RemoveId(front, id) + RemoveId([x], id) + RemoveId(back, id);
      { RemoveAbsentId(front, id); RemoveAbsentId(back, id); RemoveOnly(x, id); }
      front + [] + back;
    }
  }

  lemma RemoveOnly(x: Book, id: string)
    requires x.id == id
    ensures RemoveId([x], id) == []
  {
  }

  /** With unique ids, removal takes out exactly the record that `findIndex`
      reports and closes the gap. */
  lemma RemoveUniqueId(s: seq<Book>, id: string)
    requires UniqueIds(s) && id in Ids(s)
    ensures var k := FindIndex(s, id);
            RemoveId(s, id) == s[..k] + s[k + 1..]
  {
    var k := FindIndex(s, id);
    var front, back := s[..k], s[k + 1..];
    assert s == front + [s[k]] + back;
    IdBeforeFirst(s, id, k);
    IdNotAfterUnique(s, k);
    RemoveBetween(front, s[k], back, id);
  }

  /** No record before the first match holds the id. */
  lemma IdBeforeFirst(s: seq<Book>, id: string, k: int)
    requires 0 <= k <= |s| && forall j :: 0 <= j < k ==> s[j].id != id
    ensures id !in Ids(s[..k])
  {
  }

  /** With unique ids, no record after index `k` holds the id of `s[k]`. */
  lemma IdNotAfterUnique(s: seq<Book>, k: int)
    requires UniqueIds(s) && 0 <= k < |s|
    ensures s[k].id !in Ids(s[k + 1..])
  {
  }

  lemma WellFormedRemove(s: seq<Book>, id: string)
    requires WellFormed(s)
    ensures WellFormed(RemoveId(s, id))
  {
    FilterKeepsUniqueIds(s, OtherId(id));
  }

  /** Removing the same id a second time removes nothing. */
  lemma RemoveIdTwice(s: seq<Book>, id: string)
    ensures RemoveId(RemoveId(s, id), id) == RemoveId(s, id)
  {
    FilterIdempotent(s, OtherId(id));
  }

  lemma FindAfterRemove(s: seq<Book>, id: string)
    ensures Find(RemoveId(s, id), id) == None
  {
  }

  // ---------------------------------------------------------------------
  // The list query

  /** The query string of a list request. An empty `name` applies no name
      filter; `reading` and `finished` are absent (`None`) or the flag text,
      where only "1" means true. */
  datatype Query = Query(name: string, reading: Option<string>, finished: Option<string>)

  const NoFilters := Query("", None, None)

  /** The `{ id, name, publisher }` projection a list response carries. */
  datatype BookSummary = BookSummary(id: string, name: string, publisher: string)

  function Summarize(b: Book): BookSummary {
    BookSummary(b.id, b.name, b.publisher)
  }

  /** `books.map(({ id, name, publisher }) => ({ id, name, publisher }))`:
      one projection per record, at the record's own position. */
  function Summaries(s: seq<Book>): (r: seq<BookSummary>)
    ensures |r| == |s|
    ensures forall i :: 0 <= i < |s| ==>
              r[i].id == s[i].id && r[i].name == s[i].name && r[i].publisher == s[i].publisher
  {
    seq(|s|, i requires 0 <= i < |s| => Summarize(s[i]))
  }

  /** The name filter: the lower-cased name contains the lower-cased query. */
  predicate NameMatches(b: Book, query: string) {
    Contains(Lower(b.name), Lower(query))
  }

  /** `b` meets every filter the query gives: the name filter, stated as a
      match that ignores the case of ASCII letters, and the two flags, where
      only "1" asks for true. */
  predicate Matches(b: Book, q: Query): (r: bool)
    ensures r <==>
              && (q.name != "" ==> exists i :: OccursIgnoringCaseAt(b.name, q.name, i))
              && (q.reading.Some? ==> (b.reading <==> q.reading.value == "1"))
              && (q.finished.Some? ==> (b.finished <==> q.finished.value == "1"))
  {
    ContainsLowerIgnoresCase(b.name, q.name);
    && (q.name != "" ==> NameMatches(b, q.name))
    && (q.reading.Some? ==> b.reading == (q.reading.value == "1"))
    && (q.finished.Some? ==> b.finished == (q.finished.value == "1"))
  }

  function Matcher(q: Query): Book -> bool {
    (b: Book) => Matches(b, q)
  }

  /** The records a list query returns, before projection: exactly the
      records that meet the query, and never more than there are. */
  function Select(s: seq<Book>, q: Query): (r: seq<Book>)
    ensures |r| <= |s|
    ensures forall b :: b in r <==> b in s && Matches(b, q)
  {
    Filter(s, Matcher(q))
  }

  /** The name filter ignores the case of ASCII letters in both the name and
      the query. */
  lemma NameMatchIgnoresCase(b: Book, query: string)
    ensures NameMatches(b, query) <==> exists i :: OccursIgnoringCaseAt(b.name, query, i)
  {
    ContainsLowerIgnoresCase(b.name, query);
  }

  /** With no filters, every record is listed, in insertion order. */
  lemma SelectWithoutFilters(s: seq<Book>)
    ensures Select(s, NoFilters) == s
    ensures Summaries(Select(s, NoFilters)) == Summaries(s)
  {
    FilterAll(s, Matcher(NoFilters));
  }

  /** The query result is in insertion order: the matches among earlier
      records come before the matches among later ones. */
  lemma SelectKeepsOrder(s: seq<Book>, t: seq<Book>, q: Query)
    ensures Select(s + t, q) == Select(s, q) + Select(t, q)
  {
    FilterConcat(s, t, Matcher(q));
  }

  /** A further filter applied to a query result is the result of the query
      that also asks for it. */
  lemma SelectNarrow(s: seq<Book>, q: Query, p: Book -> bool, q': Query)
    requires forall b :: (Matches(b, q) && p(b)) == Matches(b, q')
    ensures Filter(Select(s, q), p) == Select(s, q')
  {
    FilterCompose(s, Matcher(q), p, Matcher(q'));
  }
}
