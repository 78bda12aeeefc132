/**
 The five request handlers of the bookshelf service, over an in-memory table.

 Each handler is given twice: a pure step function (`Create`, `GetById`,
 `Update`, `Delete`) that says what reply the handler sends and what the table
 is afterwards, and a method of class `Shelf` that does the work the way the
 handler does it, proved against that function. The listing handlers are
 methods only; their results are specified by `ListsExactly`.
 */
module Handler {
  import opened Books

  datatype Option<T> = None | Some(value: T)

  /** The body a create request binds to; `reading` is an integer flag here. */
  datatype CreateBookInput = CreateBookInput(
    name: string,
    year: int,
    author: string,
    summary: string,
    publisher: string,
    pageCount: int,
    readPage: int,
    reading: int
  )

  /** The reduced view of a book that the listing returns. */
  datatype BookSummary = BookSummary(id: string, name: string, publisher: string)

  /** The `data` part of a reply. */
  datatype Payload =
    | NoData
    | BookId(bookId: string)
    | FullBook(book: Book)
    | BookList(books: seq<BookSummary>)

  /** What a handler answers: the HTTP status, the message and the data. */
  datatype Reply = Reply(code: int, message: string, payload: Payload)

  /** A handler's reply together with the table it leaves behind. */
  datatype Step = Step(reply: Reply, table: Table)

  const StatusOK := 200
  const StatusCreated := 201
  const StatusBadRequest := 400
  const StatusNotFound := 404

  const MsgCreateMissing := "Gagal menambahkan buku. Mohon isi nama buku"
  const MsgCreateReadPage := "Gagal menambahkan buku. readPage tidak boleh lebih besar dari pageCount"
  const MsgCreated := "Buku berhasil ditambahkan"
  const MsgNotFound := "Buku tidak ditemukan"
  const MsgUpdateNotFound := "Gagal memperbarui buku. Id tidak ditemukan"
  const MsgUpdateMissing := "Gagal memperbarui buku. Mohon isi nama buku"
  const MsgUpdateReadPage := "Gagal memperbarui buku. readPage tidak boleh lebih besar dari pageCount"
  const MsgUpdated := "Buku berhasil diperbarui"
  const MsgDeleteNotFound := "Buku gagal dihapus. Id tidak ditemukan"
  const MsgDeleted := "Buku berhasil dihapus"

  /** Every stored book sits under its own id: the table's primary key. */
  ghost predicate Keyed(table: Table)
  {
    forall id | id in table :: table[id].id == id
  }

  /**
   Every stored book passes the checks create and update make before
   writing: its name is not empty and it has not read past its last page.
   The database does not enforce this; the handlers preserve it.
   */
  ghost predicate Consistent(table: Table)
  {
    forall id | id in table :: table[id].name != "" && table[id].readPage <= table[id].pageCount
  }

  // ---------------------------------------------------------------------------
  // Create

  /**
   Whether binding succeeds: a `required` field is rejected when it holds its
   type's zero value, so an empty string and the integer 0 both count as missing.
   */
  predicate RequiredPresent(input: CreateBookInput)
  {
    && input.name != ""
    && input.year != 0
    && input.author != ""
    && input.summary != ""
    && input.publisher != ""
    && input.pageCount != 0
    && input.readPage != 0
    && input.reading != 0
  }

  /** The record a successful create inserts. */
  function NewBook(input: CreateBookInput, id: string, now: Timestamp): Book
  {
    Book(id, input.name, input.year, input.author, input.summary, input.publisher,
         input.pageCount, input.readPage,
         input.readPage == input.pageCount, input.reading == 1,
         now, now)
  }

  /**
   POST /books. `body` is `None` when the request does not decode into the
   input struct at all; `id` is the freshly generated key and `now` the clock.
   */
  function Create(table: Table, body: Option<CreateBookInput>, id: string, now: Timestamp): (s: Step)
    requires id !in table
    ensures s.reply.code == StatusCreated || s.reply.code == StatusBadRequest
    ensures s.reply.code == StatusCreated <==>
              body.Some? && RequiredPresent(body.value) && body.value.readPage <= body.value.pageCount
    ensures s.reply == Reply(StatusBadRequest, MsgCreateReadPage, NoData) <==>
              body.Some? && RequiredPresent(body.value) && body.value.readPage > body.value.pageCount
    ensures s.reply.code == StatusBadRequest ==> s.table == table && s.reply.payload == NoData
    ensures s.reply.code == StatusCreated ==>
              && s.reply == Reply(StatusCreated, MsgCreated, BookId(id))
              && s.table.Keys == table.Keys + {id}
              && |s.table| == |table| + 1
              && (forall k | k in table :: s.table[k] == table[k])
  {
    match body
    case None => Step(Reply(StatusBadRequest, MsgCreateMissing, NoData), table)
    case Some(input) =>
      if !RequiredPresent(input) then
        Step(Reply(StatusBadRequest, MsgCreateMissing, NoData), table)
      else if input.readPage > input.pageCount then
        Step(Reply(StatusBadRequest, MsgCreateReadPage, NoData), table)
      else
        Step(Reply(StatusCreated, MsgCreated, BookId(id)), table[id := NewBook(input, id, now)])
  }

  // ---------------------------------------------------------------------------
  // Fetch by id

  /** GET /books/:bookId: the whole stored record, or 404. */
  function GetById(table: Table, id: string): (r: Reply)
    ensures r.code == StatusOK <==> id in table
    ensures id in table ==> r.payload == FullBook(table[id])
    ensures id !in table ==> r == Reply(StatusNotFound, MsgNotFound, NoData)
  {
    if id in table then Reply(StatusOK, "", FullBook(table[id]))
    else Reply(StatusNotFound, MsgNotFound, NoData)
  }

  // ---------------------------------------------------------------------------
  // Update

  /**
   The fetched record after the eight field assignments of the update
   handler; everything else it had is kept.
   */
  function Overwrite(stored: Book, input: Book): Book
  {
    stored.(name := input.name, year := input.year, author := input.author,
            summary := input.summary, publisher := input.publisher,
            pageCount := input.pageCount, readPage := input.readPage,
            reading := input.reading)
  }

  /**
   PUT /books/:bookId. The body binds to the full record type, which has no
   required fields, so only the explicit name and page checks apply; `body`
   is `None` when the request does not decode at all. The handler never
   assigns `updatedAt`; saving the record stamps it with `savedAt`, the
   time the store reads when it writes the row.
   */
  function Update(table: Table, id: string, body: Option<Book>, savedAt: Timestamp): (s: Step)
    ensures id !in table ==> s == Step(Reply(StatusNotFound, MsgUpdateNotFound, NoData), table)
    ensures s.reply.code == StatusOK <==>
              id in table && body.Some? && body.value.name != "" && body.value.readPage <= body.value.pageCount
    ensures s.reply.code == StatusBadRequest <==>
              id in table && (body.None? || body.value.name == "" || body.value.readPage > body.value.pageCount)
    ensures s.reply.code != StatusOK ==> s.table == table
    ensures s.reply.code == StatusOK ==>
              && s.reply == Reply(StatusOK, MsgUpdated, NoData)
              && s.table.Keys == table.Keys
              && (forall k | k in table && k != id :: s.table[k] == table[k])
              && s.table[id].updatedAt == savedAt
  {
    if id !in table then
      Step(Reply(StatusNotFound, MsgUpdateNotFound, NoData), table)
    else
      match body
      case None => Step(Reply(StatusBadRequest, MsgUpdateMissing, NoData), table)
      case Some(input) =>
        if input.name == "" then
          Step(Reply(StatusBadRequest, MsgUpdateMissing, NoData), table)
        else if input.readPage > input.pageCount then
          Step(Reply(StatusBadRequest, MsgUpdateReadPage, NoData), table)
        else
          Step(Reply(StatusOK, MsgUpdated, NoData), table[id := Overwrite(table[id], input).(updatedAt := savedAt)])
  }

  // ---------------------------------------------------------------------------
  // Delete

  /** DELETE /books/:bookId. */
  function Delete(table: Table, id: string): (s: Step)
    ensures id !in table ==> s == Step(Reply(StatusNotFound, MsgDeleteNotFound, NoData), table)
    ensures id in table ==>
              && s.reply == Reply(StatusOK, MsgDeleted, NoData)
              && s.table.Keys == table.Keys - {id}
              && |s.table| == |table| - 1
              && (forall k | k in s.table :: s.table[k] == table[k])
  {
    if id !in table then Step(Reply(StatusNotFound, MsgDeleteNotFound, NoData), table)
    else Step(Reply(StatusOK, MsgDeleted, NoData), table - {id})
  }

  // ---------------------------------------------------------------------------
  // Listing

  /** The list entry of one book. */
  function Summarize(b: Book): BookSummary
  {
    BookSummary(b.id, b.name, b.publisher)
  }

  /** The ids a list mentions. */
  function IdSet(list: seq<BookSummary>): set<string>
  {
    set i | 0 <= i < |list| :: list[i].id
  }

  predicate DistinctIds(list: seq<BookSummary>)
  {
    forall i, j | 0 <= i < j < |list| :: list[i].id != list[j].id
  }

  /**
   `list` holds the entry of every book whose id is in `ids`, once each and
   as stored, in some order, and nothing else.
   */
  ghost predicate ListsExactly(list: seq<BookSummary>, table: Table, ids: set<string>)
  {
    && IdSet(list) == ids
    && DistinctIds(list)
    && forall i | 0 <= i < |list| :: list[i].id in table && list[i] == Summarize(table[list[i].id])
  }

  lemma IdSetAppend(list: seq<BookSummary>, x: BookSummary)
    ensures IdSet(list + [x]) == IdSet(list) + {x.id}
  {
    var longer := list + [x];
    assert longer[|list|] == x;
    forall i | 0 <= i < |list|
      ensures longer[i] == list[i] && list[i].id in IdSet(longer)
    {
      assert longer[i] == list[i];
    }
  }

  /** A list that mentions each id once has one entry per id. */
  lemma {:induction false} DistinctIdsCount(list: seq<BookSummary>)
    requires DistinctIds(list)
    ensures |IdSet(list)| == |list|
  {
    if list != [] {
      var init, last := list[..|list| - 1], list[|list| - 1];
      assert list == init + [last];
      IdSetAppend(init, last);
      DistinctIdsCount(init);
      assert last.id !in IdSet(init);
    }
  }

  /**
   The reference definition of the filtered listing: a non-empty query
   parameter keeps the books whose flag equals "the parameter is `1`", the
   rule the reading filter applies; an empty one keeps everything.
   */
  function Selected(table: Table, readingQuery: string, finishedQuery: string): (ids: set<string>)
    ensures ids <= table.Keys
    ensures readingQuery == "" && finishedQuery == "" ==> ids == table.Keys
  {
    set id | id in table
             && (readingQuery == "" || table[id].reading == (readingQuery == "1"))
             && (finishedQuery == "" || table[id].finished == (finishedQuery == "1"))
  }

  // ---------------------------------------------------------------------------
  // The handlers over a shared, mutable table

  class Shelf {
    var table: Table

    /** The primary-key structure of the table; the listing relies on it. */
    ghost predicate Valid()
      reads this
    {
      Keyed(table)
    }

    /** The shelf over the rows the table already holds when the service starts. */
    constructor (rows: Table)
      requires Keyed(rows)
      ensures Valid() && table == rows
    {
      table := rows;
    }

    method SavedBooks(body: Option<CreateBookInput>, id: string, now: Timestamp) returns (r: Reply)
      requires Valid() && id !in table
      modifies this
      ensures Valid()
      ensures Consistent(old(table)) ==> Consistent(table)
      ensures Step(r, table) == Create(old(table), body, id, now)
    {
      if body.None? || !RequiredPresent(body.value) {
        return Reply(StatusBadRequest, MsgCreateMissing, NoData);
      }
      var input := body.value;
      if input.readPage > input.pageCount {
        return Reply(StatusBadRequest, MsgCreateReadPage, NoData);
      }
      var book := NewBook(input, id, now);
      table := table[id := book];
      r := Reply(StatusCreated, MsgCreated, BookId(book.id));
    }

    method GetBookById(id: string) returns (r: Reply)
      ensures r == GetById(table, id)
    {
      if id !in table {
        return Reply(StatusNotFound, MsgNotFound, NoData);
      }
      var book := table[id];
      r := Reply(StatusOK, "", FullBook(book));
    }

    method UpdateBook(id: string, body: Option<Book>, savedAt: Timestamp) returns (r: Reply)
      requires Valid()
      modifies this
      ensures Valid()
      ensures Consistent(old(table)) ==> Consistent(table)
      ensures Step(r, table) == Update(old(table), id, body, savedAt)
    {
      if id !in table {
        return Reply(StatusNotFound, MsgUpdateNotFound, NoData);
      }
      var book := table[id];
      if body.None? {
        return Reply(StatusBadRequest, MsgUpdateMissing, NoData);
      }
      var input := body.value;
      if input.name == "" {
        return Reply(StatusBadRequest, MsgUpdateMissing, NoData);
      }
      if input.readPage > input.pageCount {
        return Reply(StatusBadRequest, MsgUpdateReadPage, NoData);
      }
      book := book.(name := input.name);
      book := book.(year := input.year);
      book := book.(author := input.author);
      book := book.(summary := input.summary);
      book := book.(publisher := input.publisher);
      book := book.(pageCount := input.pageCount);
      book := book.(readPage := input.readPage);
      book := book.(reading := input.reading);
      // saving the record refreshes its update stamp
      book := book.(updatedAt := savedAt);
      table := table[id := book];
      r := Reply(StatusOK, MsgUpdated, NoData);
    }

    method DeleteBookById(id: string) returns (r: Reply)
      requires Valid()
      modifies this
      ensures Valid()
      ensures Consistent(old(table)) ==> Consistent(table)
      ensures Step(r, table) == Delete(old(table), id)
    {
      if id !in table {
        return Reply(StatusNotFound, MsgDeleteNotFound, NoData);
      }
      table := table - {id};
      r := Reply(StatusOK, MsgDeleted, NoData);
    }

    /** The response loop: one entry per row the query returned. */
    method Projection(rows: set<string>) returns (list: seq<BookSummary>)
      requires Valid() && rows <= table.Keys
      ensures ListsExactly(list, table, rows)
      ensures |list| == |rows|
    {
      list := [];
      var rest := rows;
      while rest != {}
        invariant rest <= rows
        invariant ListsExactly(list, table, rows - rest)
        decreases rest
      {
        var id :| id in rest;
        var entry := Summarize(table[id]);
        IdSetAppend(list, entry);
        list := list + [entry];
        rest := rest - {id};
      }
      DistinctIdsCount(list);
    }

    /**
     GET /books as the handler runs it: each non-empty query parameter
     triggers a filtered query, but the unconditional query after them
     replaces their rows, so every stored book is listed.
     */
    method GetAllBooks(readingQuery: string, finishedQuery: string) returns (r: Reply)
      requires Valid()
      ensures r.code == StatusOK && r.payload.BookList?
      ensures ListsExactly(r.payload.books, table, table.Keys)
      ensures |r.payload.books| == |table|
    {
      var rows: set<string> := {};
      if readingQuery != "" {
        var isReading := readingQuery == "1";
        rows := set id | id in table && table[id].reading == isReading;
      }
      if finishedQuery != "" {
        rows := set id | id in table && table[id].finished == (finishedQuery == "1");
      }
      rows := table.Keys;
      var list := Projection(rows);
      r := Reply(StatusOK, "", BookList(list));
    }

    /**
     GET /books as the filters evidently intend: each non-empty query
     parameter narrows the rows, and the narrowed rows are listed.
     */
    method GetFilteredBooks(readingQuery: string, finishedQuery: string) returns (r: Reply)
      requires Valid()
      ensures r.code == StatusOK && r.payload.BookList?
      ensures ListsExactly(r.payload.books, table, Selected(table, readingQuery, finishedQuery))
    {
      var rows := table.Keys;
      if readingQuery != "" {
        var isReading := readingQuery == "1";
        rows := set id | id in rows && table[id].reading == isReading;
      }
      if finishedQuery != "" {
        rows := set id | id in rows && table[id].finished == (finishedQuery == "1");
      }
      var list := Projection(rows);
      r := Reply(StatusOK, "", BookList(list));
    }
  }
}
