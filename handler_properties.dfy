/**
 Properties that relate several handler calls: what a later fetch sees after
 a create, an update or a delete, the table invariant each mutating handler
 keeps, and two concrete runs that show how the handlers really behave.
 */
module HandlerProperties {
  import opened Books
  import opened Handler

  // ---------------------------------------------------------------------------
  // Create

  /** Binding treats an empty string or a 0 as absent, whatever else the body holds. */
  lemma ZeroMeansMissing(table: Table, input: CreateBookInput, id: string, now: Timestamp)
    requires id !in table
    requires || input.name == "" || input.year == 0 || input.author == ""
             || input.summary == "" || input.publisher == "" || input.pageCount == 0
             || input.readPage == 0 || input.reading == 0
    ensures Create(table, Some(input), id, now) == Step(Reply(StatusBadRequest, MsgCreateMissing, NoData), table)
  {
  }

  /**
   A successful create followed by a fetch of the returned id gives back the
   input's fields, the derived flags and the creation time in both stamps.
   */
  lemma CreateThenGet(table: Table, input: CreateBookInput, id: string, now: Timestamp)
    requires id !in table
    requires RequiredPresent(input) && input.readPage <= input.pageCount
    ensures var s := Create(table, Some(input), id, now);
            && s.reply.payload == BookId(id)
            && GetById(s.table, id).code == StatusOK
            && var b := GetById(s.table, id).payload.book;
               && b.id == id
               && b.name == input.name && b.year == input.year && b.author == input.author
               && b.summary == input.summary && b.publisher == input.publisher
               && b.pageCount == input.pageCount && b.readPage == input.readPage
               && (b.finished <==> input.readPage == input.pageCount)
               && (b.reading <==> input.reading == 1)
               && b.insertedAt == now && b.updatedAt == now
  {
  }

  lemma CreateKeepsConsistent(table: Table, body: Option<CreateBookInput>, id: string, now: Timestamp)
    requires id !in table
    ensures Keyed(table) ==> Keyed(Create(table, body, id, now).table)
    ensures Consistent(table) ==> Consistent(Create(table, body, id, now).table)
  {
  }

  // ---------------------------------------------------------------------------
  // Update

  /**
   After a successful update the record carries the eight new fields and
   the save time, and keeps its id, its `finished` flag and its creation
   stamp; every other record reads as before.
   */
  lemma UpdateThenGet(table: Table, id: string, input: Book, savedAt: Timestamp)
    requires id in table
    requires input.name != "" && input.readPage <= input.pageCount
    ensures var s := Update(table, id, Some(input), savedAt);
            && GetById(s.table, id).code == StatusOK
            && var (was, b) := (table[id], GetById(s.table, id).payload.book);
               && b.name == input.name && b.year == input.year && b.author == input.author
               && b.summary == input.summary && b.publisher == input.publisher
               && b.pageCount == input.pageCount && b.readPage == input.readPage
               && b.reading == input.reading
               && b.id == was.id && b.finished == was.finished
               && b.insertedAt == was.insertedAt && b.updatedAt == savedAt
    ensures var s := Update(table, id, Some(input), savedAt);
            forall k | k != id :: GetById(s.table, k) == GetById(table, k)
  {
  }

  lemma UpdateKeepsConsistent(table: Table, id: string, body: Option<Book>, savedAt: Timestamp)
    ensures Keyed(table) ==> Keyed(Update(table, id, body, savedAt).table)
    ensures Consistent(table) ==> Consistent(Update(table, id, body, savedAt).table)
  {
  }

  /**
   Update does not recompute `finished`: a finished book whose read page is
   moved back stays marked finished.
   */
  lemma UpdateLeavesFinishedStale()
    ensures var was := Book("b1", "Go", 2020, "A", "S", "P", 100, 100, true, false, 7, 7);
            var input := was.(readPage := 50);
            var b := Update(map["b1" := was], "b1", Some(input), 9).table["b1"];
            b.finished && b.readPage != b.pageCount
  {
  }

  // ---------------------------------------------------------------------------
  // Delete

  /**
   Deleting a stored book makes a later fetch of its id answer 404 and
   leaves every other fetch as it was.
   */
  lemma DeleteThenGet(table: Table, id: string)
    requires id in table
    ensures GetById(Delete(table, id).table, id) == Reply(StatusNotFound, MsgNotFound, NoData)
    ensures forall k | k != id :: GetById(Delete(table, id).table, k) == GetById(table, k)
  {
  }

  /** Once deleted, the id is gone for good: update and delete both answer 404. */
  lemma DeletedIsTerminal(table: Table, id: string, body: Option<Book>, savedAt: Timestamp)
    requires id in table
    ensures var after := Delete(table, id).table;
            && Update(after, id, body, savedAt).reply.code == StatusNotFound
            && Delete(after, id).reply.code == StatusNotFound
            && Update(after, id, body, savedAt).table == after
  {
  }

  lemma DeleteKeepsConsistent(table: Table, id: string)
    ensures Keyed(table) ==> Keyed(Delete(table, id).table)
    ensures Consistent(table) ==> Consistent(Delete(table, id).table)
  {
  }

  // ---------------------------------------------------------------------------
  // Listing

  /** A table with one book that is not being read. */
  const UnreadShelf: Table :=
    map["b1" := Book("b1", "Go", 2020, "A", "S", "P", 200, 100, false, false, 7, 7)]

  /**
   The listing as written ignores its filters: asked for the books being
   read, it still lists the one book that is not, although the filter
   selects nothing.
   */
  lemma {:induction false} ReadingFilterIgnored(list: seq<BookSummary>)
    requires ListsExactly(list, UnreadShelf, UnreadShelf.Keys)
    ensures |list| == 1 && list[0].id == "b1" && !UnreadShelf[list[0].id].reading
    ensures Selected(UnreadShelf, "1", "") == {}
  {
    DistinctIdsCount(list);
    assert "b1" in IdSet(list);
  }

  /**
   The corrected listing with `reading=1` and no `finished` filter: every
   listed book is being read, and every book being read is listed.
   */
  lemma {:induction false} ReadingFilterSelects(list: seq<BookSummary>, table: Table, id: string)
    requires ListsExactly(list, table, Selected(table, "1", ""))
    requires id in table
    ensures forall i | 0 <= i < |list| :: table[list[i].id].reading
    ensures table[id].reading <==> exists i :: 0 <= i < |list| && list[i].id == id
  {
    assert forall i | 0 <= i < |list| :: list[i].id in IdSet(list);
    if table[id].reading {
      assert id in IdSet(list);
    }
  }

  // ---------------------------------------------------------------------------
  // A whole run

  /**
   Create a fully read book, fetch it, delete it, fetch it again: 201, then
   200 with `finished` set and `reading` clear, then 200, then 404. The
   `reading` flag is 2: a 0 would be refused as missing, and any value other
   than 1 stores "not reading".
   */
  lemma CreateGetDeleteRun(table: Table, id: string, now: Timestamp)
    requires id !in table
    ensures var input := CreateBookInput("Go", 2020, "A", "S", "P", 200, 200, 2);
            var created := Create(table, Some(input), id, now);
            var fetched := GetById(created.table, id);
            var deleted := Delete(created.table, id);
            && created.reply.code == StatusCreated
            && fetched.code == StatusOK
            && fetched.payload.book.finished && !fetched.payload.book.reading
            && deleted.reply.code == StatusOK
            && GetById(deleted.table, id).code == StatusNotFound
            && deleted.table == table
  {
  }
}
