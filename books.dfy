/**
 The persisted record of the bookshelf service: one row of the `books` table,
 keyed by its `id`.
 */
module Books {

  /** An instant as read from the server clock; the model never inspects it. */
  type Timestamp = int

  /** A stored book, field for field as the table holds it. */
  datatype Book = Book(
    id: string,
    name: string,
    year: int,
    author: string,
    summary: string,
    publisher: string,
    pageCount: int,
    readPage: int,
    finished: bool,
    reading: bool,
    insertedAt: Timestamp,
    updatedAt: Timestamp
  )

  /** The table: each stored book under its primary key. */
  type Table = map<string, Book>
}
