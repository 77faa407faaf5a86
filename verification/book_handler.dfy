/** CRUD over the `books` table. Ids arrive as URL path text and are read
    with strconv.Atoi; bodies arrive already decoded. */
module BookHandler {
  import opened Tables
  import opened Strconv
  import opened Models
  import opened Responses

  /** Title, author and publisher are non-empty (not trimmed), and year and
      category id are non-zero; the category id is not looked up. */
  predicate HasRequiredFields(b: Book)
  {
    b.judul != "" && b.penulis != "" && b.penerbit != "" && b.tahunTerbit != 0 && b.categoryId != 0
  }

  /** Every table other than `books` is left as it was. */
  predicate OnlyBooksMayChange(s: Store, s': Store)
  {
    s'.users == s.users && s'.resetCodes == s.resetCodes && s'.categories == s.categories
  }

  /** GET /books. An empty table is a success with an empty list; otherwise
      every stored row is listed once. */
  function GetAllBooks(s: Store): (t: Step)
    ensures t.next == s
    ensures s.books.rows == map[] ==> t.resp == Ok(StatusOK, NoBooksFound, BookList([]))
    ensures s.books.rows != map[] ==>
      && t.resp.Ok? && t.resp.status == StatusOK && t.resp.message == BooksRetrieved && t.resp.data.BookList?
      && |t.resp.data.books| == |s.books.rows|
      && (forall b :: b in t.resp.data.books <==> b in s.books.rows.Values)
    ensures s.books.rows != map[] && (forall k :: k in s.books.rows ==> s.books.rows[k].bookId == k) ==>
      NoDuplicates(t.resp.data.books)
  {
    var books := ScanRows(s.books.rows);
    assert (forall k :: k in s.books.rows ==> s.books.rows[k].bookId == k) ==> Injective(s.books.rows);
    if |books| == 0 then Step(s, Ok(StatusOK, NoBooksFound, BookList([])))
    else Step(s, Ok(StatusOK, BooksRetrieved, BookList(books)))
  }

  /** GET /books/:id. A non-integer id is refused before the table is read;
      an absent id is 404; otherwise the stored row itself. */
  function GetBookByID(s: Store, idParam: string): (t: Step)
    ensures t.next == s
    ensures ParseInt(idParam).Invalid? ==> t.resp == Err(StatusBadRequest, InvalidBookId)
    ensures ParseInt(idParam).Parsed? && ParseInt(idParam).value !in s.books.rows ==>
      t.resp == Err(StatusNotFound, BookNotFound)
    ensures t.resp.Ok? <==> ParseInt(idParam).Parsed? && ParseInt(idParam).value in s.books.rows
    ensures t.resp.Ok? ==>
      t.resp == Ok(StatusOK, BookRetrieved, BookRecord(s.books.rows[ParseInt(idParam).value]))
  {
    match ParseInt(idParam)
    case Invalid => Step(s, Err(StatusBadRequest, InvalidBookId))
    case Parsed(id) =>
      if id !in s.books.rows then Step(s, Err(StatusNotFound, BookNotFound))
      else Step(s, Ok(StatusOK, BookRetrieved, BookRecord(s.books.rows[id])))
  }

  /** POST /books. A valid body is inserted under the next key, which the
      echoed row carries; anything else changes nothing. */
  function CreateBook(s: Store, body: Body<Book>): (t: Step)
    ensures body.Malformed? ==> t == Step(s, Err(StatusBadRequest, InvalidBody))
    ensures OnlyBooksMayChange(s, t.next)
    ensures t.resp.Err? ==> t.next == s
    ensures t.resp.Ok? <==> body.Decoded? && HasRequiredFields(body.value)
    ensures body.Decoded? && !HasRequiredFields(body.value) ==> t.resp == Err(StatusBadRequest, BookFieldsRequired)
    ensures t.resp.Ok? ==>
      var row := body.value.(bookId := s.books.autoIncrement);
      && t.next.books == Insert(s.books, row)
      && t.resp == Ok(StatusCreated, BookCreated, BookRecord(row))
  {
    match body
    case Malformed => Step(s, Err(StatusBadRequest, InvalidBody))
    case Decoded(b) =>
      if !HasRequiredFields(b) then Step(s, Err(StatusBadRequest, BookFieldsRequired))
      else
        var row := b.(bookId := s.books.autoIncrement);
        Step(s.(books := Insert(s.books, row)), Ok(StatusCreated, BookCreated, BookRecord(row)))
  }

  /** PUT /books/:id. The id is checked before the body. The row changes only
      if it exists and differs from the body (MySQL counts changed rows);
      otherwise the reply is 404 and nothing changes. */
  function UpdateBook(s: Store, idParam: string, body: Body<Book>): (t: Step)
    ensures ParseInt(idParam).Parsed? && body.Malformed? ==> t == Step(s, Err(StatusBadRequest, InvalidBody))
    ensures OnlyBooksMayChange(s, t.next)
    ensures ParseInt(idParam).Invalid? ==> t == Step(s, Err(StatusBadRequest, InvalidBookId))
    ensures t.resp.Err? ==> t.next == s
    ensures t.resp.Ok? <==>
      && ParseInt(idParam).Parsed? && body.Decoded? && HasRequiredFields(body.value)
      && ParseInt(idParam).value in s.books.rows
      && s.books.rows[ParseInt(idParam).value] != body.value.(bookId := ParseInt(idParam).value)
    ensures ParseInt(idParam).Parsed? && body.Decoded? && !HasRequiredFields(body.value) ==>
      t == Step(s, Err(StatusBadRequest, BookFieldsRequired))
    ensures ParseInt(idParam).Parsed? && body.Decoded? && HasRequiredFields(body.value) && t.resp.Err? ==>
      t.resp == Err(StatusNotFound, BookNotFoundOrUnchanged)
    ensures t.resp.Ok? ==>
      var id := ParseInt(idParam).value;
      var row := body.value.(bookId := id);
      && t.next.books == Replace(s.books, id, row)
      && t.resp == Ok(StatusOK, BookUpdated, BookRecord(row))
  {
    match ParseInt(idParam)
    case Invalid => Step(s, Err(StatusBadRequest, InvalidBookId))
    case Parsed(id) =>
      match body
      case Malformed => Step(s, Err(StatusBadRequest, InvalidBody))
      case Decoded(b) =>
        if !HasRequiredFields(b) then Step(s, Err(StatusBadRequest, BookFieldsRequired))
        else
          var row := b.(bookId := id);
          if id !in s.books.rows || s.books.rows[id] == row then Step(s, Err(StatusNotFound, BookNotFoundOrUnchanged))
          else Step(s.(books := Replace(s.books, id, row)), Ok(StatusOK, BookUpdated, BookRecord(row)))
  }

  /** DELETE /books/:id. Removes exactly the row with that id, or replies
      404 when there is none. */
  function DeleteBook(s: Store, idParam: string): (t: Step)
    ensures OnlyBooksMayChange(s, t.next)
    ensures ParseInt(idParam).Invalid? ==> t == Step(s, Err(StatusBadRequest, InvalidBookId))
    ensures t.resp.Err? ==> t.next == s
    ensures ParseInt(idParam).Parsed? && ParseInt(idParam).value !in s.books.rows ==>
      t.resp == Err(StatusNotFound, BookNotFound)
    ensures t.resp.Ok? <==> ParseInt(idParam).Parsed? && ParseInt(idParam).value in s.books.rows
    ensures t.resp.Ok? ==>
      t.next.books == Remove(s.books, ParseInt(idParam).value) && t.resp == Ok(StatusOK, BookDeleted, NoData)
  {
    match ParseInt(idParam)
    case Invalid => Step(s, Err(StatusBadRequest, InvalidBookId))
    case Parsed(id) =>
      if id !in s.books.rows then Step(s, Err(StatusNotFound, BookNotFound))
      else Step(s.(books := Remove(s.books, id)), Ok(StatusOK, BookDeleted, NoData))
  }

  /** A created book can be read back at the id the reply reports, with the
      same fields, and no existing row was overwritten or changed. */
  lemma CreateThenGet(s: Store, b: Book)
    requires WellFormed(s) && s.books.autoIncrement <= MaxInt64
    requires HasRequiredFields(b)
    ensures
      var t := CreateBook(s, Decoded(b));
      var id := s.books.autoIncrement;
      && id !in s.books.rows
      && t.resp == Ok(StatusCreated, BookCreated, BookRecord(b.(bookId := id)))
      && GetBookByID(t.next, Itoa(id)).resp == Ok(StatusOK, BookRetrieved, BookRecord(b.(bookId := id)))
      && forall k :: k in s.books.rows ==> k in t.next.books.rows && t.next.books.rows[k] == s.books.rows[k]
  {
    ParseIntItoa(s.books.autoIncrement);
  }

  /** After a successful update, reading the row gives the new fields under
      the same id. */
  lemma UpdateThenGet(s: Store, idParam: string, b: Book)
    requires UpdateBook(s, idParam, Decoded(b)).resp.Ok?
    ensures
      var id := ParseInt(idParam).value;
      GetBookByID(UpdateBook(s, idParam, Decoded(b)).next, idParam).resp
        == Ok(StatusOK, BookRetrieved, BookRecord(b.(bookId := id)))
  {
  }

  /** Deleting the same id twice: the second attempt finds nothing. */
  lemma DeleteTwice(s: Store, idParam: string)
    requires DeleteBook(s, idParam).resp.Ok?
    ensures DeleteBook(DeleteBook(s, idParam).next, idParam).resp == Err(StatusNotFound, BookNotFound)
    ensures GetBookByID(DeleteBook(s, idParam).next, idParam).resp == Err(StatusNotFound, BookNotFound)
  {
  }
}
