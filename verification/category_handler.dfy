/** CRUD over the `categories` table, the same shape as the book handler
    with a single required field. Deleting a category does not touch
    `books`. */
module CategoryHandler {
  import opened Tables
  import opened Strconv
  import opened Models
  import opened Responses

  /** Every table other than `categories` is left as it was. */
  predicate OnlyCategoriesMayChange(s: Store, s': Store)
  {
    s'.users == s.users && s'.resetCodes == s.resetCodes && s'.books == s.books
  }

  /** GET /categories. An empty table is a success with an empty list;
      otherwise every stored row is listed once. */
  function GetAllCategories(s: Store): (t: Step)
    ensures t.next == s
    ensures s.categories.rows == map[] ==> t.resp == Ok(StatusOK, NoCategoriesFound, CategoryList([]))
    ensures s.categories.rows != map[] ==>
      && t.resp.Ok? && t.resp.status == StatusOK && t.resp.message == CategoriesRetrieved && t.resp.data.CategoryList?
      && |t.resp.data.categories| == |s.categories.rows|
      && (forall c :: c in t.resp.data.categories <==> c in s.categories.rows.Values)
    ensures s.categories.rows != map[] && (forall k :: k in s.categories.rows ==> s.categories.rows[k].categoryId == k) ==>
      NoDuplicates(t.resp.data.categories)
  {
    var categories := ScanRows(s.categories.rows);
    assert (forall k :: k in s.categories.rows ==> s.categories.rows[k].categoryId == k) ==> Injective(s.categories.rows);
    if |categories| == 0 then Step(s, Ok(StatusOK, NoCategoriesFound, CategoryList([])))
    else Step(s, Ok(StatusOK, CategoriesRetrieved, CategoryList(categories)))
  }

  /** GET /categories/:id. */
  function GetCategoryByID(s: Store, idParam: string): (t: Step)
    ensures t.next == s
    ensures ParseInt(idParam).Invalid? ==> t.resp == Err(StatusBadRequest, InvalidCategoryId)
    ensures ParseInt(idParam).Parsed? && ParseInt(idParam).value !in s.categories.rows ==>
      t.resp == Err(StatusNotFound, CategoryNotFound)
    ensures t.resp.Ok? <==> ParseInt(idParam).Parsed? && ParseInt(idParam).value in s.categories.rows
    ensures t.resp.Ok? ==>
      t.resp == Ok(StatusOK, CategoryRetrieved, CategoryRecord(s.categories.rows[ParseInt(idParam).value]))
  {
    match ParseInt(idParam)
    case Invalid => Step(s, Err(StatusBadRequest, InvalidCategoryId))
    case Parsed(id) =>
      if id !in s.categories.rows then Step(s, Err(StatusNotFound, CategoryNotFound))
      else Step(s, Ok(StatusOK, CategoryRetrieved, CategoryRecord(s.categories.rows[id])))
  }

  /** POST /categories. The name must be non-empty; the image is optional. */
  function CreateCategory(s: Store, body: Body<Category>): (t: Step)
    ensures body.Malformed? ==> t == Step(s, Err(StatusBadRequest, InvalidBody))
    ensures OnlyCategoriesMayChange(s, t.next)
    ensures t.resp.Err? ==> t.next == s
    ensures t.resp.Ok? <==> body.Decoded? && body.value.namaKategori != ""
    ensures body.Decoded? && body.value.namaKategori == "" ==> t.resp == Err(StatusBadRequest, CategoryNameRequired)
    ensures t.resp.Ok? ==>
      var row := Category(s.categories.autoIncrement, body.value.namaKategori, body.value.imageUrl);
      && t.next.categories == Insert(s.categories, row)
      && t.resp == Ok(StatusCreated, CategoryCreated, CategoryRecord(row))
  {
    match body
    case Malformed => Step(s, Err(StatusBadRequest, InvalidBody))
    case Decoded(c) =>
      if c.namaKategori == "" then Step(s, Err(StatusBadRequest, CategoryNameRequired))
      else
        var row := Category(s.categories.autoIncrement, c.namaKategori, c.imageUrl);
        Step(s.(categories := Insert(s.categories, row)), Ok(StatusCreated, CategoryCreated, CategoryRecord(row)))
  }

  /** PUT /categories/:id. Rewrites name and image of an existing row that
      differs from the body; otherwise 404 and nothing changes. */
  function UpdateCategory(s: Store, idParam: string, body: Body<Category>): (t: Step)
    ensures ParseInt(idParam).Parsed? && body.Malformed? ==> t == Step(s, Err(StatusBadRequest, InvalidBody))
    ensures OnlyCategoriesMayChange(s, t.next)
    ensures ParseInt(idParam).Invalid? ==> t == Step(s, Err(StatusBadRequest, InvalidCategoryId))
    ensures t.resp.Err? ==> t.next == s
    ensures t.resp.Ok? <==>
      && ParseInt(idParam).Parsed? && body.Decoded? && body.value.namaKategori != ""
      && ParseInt(idParam).value in s.categories.rows
      && s.categories.rows[ParseInt(idParam).value]
         != Category(ParseInt(idParam).value, body.value.namaKategori, body.value.imageUrl)
    ensures ParseInt(idParam).Parsed? && body.Decoded? && body.value.namaKategori == "" ==>
      t == Step(s, Err(StatusBadRequest, CategoryNameRequired))
    ensures ParseInt(idParam).Parsed? && body.Decoded? && body.value.namaKategori != "" && t.resp.Err? ==>
      t.resp == Err(StatusNotFound, CategoryNotFoundOrUnchanged)
    ensures t.resp.Ok? ==>
      var id := ParseInt(idParam).value;
      var row := Category(id, body.value.namaKategori, body.value.imageUrl);
      && t.next.categories == Replace(s.categories, id, row)
      && t.resp == Ok(StatusOK, CategoryUpdated, CategoryRecord(row))
  {
    match ParseInt(idParam)
    case Invalid => Step(s, Err(StatusBadRequest, InvalidCategoryId))
    case Parsed(id) =>
      match body
      case Malformed => Step(s, Err(StatusBadRequest, InvalidBody))
      case Decoded(c) =>
        if c.namaKategori == "" then Step(s, Err(StatusBadRequest, CategoryNameRequired))
        else
          var row := Category(id, c.namaKategori, c.imageUrl);
          if id !in s.categories.rows || s.categories.rows[id] == row then
            Step(s, Err(StatusNotFound, CategoryNotFoundOrUnchanged))
          else Step(s.(categories := Replace(s.categories, id, row)), Ok(StatusOK, CategoryUpdated, CategoryRecord(row)))
  }

  /** DELETE /categories/:id. Removes only that category; books are not
      consulted or changed. */
  function DeleteCategory(s: Store, idParam: string): (t: Step)
    ensures OnlyCategoriesMayChange(s, t.next)
    ensures ParseInt(idParam).Invalid? ==> t == Step(s, Err(StatusBadRequest, InvalidCategoryId))
    ensures t.resp.Err? ==> t.next == s
    ensures ParseInt(idParam).Parsed? && ParseInt(idParam).value !in s.categories.rows ==>
      t.resp == Err(StatusNotFound, CategoryNotFound)
    ensures t.resp.Ok? <==> ParseInt(idParam).Parsed? && ParseInt(idParam).value in s.categories.rows
    ensures t.resp.Ok? ==>
      t.next.categories == Remove(s.categories, ParseInt(idParam).value) && t.resp == Ok(StatusOK, CategoryDeleted, NoData)
  {
    match ParseInt(idParam)
    case Invalid => Step(s, Err(StatusBadRequest, InvalidCategoryId))
    case Parsed(id) =>
      if id !in s.categories.rows then Step(s, Err(StatusNotFound, CategoryNotFound))
      else Step(s.(categories := Remove(s.categories, id)), Ok(StatusOK, CategoryDeleted, NoData))
  }

  /** A created category can be read back at the id the reply reports. */
  lemma CreateThenGet(s: Store, c: Category)
    requires WellFormed(s) && s.categories.autoIncrement <= MaxInt64
    requires c.namaKategori != ""
    ensures
      var t := CreateCategory(s, Decoded(c));
      var id := s.categories.autoIncrement;
      var row := Category(id, c.namaKategori, c.imageUrl);
      && id !in s.categories.rows
      && GetCategoryByID(t.next, Itoa(id)).resp == Ok(StatusOK, CategoryRetrieved, CategoryRecord(row))
      && forall k :: k in s.categories.rows ==> k in t.next.categories.rows && t.next.categories.rows[k] == s.categories.rows[k]
  {
    ParseIntItoa(s.categories.autoIncrement);
  }

  /** Deleting the same id twice: the second attempt finds nothing. */
  lemma DeleteTwice(s: Store, idParam: string)
    requires DeleteCategory(s, idParam).resp.Ok?
    ensures DeleteCategory(DeleteCategory(s, idParam).next, idParam).resp == Err(StatusNotFound, CategoryNotFound)
  {
  }

  /** There is no cascade: a book that referenced the deleted category
      still does, and now points at a category that does not exist. */
  lemma DeleteLeavesOrphans(s: Store, idParam: string, bookKey: int)
    requires DeleteCategory(s, idParam).resp.Ok?
    requires bookKey in s.books.rows && s.books.rows[bookKey].categoryId == ParseInt(idParam).value
    ensures
      var s' := DeleteCategory(s, idParam).next;
      && bookKey in s'.books.rows
      && s'.books.rows[bookKey].categoryId == ParseInt(idParam).value
      && ParseInt(idParam).value !in s'.categories.rows
  {
  }
}
