/** The four tables of the catalog database and the invariants the
    handlers keep over them. Timestamps are never read by the handlers and
    are not part of the records. */
module Models {
  import opened Tables

  /** A row of `users`. The password is stored as supplied. */
  datatype User = User(userId: int, namaLengkap: string, nim: string, email: string, password: string)

  /** A row of `password_reset_codes`. */
  datatype ResetCode = ResetCode(codeId: int, userId: int, resetCode: string)

  /** A row of `books`; `categoryId` is meant to reference `categories`. */
  datatype Book = Book(
    bookId: int,
    judul: string,
    penulis: string,
    penerbit: string,
    tahunTerbit: int,
    sinopsis: string,
    imageUrl: string,
    categoryId: int)

  /** A row of `categories`. */
  datatype Category = Category(categoryId: int, namaKategori: string, imageUrl: string)

  /** The whole database. */
  datatype Store = Store(
    users: Table<User>,
    resetCodes: Table<ResetCode>,
    books: Table<Book>,
    categories: Table<Category>)

  /** Keys come from each table's counter, and every row carries its own
      primary key in its id column. */
  predicate WellFormed(s: Store)
  {
    && KeysIssued(s.users) && KeysIssued(s.resetCodes) && KeysIssued(s.books) && KeysIssued(s.categories)
    && (forall k :: k in s.users.rows ==> s.users.rows[k].userId == k)
    && (forall k :: k in s.resetCodes.rows ==> s.resetCodes.rows[k].codeId == k)
    && (forall k :: k in s.books.rows ==> s.books.rows[k].bookId == k)
    && (forall k :: k in s.categories.rows ==> s.categories.rows[k].categoryId == k)
  }

  /** No two users share an email, and no two share a NIM. */
  predicate UniqueIdentities(users: map<int, User>)
  {
    forall a, b :: a in users && b in users && a != b ==>
      users[a].email != users[b].email && users[a].nim != users[b].nim
  }

  /** No two reset codes belong to the same user. */
  predicate OneCodePerUser(codes: map<int, ResetCode>)
  {
    forall a, b :: a in codes && b in codes && a != b ==> codes[a].userId != codes[b].userId
  }

  /** Everything the handlers preserve. */
  predicate Invariant(s: Store)
  {
    WellFormed(s) && UniqueIdentities(s.users.rows) && OneCodePerUser(s.resetCodes.rows)
  }

  /** A freshly created database: every table empty, every AUTO_INCREMENT
      counter at MySQL's starting value 1. It meets the invariant, so any
      sequence of requests from it keeps the invariant too. */
  function EmptyStore(): (s: Store)
    ensures Invariant(s)
    ensures s.users.rows == map[] && s.resetCodes.rows == map[] && s.books.rows == map[] && s.categories.rows == map[]
  {
    Store(Table(map[], 1), Table(map[], 1), Table(map[], 1), Table(map[], 1))
  }

  /** `SELECT user_id ... FROM users WHERE email = ?` read with QueryRow: the
      first matching row, taken to be the one with the least key. */
  function FindUserByEmail(users: map<int, User>, email: string): (r: Option<int>)
    ensures r.None? <==> forall k :: k in users ==> users[k].email != email
    ensures r.Some? ==> r.value in users && users[r.value].email == email
    ensures r.Some? && UniqueIdentities(users) ==>
      forall k :: k in users && users[k].email == email ==> k == r.value
  {
    var matching := set k | k in users && users[k].email == email;
    assert forall k :: k in users && users[k].email == email ==> k in matching;
    if matching == {} then None
    else
      Some(Least(matching))
  }

  /** The keys of the reset codes that belong to `userId`. */
  function CodesOf(codes: map<int, ResetCode>, userId: int): set<int>
  {
    set c | c in codes && codes[c].userId == userId
  }

  /** `DELETE FROM password_reset_codes WHERE user_id = ?`. */
  function DeleteCodesOf(t: Table<ResetCode>, userId: int): (t': Table<ResetCode>)
    ensures t'.autoIncrement == t.autoIncrement
    ensures CodesOf(t'.rows, userId) == {}
    ensures forall c :: c in t'.rows <==> c in t.rows && t.rows[c].userId != userId
    ensures forall c :: c in t'.rows ==> t'.rows[c] == t.rows[c]
  {
    Table(map c | c in t.rows && t.rows[c].userId != userId :: t.rows[c], t.autoIncrement)
  }

  /** Deleting a user's codes and inserting one new code for that user
      leaves that user exactly the new code and every other code as it
      was. */
  lemma ReissueCode(t: Table<ResetCode>, uid: int, code: string)
    requires KeysIssued(t)
    ensures
      var t' := Insert(DeleteCodesOf(t, uid), ResetCode(t.autoIncrement, uid, code));
      && CodesOf(t'.rows, uid) == {t.autoIncrement}
      && t'.rows[t.autoIncrement] == ResetCode(t.autoIncrement, uid, code)
      && (forall c :: c in t.rows && t.rows[c].userId != uid ==> c in t'.rows && t'.rows[c] == t.rows[c])
      && (forall c :: c in t'.rows && c != t.autoIncrement ==> c in t.rows && t.rows[c].userId != uid)
  {
    var kept := DeleteCodesOf(t, uid);
    var t' := Insert(kept, ResetCode(t.autoIncrement, uid, code));
    assert forall c :: c in t'.rows && c != t.autoIncrement ==> c in kept.rows && t'.rows[c] == kept.rows[c];
    assert t.autoIncrement in CodesOf(t'.rows, uid);
  }

  /** Reissuing a code keeps the code table well formed and at most one
      code per user. */
  lemma ReissueKeepsInvariant(t: Table<ResetCode>, uid: int, code: string)
    requires KeysIssued(t) && OneCodePerUser(t.rows)
    requires forall c :: c in t.rows ==> t.rows[c].codeId == c
    ensures
      var t' := Insert(DeleteCodesOf(t, uid), ResetCode(t.autoIncrement, uid, code));
      && KeysIssued(t')
      && (forall c :: c in t'.rows ==> t'.rows[c].codeId == c)
      && OneCodePerUser(t'.rows)
  {
    var kept := DeleteCodesOf(t, uid);
    var t' := Insert(kept, ResetCode(t.autoIncrement, uid, code));
    assert forall c :: c in t'.rows && c != t.autoIncrement ==> c in kept.rows && t'.rows[c] == kept.rows[c];
    assert KeysIssued(kept);
  }
}
