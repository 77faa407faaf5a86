/** Login, registration and the three-step password reset, as transitions
    over the `users` and `password_reset_codes` tables. */
module AuthHandler {
  import opened Tables
  import opened Strings
  import Strconv
  import opened Models
  import opened Responses

  datatype LoginBody = LoginBody(email: string, password: string)
  datatype RegisterBody = RegisterBody(namaLengkap: string, nim: string, email: string, password: string)
  datatype ResetRequestBody = ResetRequestBody(email: string)
  datatype VerifyBody = VerifyBody(email: string, resetCode: string)
  datatype NewPasswordBody = NewPasswordBody(email: string, newPassword: string)

  /** A draw of rand.Intn(1000000). */
  type ResetDraw = n: int | 0 <= n < 1000000

  /** The login reply: identity fields only, never the password. */
  function Summary(u: User): Payload
  {
    UserSummary(u.userId, u.nim, u.namaLengkap, u.email)
  }

  /** Some stored user has exactly this email and password. */
  predicate HasCredentials(users: map<int, User>, email: string, password: string)
  {
    exists k :: k in users && users[k].email == email && users[k].password == password
  }

  /** Some stored user already uses this email or this NIM. */
  predicate Taken(users: map<int, User>, email: string, nim: string)
  {
    exists k :: k in users && (users[k].email == email || users[k].nim == nim)
  }

  // ---------------------------------------------------------------- Login

  /** POST /login. Reads only; on success replies with a stored user whose
      email and password equal the trimmed input. Every rejection of
      well-formed credentials is the same 401 reply. */
  function Login(s: Store, body: Body<LoginBody>): (t: Step)
    ensures body.Malformed? ==> t == Step(s, Err(StatusBadRequest, InvalidBody))
    ensures t.next == s
    ensures t.resp.Ok? ==>
      && body.Decoded?
      && exists k :: k in s.users.rows
           && s.users.rows[k].email == TrimSpace(body.value.email)
           && s.users.rows[k].password == TrimSpace(body.value.password)
           && t.resp == Ok(StatusOK, LoginSuccessful, Summary(s.users.rows[k]))
    ensures body.Decoded? && (TrimSpace(body.value.email) == "" || TrimSpace(body.value.password) == "") ==>
      t.resp == Err(StatusBadRequest, LoginRequired)
    ensures t.resp.Err? && t.resp.status == StatusUnauthorized ==> t.resp.error == BadCredentials
    ensures body.Decoded? && !HasCredentials(s.users.rows, TrimSpace(body.value.email), TrimSpace(body.value.password)) ==>
      t.resp.Err?
  {
    match body
    case Malformed => Step(s, Err(StatusBadRequest, InvalidBody))
    case Decoded(b) =>
      var email := TrimSpace(b.email);
      var password := TrimSpace(b.password);
      if email == "" || password == "" then Step(s, Err(StatusBadRequest, LoginRequired))
      else
        match FindUserByEmail(s.users.rows, email)
        case None => Step(s, Err(StatusUnauthorized, BadCredentials))
        case Some(k) =>
          var u := s.users.rows[k];
          if password != u.password then Step(s, Err(StatusUnauthorized, BadCredentials))
          else Step(s, Ok(StatusOK, LoginSuccessful, Summary(u)))
  }

  /** Once the lookup has found row `k`, the reply depends only on that
      row's password. */
  lemma LoginFound(s: Store, b: LoginBody, k: int)
    requires TrimSpace(b.email) != "" && TrimSpace(b.password) != ""
    requires FindUserByEmail(s.users.rows, TrimSpace(b.email)) == Some(k)
    ensures k in s.users.rows
    ensures Login(s, Decoded(b)).resp ==
      if s.users.rows[k].password == TrimSpace(b.password) then Ok(StatusOK, LoginSuccessful, Summary(s.users.rows[k]))
      else Err(StatusUnauthorized, BadCredentials)
  {
  }

  /** With unique emails, login succeeds exactly for a stored pair of
      trimmed, non-empty email and password. */
  lemma LoginSucceedsIff(s: Store, b: LoginBody)
    requires UniqueIdentities(s.users.rows)
    ensures Login(s, Decoded(b)).resp.Ok? <==>
      && TrimSpace(b.email) != "" && TrimSpace(b.password) != ""
      && HasCredentials(s.users.rows, TrimSpace(b.email), TrimSpace(b.password))
  {
    var email := TrimSpace(b.email);
    var password := TrimSpace(b.password);
    if email != "" && password != "" && HasCredentials(s.users.rows, email, password) {
      var k :| k in s.users.rows && s.users.rows[k].email == email && s.users.rows[k].password == password;
      assert FindUserByEmail(s.users.rows, email) == Some(k);
      LoginFound(s, b, k);
    }
  }

  /** An unknown email and a wrong password for a known one get the very
      same reply, so the reply does not reveal which accounts exist. */
  lemma LoginRejectionsIndistinguishable(s: Store, b: LoginBody)
    requires TrimSpace(b.email) != "" && TrimSpace(b.password) != ""
    requires !HasCredentials(s.users.rows, TrimSpace(b.email), TrimSpace(b.password))
    ensures Login(s, Decoded(b)).resp == Err(StatusUnauthorized, BadCredentials)
  {
  }

  // ------------------------------------------------------------- Register

  /** The registration body with every field trimmed. */
  function TrimFields(b: RegisterBody): RegisterBody
  {
    RegisterBody(TrimSpace(b.namaLengkap), TrimSpace(b.nim), TrimSpace(b.email), TrimSpace(b.password))
  }

  predicate AllFilled(b: RegisterBody)
  {
    b.namaLengkap != "" && b.nim != "" && b.email != "" && b.password != ""
  }

  /** The row a successful registration inserts. */
  function NewUser(s: Store, b: RegisterBody): User
  {
    var t := TrimFields(b);
    User(s.users.autoIncrement, t.namaLengkap, t.nim, t.email, t.password)
  }

  /** POST /register. Conflicts on a shared email or NIM; otherwise inserts
      the trimmed fields under a new id and echoes the row with the
      password cleared. */
  function Register(s: Store, body: Body<RegisterBody>): (t: Step)
    ensures body.Malformed? ==> t == Step(s, Err(StatusBadRequest, InvalidBody))
    ensures t.next.resetCodes == s.resetCodes && t.next.books == s.books && t.next.categories == s.categories
    ensures t.resp.status != StatusCreated ==> t.next == s
    ensures body.Decoded? && !AllFilled(TrimFields(body.value)) ==> t.resp == Err(StatusBadRequest, RegisterRequired)
    ensures t.resp.status == StatusConflict ==> t.resp == Err(StatusConflict, AlreadyRegistered)
    ensures t.resp.status == StatusConflict <==>
      body.Decoded? && AllFilled(TrimFields(body.value))
      && Taken(s.users.rows, TrimSpace(body.value.email), TrimSpace(body.value.nim))
    ensures t.resp.status == StatusCreated <==>
      body.Decoded? && AllFilled(TrimFields(body.value))
      && !Taken(s.users.rows, TrimSpace(body.value.email), TrimSpace(body.value.nim))
    ensures t.resp.status == StatusCreated ==>
      var u := NewUser(s, body.value);
      && t.next.users == Insert(s.users, u)
      && t.resp == Ok(StatusCreated, Registered, UserRecord(u.(password := "")))
  {
    match body
    case Malformed => Step(s, Err(StatusBadRequest, InvalidBody))
    case Decoded(b) =>
      var f := TrimFields(b);
      if !AllFilled(f) then Step(s, Err(StatusBadRequest, RegisterRequired))
      else if Taken(s.users.rows, f.email, f.nim) then Step(s, Err(StatusConflict, AlreadyRegistered))
      else
        var u := NewUser(s, b);
        Step(s.(users := Insert(s.users, u)), Ok(StatusCreated, Registered, UserRecord(u.(password := ""))))
  }

  /** Registration never lets two users share an email or a NIM. */
  lemma RegisterKeepsIdentitiesUnique(s: Store, body: Body<RegisterBody>)
    requires WellFormed(s) && UniqueIdentities(s.users.rows)
    ensures UniqueIdentities(Register(s, body).next.users.rows)
  {
    var t := Register(s, body);
    if t.resp.status == StatusCreated {
      var u := NewUser(s, body.value);
      var id := s.users.autoIncrement;
      var rows := t.next.users.rows;
      forall a, c | a in rows && c in rows && a != c
        ensures rows[a].email != rows[c].email && rows[a].nim != rows[c].nim
      {
        if a == id {
          assert c in s.users.rows;
        } else if c == id {
          assert a in s.users.rows;
        }
      }
    }
  }

  /** A user who has just registered can log in with the same email and
      password as typed, and sees the identity that was stored. */
  lemma RegisterThenLogin(s: Store, b: RegisterBody)
    requires WellFormed(s) && UniqueIdentities(s.users.rows)
    requires Register(s, Decoded(b)).resp.status == StatusCreated
    ensures
      var u := NewUser(s, b);
      Login(Register(s, Decoded(b)).next, Decoded(LoginBody(b.email, b.password))).resp
        == Ok(StatusOK, LoginSuccessful, UserSummary(u.userId, u.nim, u.namaLengkap, u.email))
  {
    var s' := Register(s, Decoded(b)).next;
    var u := NewUser(s, b);
    RegisterKeepsIdentitiesUnique(s, Decoded(b));
    TrimSpaceIdempotent(b.email);
    TrimSpaceIdempotent(b.password);
    var found := FindUserByEmail(s'.users.rows, TrimSpace(b.email));
    assert s'.users.rows[u.userId] == u;
    assert found == Some(u.userId);
  }

  // ------------------------------------------------- RequestPasswordReset

  /** The reset-code row a request for user `uid` inserts. */
  function NewCode(t: Table<ResetCode>, uid: int, draw: ResetDraw): ResetCode
  {
    ResetCode(t.autoIncrement, uid, Strconv.Format06(draw))
  }

  /** POST /password-reset/request. For a registered email, replaces that
      user's codes with one issued code; mail delivery is not modelled and
      its failure never shows. A well-formed request always gets the same
      reply whether or not the email is registered. */
  function RequestPasswordReset(s: Store, body: Body<ResetRequestBody>, draw: ResetDraw): (t: Step)
    ensures body.Malformed? ==> t == Step(s, Err(StatusBadRequest, InvalidBody))
    ensures t.next.users == s.users && t.next.books == s.books && t.next.categories == s.categories
    ensures body.Decoded? && TrimSpace(body.value.email) != "" ==> t.resp == Ok(StatusOK, ResetSent, NoData)
    ensures body.Decoded? && TrimSpace(body.value.email) == "" ==> t == Step(s, Err(StatusBadRequest, EmailRequired))
    ensures body.Decoded? && FindUserByEmail(s.users.rows, TrimSpace(body.value.email)).None? ==> t.next == s
  {
    match body
    case Malformed => Step(s, Err(StatusBadRequest, InvalidBody))
    case Decoded(b) =>
      var email := TrimSpace(b.email);
      if email == "" then Step(s, Err(StatusBadRequest, EmailRequired))
      else
        match FindUserByEmail(s.users.rows, email)
        case None => Step(s, Ok(StatusOK, ResetSent, NoData))
        case Some(uid) =>
          var kept := DeleteCodesOf(s.resetCodes, uid);
          Step(s.(resetCodes := Insert(kept, NewCode(kept, uid, draw))), Ok(StatusOK, ResetSent, NoData))
  }

  /** For a registered user, a reset request replaces that user's codes by
      the one issued code and changes nothing else. */
  lemma ResetShape(s: Store, b: ResetRequestBody, draw: ResetDraw)
    requires TrimSpace(b.email) != "" && FindUserByEmail(s.users.rows, TrimSpace(b.email)).Some?
    ensures
      var uid := FindUserByEmail(s.users.rows, TrimSpace(b.email)).value;
      var kept := DeleteCodesOf(s.resetCodes, uid);
      RequestPasswordReset(s, Decoded(b), draw).next == s.(resetCodes := Insert(kept, NewCode(kept, uid, draw)))
  {
  }

  /** A reset request for a registered user leaves that user exactly one
      code, a six-digit string that reads back as the number drawn; every
      other user's codes are untouched. */
  lemma ResetIssuesOneCode(s: Store, b: ResetRequestBody, draw: ResetDraw)
    requires WellFormed(s)
    requires TrimSpace(b.email) != "" && FindUserByEmail(s.users.rows, TrimSpace(b.email)).Some?
    ensures
      var uid := FindUserByEmail(s.users.rows, TrimSpace(b.email)).value;
      var codes := RequestPasswordReset(s, Decoded(b), draw).next.resetCodes.rows;
      var issued := s.resetCodes.autoIncrement;
      && CodesOf(codes, uid) == {issued}
      && codes[issued].resetCode == Strconv.Format06(draw)
      && |codes[issued].resetCode| == 6 && Strconv.AllDigits(codes[issued].resetCode)
      && Strconv.ParseInt(codes[issued].resetCode) == Strconv.Parsed(draw)
      && (forall c :: c in s.resetCodes.rows && s.resetCodes.rows[c].userId != uid ==>
            c in codes && codes[c] == s.resetCodes.rows[c])
      && (forall c :: c in codes && c != issued ==> c in s.resetCodes.rows && s.resetCodes.rows[c].userId != uid)
  {
    var uid := FindUserByEmail(s.users.rows, TrimSpace(b.email)).value;
    ResetShape(s, b, draw);
    ReissueCode(s.resetCodes, uid, Strconv.Format06(draw));
    Strconv.Format06Digits(draw);
  }

  /** Requesting a reset twice leaves exactly one code for the user: the
      one from the second request. */
  lemma ResetTwiceKeepsNewest(s: Store, b1: ResetRequestBody, d1: ResetDraw, b2: ResetRequestBody, d2: ResetDraw)
    requires WellFormed(s)
    requires TrimSpace(b1.email) == TrimSpace(b2.email)
    requires TrimSpace(b1.email) != "" && FindUserByEmail(s.users.rows, TrimSpace(b1.email)).Some?
    ensures
      var uid := FindUserByEmail(s.users.rows, TrimSpace(b1.email)).value;
      var s1 := RequestPasswordReset(s, Decoded(b1), d1).next;
      var s2 := RequestPasswordReset(s1, Decoded(b2), d2).next;
      && CodesOf(s2.resetCodes.rows, uid) == {s1.resetCodes.autoIncrement}
      && s2.resetCodes.rows[s1.resetCodes.autoIncrement].resetCode == Strconv.Format06(d2)
  {
    var s1 := RequestPasswordReset(s, Decoded(b1), d1).next;
    assert WellFormed(s1) by {
      var kept := DeleteCodesOf(s.resetCodes, FindUserByEmail(s.users.rows, TrimSpace(b1.email)).value);
      assert KeysIssued(kept);
    }
    ResetIssuesOneCode(s1, b2, d2);
  }

  // ------------------------------------------------------ VerifyResetCode

  /** Code `c` is stored for a user whose email is `email`, with exactly
      the text `code` (the JOIN of the verify query). */
  predicate CodeMatches(s: Store, c: int, email: string, code: string)
    requires c in s.resetCodes.rows
  {
    var rc := s.resetCodes.rows[c];
    rc.userId in s.users.rows && s.users.rows[rc.userId].email == email && rc.resetCode == code
  }

  function MatchingCodes(s: Store, email: string, code: string): set<int>
  {
    set c | c in s.resetCodes.rows && CodeMatches(s, c, email, code)
  }

  /** POST /password-reset/verify. Succeeds exactly when a stored code of a
      user with that email equals the trimmed code; on success that user's
      codes are all deleted, so a code works once. */
  function VerifyResetCode(s: Store, body: Body<VerifyBody>): (t: Step)
    ensures body.Malformed? ==> t == Step(s, Err(StatusBadRequest, InvalidBody))
    ensures t.next.users == s.users && t.next.books == s.books && t.next.categories == s.categories
    ensures t.resp.Err? ==> t.next == s
    ensures t.resp.Ok? <==>
      && body.Decoded?
      && TrimSpace(body.value.email) != "" && TrimSpace(body.value.resetCode) != ""
      && exists c :: c in s.resetCodes.rows && CodeMatches(s, c, TrimSpace(body.value.email), TrimSpace(body.value.resetCode))
    ensures body.Decoded? && (TrimSpace(body.value.email) == "" || TrimSpace(body.value.resetCode) == "") ==>
      t == Step(s, Err(StatusBadRequest, VerifyRequired))
    ensures body.Decoded? && TrimSpace(body.value.email) != "" && TrimSpace(body.value.resetCode) != "" && t.resp.Err? ==>
      t.resp == Err(StatusBadRequest, CodeInvalid)
    ensures t.resp.Ok? ==>
      && t.resp == Ok(StatusOK, CodeValid, NoData)
      && exists uid :: uid in s.users.rows && s.users.rows[uid].email == TrimSpace(body.value.email)
           && t.next.resetCodes == DeleteCodesOf(s.resetCodes, uid)
  {
    match body
    case Malformed => Step(s, Err(StatusBadRequest, InvalidBody))
    case Decoded(b) =>
      var email := TrimSpace(b.email);
      var code := TrimSpace(b.resetCode);
      if email == "" || code == "" then Step(s, Err(StatusBadRequest, VerifyRequired))
      else
        var matching := MatchingCodes(s, email, code);
        assert forall c :: c in s.resetCodes.rows && CodeMatches(s, c, email, code) ==> c in matching;
        if matching == {} then Step(s, Err(StatusBadRequest, CodeInvalid))
        else
          var uid := s.resetCodes.rows[Least(matching)].userId;
          Step(s.(resetCodes := DeleteCodesOf(s.resetCodes, uid)), Ok(StatusOK, CodeValid, NoData))
  }

  /** A code that has just verified is refused the second time. */
  lemma VerifyIsOneTime(s: Store, b: VerifyBody)
    requires UniqueIdentities(s.users.rows)
    requires VerifyResetCode(s, Decoded(b)).resp.Ok?
    ensures VerifyResetCode(VerifyResetCode(s, Decoded(b)).next, Decoded(b)).resp
      == Err(StatusBadRequest, CodeInvalid)
  {
    var email := TrimSpace(b.email);
    var code := TrimSpace(b.resetCode);
    var s1 := VerifyResetCode(s, Decoded(b)).next;
    var uid :| uid in s.users.rows && s.users.rows[uid].email == email
      && s1.resetCodes == DeleteCodesOf(s.resetCodes, uid);
    forall c | c in s1.resetCodes.rows
      ensures !CodeMatches(s1, c, email, code)
    {
      var owner := s1.resetCodes.rows[c].userId;
      assert owner != uid;
      if owner in s.users.rows {
        assert s.users.rows[owner].email != email;
      }
    }
  }

  /** The code a reset request issues verifies once, and then no more. */
  lemma RequestThenVerify(s: Store, email: string, draw: ResetDraw)
    requires WellFormed(s) && UniqueIdentities(s.users.rows)
    requires TrimSpace(email) != "" && FindUserByEmail(s.users.rows, TrimSpace(email)).Some?
    ensures
      var s1 := RequestPasswordReset(s, Decoded(ResetRequestBody(email)), draw).next;
      var v := Decoded(VerifyBody(email, Strconv.Format06(draw)));
      && VerifyResetCode(s1, v).resp == Ok(StatusOK, CodeValid, NoData)
      && VerifyResetCode(VerifyResetCode(s1, v).next, v).resp == Err(StatusBadRequest, CodeInvalid)
  {
    var b := ResetRequestBody(email);
    var s1 := RequestPasswordReset(s, Decoded(b), draw).next;
    var code := Strconv.Format06(draw);
    var uid := FindUserByEmail(s.users.rows, TrimSpace(email)).value;
    ResetIssuesOneCode(s, b, draw);
    Strconv.Format06Digits(draw);
    FormattedCodeIsTrimmed(code);
    var issued := s.resetCodes.autoIncrement;
    assert CodeMatches(s1, issued, TrimSpace(email), TrimSpace(code));
    var v := Decoded(VerifyBody(email, code));
    VerifyIsOneTime(s1, v.value);
  }

  /** Six digits carry no white space, so trimming leaves the code alone. */
  lemma FormattedCodeIsTrimmed(code: string)
    requires |code| == 6 && Strconv.AllDigits(code)
    ensures TrimSpace(code) == code
  {
    TrimmedIsFixed(code);
  }

  // ------------------------------------------------------- SetNewPassword

  /** `UPDATE users SET password = ? WHERE email = ?`. */
  function SetPasswordByEmail(users: map<int, User>, email: string, password: string): (r: map<int, User>)
    ensures r.Keys == users.Keys
    ensures forall k :: k in users && users[k].email != email ==> r[k] == users[k]
    ensures forall k :: k in users && users[k].email == email ==> r[k] == users[k].(password := password)
  {
    map k | k in users :: if users[k].email == email then users[k].(password := password) else users[k]
  }

  /** The update changes at least one row (MySQL reports rows changed, not
      rows matched). */
  predicate PasswordWouldChange(users: map<int, User>, email: string, password: string)
  {
    exists k :: k in users && users[k].email == email && users[k].password != password
  }

  /** POST /password-reset/set-new-password. Sets the trimmed password of
      the users with that email; 404 when no row changes. It consults no
      reset code. */
  function SetNewPassword(s: Store, body: Body<NewPasswordBody>): (t: Step)
    ensures body.Malformed? ==> t == Step(s, Err(StatusBadRequest, InvalidBody))
    ensures t.next.resetCodes == s.resetCodes && t.next.books == s.books && t.next.categories == s.categories
    ensures t.resp.Err? ==> t.next == s
    ensures t.resp.Ok? <==>
      && body.Decoded?
      && TrimSpace(body.value.email) != "" && TrimSpace(body.value.newPassword) != ""
      && PasswordWouldChange(s.users.rows, TrimSpace(body.value.email), TrimSpace(body.value.newPassword))
    ensures body.Decoded? && (TrimSpace(body.value.email) == "" || TrimSpace(body.value.newPassword) == "") ==>
      t == Step(s, Err(StatusBadRequest, NewPasswordRequired))
    ensures (body.Decoded? && TrimSpace(body.value.email) != "" && TrimSpace(body.value.newPassword) != ""
      && !PasswordWouldChange(s.users.rows, TrimSpace(body.value.email), TrimSpace(body.value.newPassword))) ==>
      t.resp == Err(StatusNotFound, UserNotFound)
    ensures t.resp.Ok? ==>
      && t.resp == Ok(StatusOK, PasswordChanged, NoData)
      && t.next.users.autoIncrement == s.users.autoIncrement
      && t.next.users.rows.Keys == s.users.rows.Keys
      && forall k :: k in s.users.rows ==>
           if s.users.rows[k].email == TrimSpace(body.value.email)
           then t.next.users.rows[k] == s.users.rows[k].(password := TrimSpace(body.value.newPassword))
           else t.next.users.rows[k] == s.users.rows[k]
  {
    match body
    case Malformed => Step(s, Err(StatusBadRequest, InvalidBody))
    case Decoded(b) =>
      var email := TrimSpace(b.email);
      var password := TrimSpace(b.newPassword);
      if email == "" || password == "" then Step(s, Err(StatusBadRequest, NewPasswordRequired))
      else if !PasswordWouldChange(s.users.rows, email, password) then Step(s, Err(StatusNotFound, UserNotFound))
      else
        var users := s.users.(rows := SetPasswordByEmail(s.users.rows, email, password));
        Step(s.(users := users), Ok(StatusOK, PasswordChanged, NoData))
  }

  /** A successful password change is exactly the UPDATE of the users with
      that email. */
  lemma SetNewPasswordShape(s: Store, body: Body<NewPasswordBody>)
    ensures SetNewPassword(s, body).resp.Ok? ==>
      && body.Decoded?
      && SetNewPassword(s, body).next
         == s.(users := s.users.(rows := SetPasswordByEmail(s.users.rows, TrimSpace(body.value.email), TrimSpace(body.value.newPassword))))
  {
  }

  /** The UPDATE touches passwords only, so emails and NIMs stay unique and
      every row keeps its id. */
  lemma SetPasswordKeepsIdentities(users: map<int, User>, email: string, password: string)
    requires UniqueIdentities(users)
    ensures UniqueIdentities(SetPasswordByEmail(users, email, password))
    ensures forall k :: k in users ==> SetPasswordByEmail(users, email, password)[k].userId == users[k].userId
  {
    var r := SetPasswordByEmail(users, email, password);
    forall a, c | a in r && c in r && a != c
      ensures r[a].email != r[c].email && r[a].nim != r[c].nim
    {
      assert r[a].email == users[a].email && r[a].nim == users[a].nim;
      assert r[c].email == users[c].email && r[c].nim == users[c].nim;
    }
  }

  /** Because MySQL reports changed rows, choosing the password a user
      already has is answered as if the user did not exist. */
  lemma SamePasswordIsNotFound(s: Store, b: NewPasswordBody, k: int)
    requires UniqueIdentities(s.users.rows)
    requires TrimSpace(b.newPassword) != ""
    requires k in s.users.rows && s.users.rows[k].email == TrimSpace(b.email) != ""
    requires s.users.rows[k].password == TrimSpace(b.newPassword)
    ensures SetNewPassword(s, Decoded(b)) == Step(s, Err(StatusNotFound, UserNotFound))
  {
    assert !PasswordWouldChange(s.users.rows, TrimSpace(b.email), TrimSpace(b.newPassword));
  }

  /** The reset is not bound to a verified code: whatever the reset-code
      table holds, setting a password behaves the same. */
  lemma SetNewPasswordIgnoresCodes(s: Store, codes: Table<ResetCode>, body: Body<NewPasswordBody>)
    ensures SetNewPassword(s.(resetCodes := codes), body).resp == SetNewPassword(s, body).resp
    ensures SetNewPassword(s.(resetCodes := codes), body).next.users == SetNewPassword(s, body).next.users
  {
  }

  /** After a password change, logging in with the new password succeeds. */
  lemma SetNewPasswordThenLogin(s: Store, b: NewPasswordBody)
    requires UniqueIdentities(s.users.rows)
    requires SetNewPassword(s, Decoded(b)).resp.Ok?
    ensures Login(SetNewPassword(s, Decoded(b)).next, Decoded(LoginBody(b.email, b.newPassword))).resp.Ok?
  {
    var s1 := SetNewPassword(s, Decoded(b)).next;
    var email := TrimSpace(b.email);
    var password := TrimSpace(b.newPassword);
    var k :| k in s.users.rows && s.users.rows[k].email == email && s.users.rows[k].password != password;
    assert s1.users.rows[k].password == password;
    assert UniqueIdentities(s1.users.rows) by {
      forall a, c | a in s1.users.rows && c in s1.users.rows && a != c
        ensures s1.users.rows[a].email != s1.users.rows[c].email && s1.users.rows[a].nim != s1.users.rows[c].nim
      {
        assert s1.users.rows[a].email == s.users.rows[a].email && s1.users.rows[a].nim == s.users.rows[a].nim;
        assert s1.users.rows[c].email == s.users.rows[c].email && s1.users.rows[c].nim == s.users.rows[c].nim;
      }
    }
    LoginSucceedsIff(s1, LoginBody(b.email, b.newPassword));
  }
}
