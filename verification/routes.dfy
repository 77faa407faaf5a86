/** The API routes as one request type, the dispatch from route to handler,
    and the invariants that hold across any sequence of requests. */
module Routes {
  import opened Tables
  import Strings
  import Strconv
  import opened Models
  import opened Responses
  import Auth = AuthHandler
  import Books = BookHandler
  import Categories = CategoryHandler

  /** The authentication and password-reset routes. */
  datatype AuthRoute =
    | PostLogin(login: Body<Auth.LoginBody>)
    | PostRegister(registration: Body<Auth.RegisterBody>)
    | PostResetRequest(resetRequest: Body<Auth.ResetRequestBody>, draw: Auth.ResetDraw)
    | PostResetVerify(verification: Body<Auth.VerifyBody>)
    | PostSetNewPassword(newPassword: Body<Auth.NewPasswordBody>)

  /** The book routes; `:id` segments are raw text. */
  datatype BookRoute =
    | GetBooks
    | GetBook(bookIdParam: string)
    | PostBook(book: Body<Book>)
    | PutBook(bookIdParam: string, book: Body<Book>)
    | DeleteBookRoute(bookIdParam: string)

  /** The category routes; `:id` segments are raw text. */
  datatype CategoryRoute =
    | GetCategories
    | GetCategory(categoryIdParam: string)
    | PostCategory(category: Body<Category>)
    | PutCategory(categoryIdParam: string, category: Body<Category>)
    | DeleteCategoryRoute(categoryIdParam: string)

  /** A request to one of the routes under /api/v1, in the route's group. */
  datatype Request =
    | AuthRequest(auth: AuthRoute)
    | BookRequest(bookRoute: BookRoute)
    | CategoryRequest(categoryRoute: CategoryRoute)

  function HandleAuth(s: Store, r: AuthRoute): (t: Step)
    ensures t.resp.Err? ==> t.next == s
  {
    match r
    case PostLogin(b) => Auth.Login(s, b)
    case PostRegister(b) => Auth.Register(s, b)
    case PostResetRequest(b, d) => Auth.RequestPasswordReset(s, b, d)
    case PostResetVerify(b) => Auth.VerifyResetCode(s, b)
    case PostSetNewPassword(b) => Auth.SetNewPassword(s, b)
  }

  function HandleBooks(s: Store, r: BookRoute): (t: Step)
    ensures t.resp.Err? ==> t.next == s
  {
    match r
    case GetBooks => Books.GetAllBooks(s)
    case GetBook(id) => Books.GetBookByID(s, id)
    case PostBook(b) => Books.CreateBook(s, b)
    case PutBook(id, b) => Books.UpdateBook(s, id, b)
    case DeleteBookRoute(id) => Books.DeleteBook(s, id)
  }

  function HandleCategories(s: Store, r: CategoryRoute): (t: Step)
    ensures t.resp.Err? ==> t.next == s
  {
    match r
    case GetCategories => Categories.GetAllCategories(s)
    case GetCategory(id) => Categories.GetCategoryByID(s, id)
    case PostCategory(b) => Categories.CreateCategory(s, b)
    case PutCategory(id, b) => Categories.UpdateCategory(s, id, b)
    case DeleteCategoryRoute(id) => Categories.DeleteCategory(s, id)
  }

  /** The dispatch of routes/routes.go: each route to its handler. A
      request that is refused with an error changes nothing. */
  function Handle(s: Store, req: Request): (t: Step)
    ensures t.resp.Err? ==> t.next == s
  {
    match req
    case AuthRequest(r) => HandleAuth(s, r)
    case BookRequest(r) => HandleBooks(s, r)
    case CategoryRequest(r) => HandleCategories(s, r)
  }

  predicate WritesResetCodes(req: Request)
  {
    req.AuthRequest? && (req.auth.PostResetRequest? || req.auth.PostResetVerify?)
  }

  predicate WritesUsers(req: Request)
  {
    req.AuthRequest? && (req.auth.PostRegister? || req.auth.PostSetNewPassword?)
  }

  predicate WritesBooks(req: Request)
  {
    req.BookRequest? && (req.bookRoute.PostBook? || req.bookRoute.PutBook? || req.bookRoute.DeleteBookRoute?)
  }

  predicate WritesCategories(req: Request)
  {
    req.CategoryRequest?
    && (req.categoryRoute.PostCategory? || req.categoryRoute.PutCategory? || req.categoryRoute.DeleteCategoryRoute?)
  }

  /** Only the reset request and verification touch the reset-code table,
      only registration and password setting touch `users`, and only the
      write routes of a catalog table touch that table. */
  lemma HandleFrame(s: Store, req: Request)
    ensures !WritesResetCodes(req) ==> Handle(s, req).next.resetCodes == s.resetCodes
    ensures !WritesUsers(req) ==> Handle(s, req).next.users == s.users
    ensures !WritesBooks(req) ==> Handle(s, req).next.books == s.books
    ensures !WritesCategories(req) ==> Handle(s, req).next.categories == s.categories
  {
    match req
    case AuthRequest(r) => AuthFrame(s, r);
    case BookRequest(r) => BooksFrame(s, r);
    case CategoryRequest(r) => CategoriesFrame(s, r);
  }

  /** Authentication routes leave the catalog alone; login reads only. */
  lemma AuthFrame(s: Store, r: AuthRoute)
    ensures HandleAuth(s, r).next.books == s.books && HandleAuth(s, r).next.categories == s.categories
    ensures !(r.PostResetRequest? || r.PostResetVerify?) ==> HandleAuth(s, r).next.resetCodes == s.resetCodes
    ensures !(r.PostRegister? || r.PostSetNewPassword?) ==> HandleAuth(s, r).next.users == s.users
  {
  }

  /** Book routes touch only `books`, and the two reads not even that. */
  lemma BooksFrame(s: Store, r: BookRoute)
    ensures HandleBooks(s, r).next.users == s.users && HandleBooks(s, r).next.resetCodes == s.resetCodes
    ensures HandleBooks(s, r).next.categories == s.categories
    ensures r.GetBooks? || r.GetBook? ==> HandleBooks(s, r).next == s
  {
  }

  /** Category routes touch only `categories`, and the two reads not even
      that. */
  lemma CategoriesFrame(s: Store, r: CategoryRoute)
    ensures HandleCategories(s, r).next.users == s.users && HandleCategories(s, r).next.resetCodes == s.resetCodes
    ensures HandleCategories(s, r).next.books == s.books
    ensures r.GetCategories? || r.GetCategory? ==> HandleCategories(s, r).next == s
  {
  }

  /** A reset request keeps at most one code per user: it removes the
      requesting user's codes before adding the new one. */
  lemma ResetKeepsOneCodePerUser(s: Store, b: Body<Auth.ResetRequestBody>, d: Auth.ResetDraw)
    requires Invariant(s)
    ensures Invariant(Auth.RequestPasswordReset(s, b, d).next)
  {
    if b.Decoded? && Strings.TrimSpace(b.value.email) != ""
      && FindUserByEmail(s.users.rows, Strings.TrimSpace(b.value.email)).Some?
    {
      var uid := FindUserByEmail(s.users.rows, Strings.TrimSpace(b.value.email)).value;
      Auth.ResetShape(s, b.value, d);
      ReissueKeepsInvariant(s.resetCodes, uid, Strconv.Format06(d));
    }
  }

  /** Verification only deletes codes. */
  lemma VerifyKeepsInvariant(s: Store, b: Body<Auth.VerifyBody>)
    requires Invariant(s)
    ensures Invariant(Auth.VerifyResetCode(s, b).next)
  {
  }

  /** Setting a password changes no email, NIM or id. */
  lemma SetNewPasswordKeepsInvariant(s: Store, b: Body<Auth.NewPasswordBody>)
    requires Invariant(s)
    ensures Invariant(Auth.SetNewPassword(s, b).next)
  {
    var t := Auth.SetNewPassword(s, b);
    if t.resp.Ok? {
      Auth.SetNewPasswordShape(s, b);
      Auth.SetPasswordKeepsIdentities(s.users.rows, Strings.TrimSpace(b.value.email), Strings.TrimSpace(b.value.newPassword));
    }
  }

  /** Registration inserts a row that carries its own key and clashes
      with no stored email or NIM. */
  lemma RegisterKeepsInvariant(s: Store, b: Body<Auth.RegisterBody>)
    requires Invariant(s)
    ensures Invariant(Auth.Register(s, b).next)
  {
    Auth.RegisterKeepsIdentitiesUnique(s, b);
  }

  lemma CreateBookKeepsInvariant(s: Store, b: Body<Book>)
    requires Invariant(s)
    ensures Invariant(Books.CreateBook(s, b).next)
  {
  }

  lemma UpdateBookKeepsInvariant(s: Store, id: string, b: Body<Book>)
    requires Invariant(s)
    ensures Invariant(Books.UpdateBook(s, id, b).next)
  {
  }

  lemma DeleteBookKeepsInvariant(s: Store, id: string)
    requires Invariant(s)
    ensures Invariant(Books.DeleteBook(s, id).next)
  {
  }

  lemma CreateCategoryKeepsInvariant(s: Store, b: Body<Category>)
    requires Invariant(s)
    ensures Invariant(Categories.CreateCategory(s, b).next)
  {
  }

  lemma UpdateCategoryKeepsInvariant(s: Store, id: string, b: Body<Category>)
    requires Invariant(s)
    ensures Invariant(Categories.UpdateCategory(s, id, b).next)
  {
  }

  lemma DeleteCategoryKeepsInvariant(s: Store, id: string)
    requires Invariant(s)
    ensures Invariant(Categories.DeleteCategory(s, id).next)
  {
  }

  lemma AuthKeepsInvariant(s: Store, r: AuthRoute)
    requires Invariant(s)
    ensures Invariant(HandleAuth(s, r).next)
  {
    match r
    case PostLogin(b) =>
    case PostRegister(b) => RegisterKeepsInvariant(s, b);
    case PostResetRequest(b, d) => ResetKeepsOneCodePerUser(s, b, d);
    case PostResetVerify(b) => VerifyKeepsInvariant(s, b);
    case PostSetNewPassword(b) => SetNewPasswordKeepsInvariant(s, b);
  }

  lemma BooksKeepInvariant(s: Store, r: BookRoute)
    requires Invariant(s)
    ensures Invariant(HandleBooks(s, r).next)
  {
    match r
    case GetBooks =>
    case GetBook(id) =>
    case PostBook(b) => CreateBookKeepsInvariant(s, b);
    case PutBook(id, b) => UpdateBookKeepsInvariant(s, id, b);
    case DeleteBookRoute(id) => DeleteBookKeepsInvariant(s, id);
  }

  lemma CategoriesKeepInvariant(s: Store, r: CategoryRoute)
    requires Invariant(s)
    ensures Invariant(HandleCategories(s, r).next)
  {
    match r
    case GetCategories =>
    case GetCategory(id) =>
    case PostCategory(b) => CreateCategoryKeepsInvariant(s, b);
    case PutCategory(id, b) => UpdateCategoryKeepsInvariant(s, id, b);
    case DeleteCategoryRoute(id) => DeleteCategoryKeepsInvariant(s, id);
  }

  /** Every request, whatever its outcome, keeps the store well formed, the
      users' emails and NIMs unique and at most one reset code per user. */
  lemma HandleKeepsInvariant(s: Store, req: Request)
    requires Invariant(s)
    ensures Invariant(Handle(s, req).next)
  {
    match req
    case AuthRequest(r) => AuthKeepsInvariant(s, r);
    case BookRequest(r) => BooksKeepInvariant(s, r);
    case CategoryRequest(r) => CategoriesKeepInvariant(s, r);
  }

  /** The invariant holds after any sequence of requests. */
  function Run(s: Store, reqs: seq<Request>): (s': Store)
    requires Invariant(s)
    ensures Invariant(s')
    decreases |reqs|
  {
    if reqs == [] then s
    else
      HandleKeepsInvariant(s, reqs[0]);
      Run(Handle(s, reqs[0]).next, reqs[1..])
  }
}
