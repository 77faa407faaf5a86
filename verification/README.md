# Pojok Baca API — a Dafny model of its handlers

Pojok Baca is a small Go/Fiber HTTP backend for a campus reading-room
catalog. It handles login, registration and a three-step password reset
(request a code, verify the code, set a new password). It also offers CRUD
endpoints for books and categories, backed by four MySQL tables.

This project models every handler as a pure transition
`Store × request → Step(next store, response)`:

- **Store** (`Models.Store`) holds the tables `users`, `password_reset_codes`,
  `books` and `categories`. Each table is a `Tables.Table`: a map from primary
  key to row, plus its AUTO_INCREMENT counter.
- **Response** (`Responses.Response`) is one of the two JSON envelopes from
  `utils/response.go`: `Ok(status, message, data)` or `Err(status, error)`.
  Each fixed reply text of the handlers is one constructor of
  `Responses.Message`. `Responses.Text` records each constructor's exact
  wording as documentation; no contract depends on the wording, only on
  which constructor a reply carries.
- **Requests.** Route ids are the raw path text, parsed by a model of
  `strconv.Atoi`. Bodies arrive already decoded, or as `Malformed`, which
  maps to 400 "Invalid request body".
- **Dispatch.** `Routes.Handle` maps each route of `routes/routes.go` to its
  handler. Routes are grouped as in that file: authentication, books and
  categories.

Modules: `Tables` (table helpers: insert, remove, replace, least key, full
scan), `Strings` (`strings.TrimSpace`, written as a strip of one white-space character
at a time from either end), `Strconv` (`Atoi`, `Itoa`, `%06d`),
`Models` (rows, store, invariants, lookups), `Responses` (envelopes and
bodies), `AuthHandler`, `BookHandler`, `CategoryHandler` and `Routes`.

## Modelling choices

- **Rows affected means rows changed.** The DSN in `database/database.go:23`
  does not set `clientFoundRows`, so the MySQL driver reports rows actually
  changed. This has three consequences, each proved:
  - An UPDATE that writes identical values replies 404 ("not found or no
    changes made").
  - `SetNewPassword` with the password the user already has replies
    404 "Pengguna tidak ditemukan" (`AuthHandler.SamePasswordIsNotFound`).
  - One might expect `SetNewPassword` and the updates to fail only for an
    unknown email or id. With the driver's changed-rows count they also fail
    when nothing would change, and the model follows the code and the driver.
- **Single-row queries.** A query read with `QueryRow` takes the first
  matching row. SQL does not fix that order, so the model takes the least
  matching key. The choice matters only if two users share an email, and no
  handler ever creates that situation (`Routes.HandleKeepsInvariant`).
- **Reset-code verification.** Verification deletes every code of the
  user, not only the matched one, and so does the model. Under the
  one-code-per-user invariant this is the same.
- **Full scans.** `GET /books` and `GET /categories` list rows in ascending
  key order. Their contracts promise only what SQL promises: every stored row
  exactly once.
- **Randomness.** `rand.Intn(1000000)` becomes a parameter of type
  `AuthHandler.ResetDraw` (0 to 999999).
- **Storage errors.** Every SQL statement is assumed to succeed. See "Left
  out".

## Model

| member | source | states |
|---|---|---|
| `Strings.TrimSpace` | handlers/auth_handler.go:27-28 | The trimmed value has no white space at either end. It is empty exactly when the input is all white space, which is the condition the "must be filled" checks test. |
| `Strings.TrimSpaceIsInfix` | handlers/auth_handler.go:27-28 | Trimming removes nothing but surrounding white space: the result is a slice of the input with only white space before and after it. |
| `Strings.TrimSpacePadded` | handlers/auth_handler.go:63-66 | Independent characterisation of trimming: white space of any length on both sides of a trimmed, non-empty string is removed, and nothing else is. |
| `Strings.TrimSpaceIdempotent` | handlers/auth_handler.go:27-28 | Trimming an already trimmed value changes nothing. So credentials trimmed at registration match the same input trimmed again at login. |
| `Strconv.ParseInt` | handlers/book_handler.go:48-51 | `strconv.Atoi`. A string of one or more ASCII digits, optionally after one `+` or `-`, parses to its signed decimal value when that value fits in 64 bits and is an error when it does not. Any other text, including a lone sign and the empty string, is an error. |
| `Strconv.Atoi` | handlers/book_handler.go:48-51 | The library's loop (strip one sign, accumulate digits, reject any other character, range check) gives the same result as the reference definition on every input. |
| `Strconv.ParseIntItoa` | handlers/book_handler.go:94-97 | Every 64-bit id, printed in decimal, parses back to itself. So the id a create reply reports can be used in a later request path. |
| `Strconv.Format06` | handlers/auth_handler.go:124-125 | `%06d` prints only ASCII digits whose decimal value is the number, at least six of them, and exactly six below one million. |
| `Strconv.Format06Digits` | handlers/auth_handler.go:124-125 | `%06d` of a draw below one million is exactly six ASCII digits and reads back as the draw, so distinct draws give distinct codes. |
| `Tables.Insert` | handlers/book_handler.go:85-95 | An insert stores the row under the counter's key, which no stored row uses. Every earlier row is unchanged. |
| `Tables.Remove` | handlers/book_handler.go:147 | A delete by key removes only that key, and the other rows are unchanged. |
| `Tables.Replace` | handlers/book_handler.go:120-123 | An update by key rewrites only that row. The key set is unchanged. |
| `Tables.SortedKeys` | handlers/book_handler.go:16-30 | The scan order: every key exactly once, strictly increasing. |
| `Tables.ScanRows` | handlers/book_handler.go:16-30 | A full scan returns exactly the stored rows, as many as there are keys. When no two keys hold equal rows, no row appears twice. |
| `Tables.ScanCoversRows` | handlers/book_handler.go:16-30 | Reading the row at every key of a table yields exactly the table's stored rows. |
| `Tables.ScanHasNoDuplicates` | handlers/book_handler.go:16-30 | Reading distinct rows at strictly increasing keys repeats none. |
| `Models.FindUserByEmail` | handlers/auth_handler.go:35 | The lookup finds a user exactly when one has that email. With unique emails, the user it finds is the only one with that email. |
| `Models.DeleteCodesOf` | handlers/auth_handler.go:119 | Deleting a user's reset codes leaves none of that user's codes and keeps every other code unchanged. |
| `Models.ReissueCode` | handlers/auth_handler.go:119-130 | Deleting a user's codes and then inserting one new code under the counter's key leaves that user exactly the new code. Other users' codes are kept, and no other code appears. |
| `Models.ReissueKeepsInvariant` | handlers/auth_handler.go:119-130 | The same delete-then-insert keeps the code table's keys issued by its counter, every row carrying its own key, and at most one code per user. |
| `AuthHandler.Login` | handlers/auth_handler.go:20-53 | Login never changes the store. An undecodable body gives 400 "Invalid request body". An empty trimmed field gives 400. Success replies only with a stored user whose email and password equal the trimmed input, and only its id, NIM, name and email. Every 401 carries the same message. |
| `AuthHandler.LoginFound` | handlers/auth_handler.go:34-52 | Once the email lookup has found a row, the reply depends only on that row's password: equal gives 200 with that row's summary, different gives 401. |
| `AuthHandler.LoginSucceedsIff` | handlers/auth_handler.go:34-52 | With unique emails, login succeeds if and only if both trimmed fields are non-empty and some stored user has exactly that email and password. |
| `AuthHandler.LoginRejectionsIndistinguishable` | handlers/auth_handler.go:35-45 | An unknown email and a wrong password give the identical 401 reply. |
| `AuthHandler.Register` | handlers/auth_handler.go:56-91 | An undecodable body gives 400 and changes nothing. Any empty trimmed field gives 400, and nothing is stored. A shared email or NIM gives 409 "already registered" if and only if one exists, and nothing is stored. Otherwise the trimmed fields are inserted under a new key and echoed with the password cleared. |
| `AuthHandler.RegisterKeepsIdentitiesUnique` | handlers/auth_handler.go:72-81 | If emails and NIMs are pairwise distinct before a registration, they still are afterwards. |
| `AuthHandler.RegisterThenLogin` | handlers/auth_handler.go:63-90 | A user who has just registered can log in with the same email and password, and sees the stored identity. |
| `AuthHandler.RequestPasswordReset` | handlers/auth_handler.go:95-165 | Every well-formed request gets the same 200 reply, registered email or not. An unregistered email changes nothing. Users, books and categories never change. |
| `AuthHandler.ResetIssuesOneCode` | handlers/auth_handler.go:119-130 | For a registered user, the user has exactly one code afterwards: the new six-digit code. Other users' codes are untouched, and no other code appears. |
| `AuthHandler.ResetTwiceKeepsNewest` | handlers/auth_handler.go:119-130 | Two reset requests for the same user leave exactly one code, the one from the second request. |
| `AuthHandler.VerifyResetCode` | handlers/auth_handler.go:169-208 | An undecodable body gives 400 "Invalid request body". An empty trimmed email or code gives 400 "code and email required". Any other failure is 400 "code invalid". Verification succeeds if and only if a stored code belongs to a user with that email and equals the trimmed code. On success that user's codes are all deleted. Failures change nothing. |
| `AuthHandler.VerifyIsOneTime` | handlers/auth_handler.go:188-207 | With unique emails, a code that has just verified is refused with 400 the second time. |
| `AuthHandler.RequestThenVerify` | handlers/auth_handler.go:119-207 | The code a reset request issues verifies once, and a second attempt is refused. |
| `AuthHandler.SetPasswordByEmail` | handlers/auth_handler.go:229-233 | The UPDATE sets the password of exactly the rows with that email and leaves every other row and the key set unchanged. |
| `AuthHandler.SetNewPassword` | handlers/auth_handler.go:212-244 | An undecodable body gives 400 "Invalid request body". An empty trimmed email or password gives 400 "email and new password required", and nothing changes. The reply is 200 if and only if some user with that email has a different password. On success, only those users' passwords change, to the trimmed new one. Otherwise the reply is 404 and nothing changes. |
| `AuthHandler.SetPasswordKeepsIdentities` | handlers/auth_handler.go:229-233 | The password UPDATE changes no email, NIM or id, so unique emails and NIMs stay unique. |
| `AuthHandler.SamePasswordIsNotFound` | handlers/auth_handler.go:229-241 | Setting the password a user already has is answered 404 "user not found", because no row changes. |
| `AuthHandler.SetNewPasswordIgnoresCodes` | handlers/auth_handler.go:222-243 | Setting a password does not depend on the reset-code table, so no prior verification is needed. |
| `AuthHandler.SetNewPasswordThenLogin` | handlers/auth_handler.go:229-243 | After a successful password change, logging in with the new password succeeds. |
| `BookHandler.GetAllBooks` | handlers/book_handler.go:15-43 | An empty table gives 200 "No books found" with an empty list. Otherwise the list holds exactly the stored books, as many as there are rows, and none twice when every row carries its own id. The store is unchanged. |
| `BookHandler.GetBookByID` | handlers/book_handler.go:47-67 | A non-integer id gives 400 "Invalid book ID". An absent id gives 404 "Book not found". Otherwise the reply is 200 with exactly the stored row. |
| `BookHandler.CreateBook` | handlers/book_handler.go:71-98 | An undecodable body gives 400 "Invalid request body". The reply is 201 if and only if the body has non-empty title, author and publisher and a non-zero year and category id. Then the row is inserted under the new key and echoed with that id. Otherwise the reply is 400 and nothing changes. |
| `BookHandler.UpdateBook` | handlers/book_handler.go:102-136 | A bad id gives 400 "Invalid book ID" whatever the body. Then an undecodable body gives 400 "Invalid request body", and a body missing a required field gives 400 "fields required"; neither changes anything. Success happens if and only if the row exists and differs from the body; then only that row is replaced and it keeps its id. Otherwise a valid body gets 404 "not found or no changes made". Other tables never change. |
| `BookHandler.DeleteBook` | handlers/book_handler.go:140-159 | A bad id gives 400. An absent id gives 404. Otherwise only that row is removed. |
| `BookHandler.CreateThenGet` | handlers/book_handler.go:85-97 | A created book is stored under a key that was free, and reading that id back returns the same fields. Existing rows are unchanged. |
| `BookHandler.UpdateThenGet` | handlers/book_handler.go:120-135 | After an update, reading the id returns the new fields under the same id. |
| `BookHandler.DeleteTwice` | handlers/book_handler.go:147-158 | After a delete, both a second delete and a read of the same id give 404. |
| `CategoryHandler.GetAllCategories` | handlers/category_handler.go:15-41 | An empty table gives 200 "No categories found" with an empty list. Otherwise the list holds exactly the stored categories, as many as there are rows, and none twice when every row carries its own id. |
| `CategoryHandler.GetCategoryByID` | handlers/category_handler.go:45-62 | A non-integer id gives 400. An absent id gives 404 "Category not found". Otherwise the reply is 200 with exactly the stored row. |
| `CategoryHandler.CreateCategory` | handlers/category_handler.go:66-88 | An undecodable body gives 400. The reply is 201 if and only if the name is non-empty; the image is optional. The row is inserted under the new key. Otherwise the reply is 400 and nothing changes. |
| `CategoryHandler.UpdateCategory` | handlers/category_handler.go:92-122 | A bad id gives 400 "Invalid category ID". Then an undecodable body gives 400 "Invalid request body", and an empty name gives 400 "Category name is required"; neither changes anything. Success happens if and only if the row exists and differs; then only its name and image are rewritten and the id is kept. A non-empty name for a missing or identical row gets 404 "not found or no changes made". |
| `CategoryHandler.DeleteCategory` | handlers/category_handler.go:126-143 | A bad id gives 400. An absent id gives 404. Otherwise only that category is removed, and the books table is untouched. |
| `CategoryHandler.CreateThenGet` | handlers/category_handler.go:76-87 | A created category is stored under a key that was free, and reading it back returns the same name and image. |
| `CategoryHandler.DeleteTwice` | handlers/category_handler.go:132-142 | Deleting the same id a second time gives 404. |
| `CategoryHandler.DeleteLeavesOrphans` | handlers/category_handler.go:132-142 | There is no cascade: a book that referenced the deleted category still does, and that category no longer exists. |
| `Routes.HandleAuth` | routes/routes.go:33-39 | An authentication request refused with an error leaves the store unchanged. |
| `Routes.HandleBooks` | routes/routes.go:42-46 | A book request refused with an error leaves the store unchanged. |
| `Routes.HandleCategories` | routes/routes.go:49-53 | A category request refused with an error leaves the store unchanged. |
| `Routes.Handle` | routes/routes.go:33-53 | The dispatch of every route to its handler. Whatever the route, a request refused with an error changes nothing. |
| `Routes.HandleFrame` | routes/routes.go:33-53 | Only the reset request and verify routes touch reset codes. Only register and set-password touch users. Only the book write routes touch books, and only the category write routes touch categories. |
| `Routes.AuthFrame` | routes/routes.go:33-39 | The authentication routes never touch books or categories. Only the reset request and verify touch reset codes, and only registration and set-password touch users. |
| `Routes.BooksFrame` | routes/routes.go:42-46 | The book routes never touch users, reset codes or categories, and the two GET routes change nothing. |
| `Routes.CategoriesFrame` | routes/routes.go:49-53 | The category routes never touch users, reset codes or books, and the two GET routes change nothing. |
| `Routes.ResetKeepsOneCodePerUser` | handlers/auth_handler.go:119-130 | A reset request keeps the store well formed and at most one code per user. |
| `Routes.VerifyKeepsInvariant` | handlers/auth_handler.go:202-205 | Verification keeps every invariant. |
| `Routes.SetNewPasswordKeepsInvariant` | handlers/auth_handler.go:229-233 | A password change alters no email, NIM or id, so every invariant survives. |
| `Routes.RegisterKeepsInvariant` | handlers/auth_handler.go:72-87 | Registration keeps the store well formed and emails and NIMs unique. |
| `Routes.CreateBookKeepsInvariant` | handlers/book_handler.go:85-95 | Inserting a book keeps every key issued by the counter and every row carrying its own key. |
| `Routes.UpdateBookKeepsInvariant` | handlers/book_handler.go:120-135 | Updating a book keeps every invariant. |
| `Routes.DeleteBookKeepsInvariant` | handlers/book_handler.go:147-158 | Deleting a book keeps every invariant. |
| `Routes.CreateCategoryKeepsInvariant` | handlers/category_handler.go:76-87 | Inserting a category keeps every invariant. |
| `Routes.UpdateCategoryKeepsInvariant` | handlers/category_handler.go:107-121 | Updating a category keeps every invariant. |
| `Routes.DeleteCategoryKeepsInvariant` | handlers/category_handler.go:132-142 | Deleting a category keeps every invariant. |
| `Routes.AuthKeepsInvariant` | routes/routes.go:33-39 | Every authentication route preserves the invariants, whatever its outcome. |
| `Routes.BooksKeepInvariant` | routes/routes.go:42-46 | Every book route preserves the invariants. |
| `Routes.CategoriesKeepInvariant` | routes/routes.go:49-53 | Every category route preserves the invariants. |
| `Routes.HandleKeepsInvariant` | routes/routes.go:33-53 | Every request to every route preserves the invariants: well-formed tables, unique emails and NIMs, and at most one reset code per user. |
| `Routes.Run` | routes/routes.go:30-53 | The invariants hold after any sequence of requests from a store that meets them, such as `Models.EmptyStore`. |

## Left out

- Storage failures: every 500 path (query, exec, scan and row-iteration errors) is left out, because those errors come from the external database. Some consequences of a failing database are not modelled:
  - the ignored error of the duplicate count at handlers/auth_handler.go:73;
  - the old-code delete at handlers/auth_handler.go:119-122, which is only logged on failure;
  - the used-code delete at handlers/auth_handler.go:202-205, which is only logged on failure.
- Mail delivery (handlers/auth_handler.go:135-162) is network I/O and its failure is only logged. It is a no-op here.
- Concurrency: each request is one atomic step. Two simultaneous registrations can interleave between the duplicate check and the insert in the real service. The repository contains no schema, so any UNIQUE constraints on email or NIM are unknown.
- String comparison in SQL is modelled as exact equality. Under MySQL's usual case-insensitive collations, the email, NIM and reset-code comparisons may also match other letter cases and trailing spaces.
- JSON decoding is the framework's job. A body is either `Malformed` or an already-decoded record.
  - Registration echoes any `created_at`/`updated_at` the client sent, and those timestamps are not modelled.
  - Timestamps and the reset code's `expires_at` are never read and are not part of the rows. Codes do not expire.
- `Strings.TrimSpace` works on Unicode scalar values over the fixed white-space set of `unicode.IsSpace`. It does not model UTF-8 byte handling of invalid input.
- `Strconv.Atoi` does not distinguish syntax errors from range errors, because every handler maps both to the same 400 reply.
- Routing middleware (logging, CORS, static files under `/public`), `database/database.go` bootstrap and `main.go` are process setup and I/O. `Routes.Handle` records only which handler serves each route.
- `utils/auth_utils.go` is entirely commented out, so there is nothing to model.
- `BookHandler.GetAllBooks`: its contract does not promise an order, because SQL gives none. The model happens to list rows in key order.
- `CategoryHandler.GetAllCategories`: its contract does not promise an order, for the same reason.
