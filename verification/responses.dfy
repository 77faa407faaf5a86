/** The two JSON envelopes every handler ends in, the request bodies as the
    framework hands them over, and the handler step type. */
module Responses {
  import opened Models

  const StatusOK := 200
  const StatusCreated := 201
  const StatusBadRequest := 400
  const StatusUnauthorized := 401
  const StatusNotFound := 404
  const StatusConflict := 409

  /** The fixed reply texts of the handlers, one constructor per text. */
  datatype Message =
    // shared by every handler that reads a body
    | InvalidBody
    // authentication and password reset
    | LoginRequired
    | BadCredentials
    | LoginSuccessful
    | RegisterRequired
    | AlreadyRegistered
    | Registered
    | EmailRequired
    | ResetSent
    | VerifyRequired
    | CodeInvalid
    | CodeValid
    | NewPasswordRequired
    | UserNotFound
    | PasswordChanged
    // books
    | InvalidBookId
    | BookNotFoundOrUnchanged
    | BookNotFound
    | BookFieldsRequired
    | NoBooksFound
    | BooksRetrieved
    | BookRetrieved
    | BookCreated
    | BookUpdated
    | BookDeleted
    // categories
    | InvalidCategoryId
    | CategoryNotFoundOrUnchanged
    | CategoryNotFound
    | CategoryNameRequired
    | NoCategoriesFound
    | CategoriesRetrieved
    | CategoryRetrieved
    | CategoryCreated
    | CategoryUpdated
    | CategoryDeleted

  /** The text each message stands for, exactly as the handlers write it.
      This table documents the wording; the contracts speak only of the
      constructors. */
  function Text(m: Message): string
  {
    match m
    case InvalidBody => "Invalid request body"
    case LoginRequired => "Email dan Password harus diisi"
    case BadCredentials => "Email atau password salah"
    case LoginSuccessful => "Login successful"
    case RegisterRequired => "Semua kolom (Nama Lengkap, NIM, Email, Password) harus diisi"
    case AlreadyRegistered => "NIM atau Email sudah terdaftar"
    case Registered => "Pengguna berhasil didaftarkan"
    case EmailRequired => "Email diperlukan"
    case ResetSent => "Jika email terdaftar, kode reset akan dikirim."
    case VerifyRequired => "Email dan kode reset diperlukan"
    case CodeInvalid => "Kode reset tidak valid atau tidak cocok dengan email"
    case CodeValid => "Kode reset valid"
    case NewPasswordRequired => "Email dan password baru diperlukan"
    case UserNotFound => "Pengguna tidak ditemukan"
    case PasswordChanged => "Password berhasil diubah"
    case InvalidBookId => "Invalid book ID"
    case BookNotFoundOrUnchanged => "Book not found or no changes made"
    case BookNotFound => "Book not found"
    case BookFieldsRequired => "Judul, Penulis, Penerbit, Tahun Terbit, and Category ID are required"
    case NoBooksFound => "No books found"
    case BooksRetrieved => "Books retrieved successfully"
    case BookRetrieved => "Book retrieved successfully"
    case BookCreated => "Book created successfully"
    case BookUpdated => "Book updated successfully"
    case BookDeleted => "Book deleted successfully"
    case InvalidCategoryId => "Invalid category ID"
    case CategoryNotFoundOrUnchanged => "Category not found or no changes made"
    case CategoryNotFound => "Category not found"
    case CategoryNameRequired => "Category name is required"
    case NoCategoriesFound => "No categories found"
    case CategoriesRetrieved => "Categories retrieved successfully"
    case CategoryRetrieved => "Category retrieved successfully"
    case CategoryCreated => "Category created successfully"
    case CategoryUpdated => "Category updated successfully"
    case CategoryDeleted => "Category deleted successfully"
  }

  /** The `data` member of a success envelope. */
  datatype Payload =
    | NoData
    | UserSummary(userId: int, nim: string, namaLengkap: string, email: string)
    | UserRecord(user: User)
    | BookRecord(book: Book)
    | BookList(books: seq<Book>)
    | CategoryRecord(category: Category)
    | CategoryList(categories: seq<Category>)

  /** `Ok` is the `{message, data}` envelope of JSONResponse, `Err` the
      `{error}` envelope of ErrorResponse; both carry the HTTP status, and
      the message's wording is `Text` of it. */
  datatype Response =
    | Ok(status: int, message: Message, data: Payload)
    | Err(status: int, error: Message)

  /** A JSON body either fails to decode or yields a record of its fields;
      fields absent from the JSON decode to their zero value. */
  datatype Body<T> = Malformed | Decoded(value: T)

  /** The database after a request, and the reply. */
  datatype Step = Step(next: Store, resp: Response)
}
