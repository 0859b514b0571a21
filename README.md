# Library backend services in Dafny

This is a model of the three backend services of a library-management demo:

- **auth** signs users up, logs them in with a 24-hour HS256 token, lets an
  admin list, create and delete users, and seeds an `admin` account at start-up;
- **book** serves the `books` catalogue: listing, get, and admin-only add,
  update and delete;
- **borrow** lends books. It records a loan in the `borrows` table, marks the
  book unavailable, and undoes both on return. It also lists a user's own
  loans and gives admins a report of all loans, most recent first.

Each service keeps its tables in a class:

| class | fields |
|---|---|
| `AuthService.UserDb` | `users: map<int, User>`, with the next auto-increment id |
| `BookService.BookDb` | `books: map<int, Book>`, with the next auto-increment id |
| `BorrowService.BorrowDb` | `borrows`, `books`, `users`, with the next borrow id |

Each request handler that writes is a method of one of these classes. Its
postcondition follows the handler's checks in the source's order. It gives the
exact status code and body for every outcome, and the whole new state of the
tables; every refusal leaves the tables unchanged. Most bodies are the JSON
the handler returns. A few outcomes come from an exception the handler does
not catch, or from `get_or_404`, and have no JSON body. For those the client
gets Flask's HTML error page, which the model gives as
`BookService.ErrorPage(<page heading>)`:

- the 500 for a `null` add_book body;
- the 500 when a commit fails;
- delete_book's 404 for a missing id.

The read-only handlers are modelled as follows:

- book listing, `get_book`, `login` and `get_all_users` are functions of the
  tables;
- the two borrow listings are loops. The source loops over the rows of a SQL
  join; the model loops over the loan ids `1 .. nextId` and keeps the loans
  that match the join. Each loop is proved against the join it computes. The
  admin report is also proved to be ordered newest first.

Some parts are parameters rather than code:

- **Tokens.** JWT signing and checking are a `Tokens.TokenCodec` pair of
  functions. The services rely on two properties of them, which lemmas state
  as assumptions: `RoundTrips` and `Compact`.
- **Passwords.** werkzeug hashing is a `Tokens.Hasher` pair, whose property
  `Accepts` lemmas likewise assume.
- **Time.** The current time is an integer `now` in seconds.
- **Start-up seeding.** The database's behaviour during `create_sample_admin`
  is a function from attempt number to what that attempt meets.

Values have these forms:

- the book and borrow request bodies are maps from field names to JSON
  scalars (`Common.Json`): null, booleans, integers, other numbers as exact
  reals, and strings. The signup, login and create-user bodies are maps from
  field names to strings. `None` is a `null` body;
- book columns hold the JSON value the client sent. The one exception is the
  Boolean column `available`, which holds null, `true` or `false`; a book
  counts as "available" only when it holds `true`;
- usernames are compared under a `Collation`, a function from a name to its
  comparison key. Two names are the same when their keys are equal. This
  stands for the MySQL column collation, which makes `Alice` and `alice` one
  name;
- Python's `token.replace('Bearer ', '')` is `Common.RemoveAll`.

The Authorization checks differ between services:

- the book and auth services require the `Bearer ` prefix, and answer 422 when
  the header or the token is bad (`Tokens.Authenticate`);
- the borrow service only removes `Bearer `. A bad token gets 401 from
  borrow and return and from `GET /borrowed`, and 403 from `/borrows/all`. An
  empty token gets 401 everywhere except `GET /borrowed`, which answers 422.

`signup` and `login` read no Authorization header. Both borrow listings run
their query inside an exception handler.

## Model

| member | source | states |
|---|---|---|
| Common.RemoveAll | borrow/borrow_service.py:66 | `str.replace` with an empty replacement never makes the string longer. |
| Common.RemoveAllAbsent | borrow/borrow_service.py:66 | Removing `Bearer ` from a header in which it does not occur leaves the header unchanged. |
| Common.RemoveAllPrefix | book/book_service.py:57 | A leading `Bearer ` is dropped and the scan goes on with the rest, so `replace` on `"Bearer " + t` is `replace` on `t`. |
| Common.Join | book/book_service.py:144 | `", ".join` of no names is empty and of one name is that name. Two or more names are the join of all but the last, then the separator, then the last name, so the separator stands exactly between neighbours. |
| Tokens.Decode | book/book_service.py:30-40 | A token decodes to its claims exactly when the signature checks and `now` is before `exp`; otherwise it gives None, for bad signatures and for expired tokens alike. |
| Tokens.Issue | auth/auth_service.py:113-118 | The login token verifies, under a codec that round-trips, to the row's id, username and role with `exp = now + 24h`. Under a compact codec it is non-empty and has no space. |
| Tokens.IssuedTokenLifetime | auth/auth_service.py:113-118 | A token issued at time t decodes to `{user_id, username, role, exp = t + 86400}` at every time before t + 24h, and to None from then on. |
| Tokens.Authenticate | book/book_service.py:51-61 | A missing header or one without the `Bearer ` prefix gives 422 "Missing or invalid Authorization header". A token that does not decode gives 422 "Invalid or expired token", never 401. Otherwise the gate admits the decoded claims. |
| Tokens.AuthenticateAdmin | book/book_service.py:100-103 | After the gate, any role other than `admin` gives 403 "Admin role required". Only admin claims are admitted. |
| Tokens.IssuedTokenPassesGate | book/book_service.py:51-61 | A freshly issued token sent as `Bearer <token>` is admitted with its own claims for 24 hours. |
| Tokens.BareTokenRefused | book/book_service.py:52 | A token sent without the `Bearer ` prefix is refused with 422 by the book and auth services. |
| BorrowService.BearerToken | borrow/borrow_service.py:66 | A missing header gives the empty token; the token is never longer than the header. |
| BorrowService.BearerPrefixOptional | borrow/borrow_service.py:66 | The borrow service does not check the prefix: `Bearer <t>` and a bare `<t>` give the same token. |
| BorrowService.BearerRepeated | borrow/borrow_service.py:66 | For every t, the header `Bearer <t>` gives the same token as the header `<t>`. So the header `Bearer ` alone gives the empty token. |
| BorrowService.UserIdFromToken | borrow/borrow_service.py:46-52 | The result is (user_id, role) from the claims of a token that decodes, and None for every token that does not. |
| BorrowService.PyIntEquals | borrow/borrow_service.py:73 | Python's `!=` between a body id and the token's int: null and strings never equal an int, and `true` equals exactly 1. |
| BorrowService.ColumnKey | borrow/borrow_service.py:76 | The id column key of a body value is the one int that Python calls equal to it. If no int is equal to it, there is no key and no row. |
| BorrowService.FloatIds | borrow/borrow_service.py:73-76 | For every int n and real x, the float x equals n, and selects the row with id n, exactly when x has the value n. So `1.0` works as 1 and `2.5` matches nothing. |
| BorrowService.NoLoansInvariant | borrow/borrow_service.py:22-37 | With no loans and every book available, the one-loan-per-unavailable-book invariant holds. |
| BorrowService.BorrowKeepsInvariant | borrow/borrow_service.py:76-83 | Adding a loan for an available book under a fresh id, and marking that book unavailable, keeps two facts: a book is unavailable iff a loan references it, and no book has two loans. |
| BorrowService.ReturnKeepsInvariant | borrow/borrow_service.py:100-103 | Deleting a loan and making its book, if it still exists, available again keeps the same invariant. |
| BorrowService.BorrowDb.constructor | borrow/borrow_service.py:22-44 | The database starts with the given books and users and no loans. Every book's Boolean `available` column holds null, true or false. When every book is available, the one-loan-per-unavailable-book invariant holds from the start. |
| BorrowService.BorrowDb.BorrowBook | borrow/borrow_service.py:60-85 | The checks run in order: 422 missing `user_id`/`book_id` (checked before the token); 401 empty token; 401 token that does not decode or has user_id 0; 403 body `user_id` not the token's; 404 book absent or unavailable. All of these change nothing. Success is 201 with the new borrow id. It adds exactly one loan (fresh id, caller, that book, date `now`) and sets only that book's `available` to false. The invariant is kept. |
| BorrowService.BorrowDb.ReturnBook | borrow/borrow_service.py:87-106 | The checks run in order: 401 "Missing token"; 401 invalid token; 404 loan absent; 403 loan of another user. None of these changes anything. Success is 200. It deletes exactly that loan and makes its book available, if the book exists. Nothing else changes, and the invariant is kept. |
| BorrowService.BorrowDb.GetBorrowedBooks | borrow/borrow_service.py:108-139 | An empty token gives 422 and a bad token 401. Otherwise it lists the caller's loans whose book exists, each once, joined with the book's columns. |
| BorrowService.BorrowDb.GetAllBorrows | borrow/borrow_service.py:141-170 | An empty token gives 401. Any token that is not a decoded admin token gives 403, an invalid token included. Otherwise it lists every loan whose book and user exist, each once, most recent first. |
| BorrowService.InsertNewestFirst | borrow/borrow_service.py:154 | Inserting a row into a newest-first list keeps it newest first, and the result is the old rows plus that row. |
| BookService.AvailableBooks | book/book_service.py:65 | Exactly the books whose `available` is true, with their stored columns. |
| BookService.GetBooks | book/book_service.py:49-84 | A refused gate gives 422. Otherwise it lists exactly the available books, for any role. |
| BookService.GetAllBooks | book/book_service.py:86-119 | A refused gate gives 422 and a non-admin 403. An admin gets every book. |
| BookService.GetBook | book/book_service.py:255-285 | A refused gate gives 422, and a missing id 404 "Book not found". Otherwise it returns the stored row unchanged, for any role. |
| BookService.MissingFields | book/book_service.py:143 | A field is listed iff it is one of the fields asked about and the body lacks it. The list is never longer than the fields asked about. |
| BookService.MissingRequiredFieldsInOrder | book/book_service.py:141-144 | The missing required fields are listed in the order title, author, book_url, each in its place exactly when the body lacks it. |
| BookService.NewBook | book/book_service.py:148-155 | A new row takes the sent title, author and book_url. `author_bio` and `image_url` default to "" and `available` is true. |
| BookService.Assign | book/book_service.py:226-237 | One `if key in data` step: that column takes the body's value iff its key is present, and the other five columns are untouched. |
| BookService.Merge | book/book_service.py:225-237 | Each of the six columns is overwritten iff its key is in the body, and keeps its old value otherwise. |
| BookService.MergeIdempotent | book/book_service.py:225-237 | Merging the same body twice gives the row that merging it once gives. |
| BookService.MergeUnknownKeys | book/book_service.py:225-237 | A body with none of the six keys leaves the row as it was. |
| BookService.AsBoolean | book/book_service.py:28 | The Boolean column holds null for null. It holds `true` for `true`, 1 and 1.0, and `false` for `false`, 0 and 0.0. |
| BookService.Stored | book/book_service.py:23-28 | A committed row satisfies the column constraints. Its five other columns are as written, and `available` is the Boolean column's value for what was written. |
| BookService.StoredPersisted | book/book_service.py:23-28 | A row that is already in the table can be committed again unchanged. |
| BookService.StoredMergeIdempotent | book/book_service.py:225-239 | Once an update has been committed, committing the same update again is possible and changes nothing. |
| BookService.BookDb.constructor | book/book_service.py:20-28 | The table starts as given. Ids are positive and below the counter, and every row satisfies the column constraints. |
| BookService.BookDb.AddBook | book/book_service.py:121-167 | The checks run in order: gate 422; non-admin 403; a `null` body gives the HTML 500 page; a body missing title, author or book_url 422, naming the missing fields; a `null` title, author or book_url gives the HTML 500 page, because the NOT NULL column fails the commit. All of these change nothing. Success is 201 echoing the new row, which goes in under a fresh id with the defaults of `NewBook`. |
| BookService.BookDb.DeleteBook | book/book_service.py:169-193 | The checks run in order: gate 422; non-admin 403; a missing id gives the HTML 404 page of `get_or_404`. These change nothing. Otherwise exactly that row is removed, and 200. |
| BookService.BookDb.UpdateBook | book/book_service.py:195-253 | The checks run in order: gate 422; non-admin 403; missing id 404 (before the body is looked at); a `null` or empty body 422. These change nothing. The merged row `Merge(row, body)` fails the commit with the HTML 500 page, and nothing changes, when it has a `null` title, author or book_url, or an `available` that the Boolean type cannot bind (a string, or a number other than 0 and 1). Otherwise the row becomes the committed form of the merged row, other books are untouched, and the result is 200 with the row as stored. |
| BookService.UpdateTwiceIsUpdateOnce | book/book_service.py:195-253 | When an update commits, sending it a second time commits too and leaves the table as the first one left it. |
| AuthService.SetPassword | auth/auth_service.py:31-35 | Only the hash changes, and the new hash checks against the password it was made from. |
| AuthService.CheckPassword | auth/auth_service.py:34-35 | Under a hasher that accepts its own hashes, a row whose hash was made from a password checks against that password. |
| AuthService.NewUser | auth/auth_service.py:97-98 | A new row has the given username and role and a hash that checks against the given password. |
| AuthService.InsertKeepsUnique | auth/auth_service.py:27 | Inserting under a fresh id with a username that no row has under the collation keeps usernames unique under the collation. |
| AuthService.UsernameTaken | auth/auth_service.py:91 | A username stored exactly as given is always taken, and an empty table takes no name. |
| AuthService.FindUser | auth/auth_service.py:111 | Finds a row iff one has that username under the collation, and the row found has it under the collation. |
| AuthService.Login | auth/auth_service.py:104-122 | A missing username or password gives 422. It returns 200 iff a row has that username under the collation and the password checks. The 200 body holds a token with that row's id, username, role and `exp = now + 24h`, and echoes user_id and role. Every other case is the same 401 "Invalid username or password", for an unknown user and a wrong password alike. |
| AuthService.LoginTokenPassesGate | auth/auth_service.py:112-120 | The token of a successful login passes the Authorization gate for 24 hours with the row's id, username and role. |
| AuthService.GetAllUsers | auth/auth_service.py:124-153 | A refused gate gives 422 and a non-admin 403. An admin gets (id, username, role) of every row, and the answer never contains a password hash. |
| AuthService.UserDb.constructor | auth/auth_service.py:24-29 | The table starts as given, with usernames unique under the column collation. |
| AuthService.UserDb.Insert | auth/auth_service.py:99-100 | Adds exactly one row under the next id, and keeps usernames unique. |
| AuthService.UserDb.CreateSampleAdmin | auth/auth_service.py:49-74 | Makes at most `max_retries` attempts. Each one but the last was refused, and after the refusal on attempt k it waits `base_delay * k`. A reachable database inserts `admin`/`adminpass` with role `admin` once, unless a user `admin` already exists. Another OperationalError is raised, any other exception ends the loop quietly, and running out of attempts gives up. Nothing but the one insert changes the table. |
| AuthService.UserDb.Signup | auth/auth_service.py:84-102 | The checks run in order: missing fields 422; taken username 400; role not `user`/`admin` 422. So a taken username with a bad role reports 400. Refusals change nothing. Success is 201 and adds exactly one row with that username, role and password hash. |
| AuthService.UserDb.CreateUser | auth/auth_service.py:155-180 | The checks run in order: gate 422; non-admin 403; missing fields 422; taken username 409; bad role 422; password shorter than 6 characters 422. Refusals change nothing. Only after all these does it insert one row, answering 201 with the new id. |
| AuthService.UserDb.DeleteUser | auth/auth_service.py:182-201 | The checks run in order: gate 422; non-admin 403; the admin's own id 403 (checked before existence); missing id 404. These change nothing. Otherwise exactly that row is removed, and 200. |
| AuthService.SignupThenLogin | auth/auth_service.py:97-120 | After a signup adds a row, logging in with the same username and password gives 200 and a token with the new id and the signup role. |
| AuthService.LoginIgnoresCase | auth/auth_service.py:111-120 | Under a collation that makes `ALICE` and `alice` one name, logging in as `ALICE` with alice's password gives 200 and the token issued for the stored name `alice`. |
| AuthService.LoginUpToCollation | auth/auth_service.py:110-122 | Two usernames with the same collation key get the same login answer for the same password, token included. |
| AuthService.DeletedUserCannotLogIn | auth/auth_service.py:198-199 | Once a user's row is deleted, logging in with that username gives the generic 401, whatever the password. |
| Scenario.AliceSession | borrow/borrow_service.py:60-106 | Alice signs up (201) and logs in (200, role `user`). Her token then borrows an available book (201), after which the book is unavailable. A second borrow of it gives 404 "Book not available", and her return gives 200. Afterwards the book is available again and the borrows table is as before. |

## Left out

- `app.py`, the HTTP gateway (forms, sessions, templates, flash messages), is not part of this model. Its few checks repeat the backend's checks.
- JWT signing and verification and werkzeug password hashing are foreign libraries. They are parameters, and lemmas state their properties as assumptions (`RoundTrips`, `Compact`, `Accepts`). Token claims are always an integer `user_id` with a string `username` and `role`. A token without a `user_id` or `role` claim is not modelled; in the borrow service it raises a KeyError at borrow/borrow_service.py:49. A token whose `user_id` is not an integer is not modelled either; there the value would go on to the `not user_id` test at line 71 and the comparison at line 73.
- SQLAlchemy and MySQL are left out except for three things: the column constraints of `books`, the username collation, and how MySQL compares the integer id column with a float or boolean parameter (`BorrowService.ColumnKey`). The rest is left out: sessions, connection handling, `db.create_all`, logging and the `before_request` hooks. Each handler is one atomic step on in-memory tables.
- The three services share one MySQL schema, but each class holds its own copy of the tables it uses. The model does not tie `BorrowDb.books` to `BookDb.books` or `BorrowDb.users` to `UserDb.users`. The one-loan invariant is proved only for borrow and return, because `update_book` can set `available` freely and `delete_book` can orphan loans.
- Concurrency is left out, including the check-then-act race between two simultaneous borrows of one book. The model is sequential.
- The exception handlers that turn a failing listing query into 500 (borrow/borrow_service.py:137-139, 168-170) are not modelled, because the in-memory query cannot fail.
- Response lists whose query has no ORDER BY (book and user listings, `GET /borrowed`) are modelled as maps, or as multisets of rows, without an order. Loans with equal dates may appear in any order in the admin report.
- Dates are integer seconds. The ISO formatting of `borrow_date` is left out.
- `time.sleep` itself is left out; only the delays are returned. The calls of `create_sample_admin` at import time and in `__main__` (auth/auth_service.py:76, 204) are left out too.
- Request bodies that are not JSON objects are left out: arrays, strings and numbers, and the 400/415 answers Flask gives for a missing or malformed body.
- JSON arrays and objects as field values are left out.
- BorrowService.BorrowDb.BorrowBook: a string `book_id` such as "3" selects no row here. MySQL would coerce it to 3.
- BookService.BookDb.AddBook: the length limits of the string columns are not modelled, nor the conversion MySQL applies to a number or boolean written to a string column. Such values are stored as sent.
- BookService.BookDb.UpdateBook: as for AddBook, length limits and the conversion of non-string values in string columns are not modelled.
- Numbers are exact reals. The rounding of JSON numbers to IEEE doubles is not modelled, so an id such as `1.0000000000000001` counts as a fraction here.
- Usernames: the collation is a parameter. The rules of MySQL's utf8mb4 default collation itself (case, accents, trailing spaces) are not modelled.
- AuthService.UserDb.CreateUser: the auth bodies carry strings only. A non-string `password`, which makes `len` raise, or a non-string username or role, is not modelled.
- AuthService.UserDb.CreateSampleAdmin: a negative `base_delay`, which would make `time.sleep` raise, is not modelled.
- AuthService.SetPassword: the ORM object that `set_password` updates in place is modelled as a value, because every caller builds a fresh row just before inserting it.
- The placeholder `request.args.get('user_id')` branch of `get_books` (book/book_service.py:66-68) has no effect and is not modelled.
