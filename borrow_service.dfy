/** The borrow service: loans of books, kept in a `borrows` table next to the
    `books` and `users` tables it reads and, for `available`, writes. */
module BorrowService {
  import opened Common
  import opened Tokens

  /** A row of the `borrows` table; `borrowDate` is the column default, the
      time of the insert (borrow/borrow_service.py:22-27). */
  datatype Loan = Loan(userId: int, bookId: int, borrowDate: int)

  /** The columns of the `users` table this service joins against
      (borrow/borrow_service.py:40-44). */
  datatype Member = Member(username: string, role: string)

  /** An entry of `GET /borrowed` (borrow/borrow_service.py:125-134). */
  datatype BorrowedBook = BorrowedBook(
    id: int, bookId: int, title: Json, author: Json, authorBio: Json,
    imageUrl: Json, bookUrl: Json, borrowDate: int)

  /** An entry of `GET /borrows/all` (borrow/borrow_service.py:157-165). */
  datatype LoanReport = LoanReport(
    borrowId: int, userId: int, username: string, title: Json, author: Json,
    borrowDate: int, available: Json)

  datatype Body =
    | Error(message: string)
    | Message(message: string)
    | Borrowed(message: string, borrowId: int)
    | BorrowedBooks(books: seq<BorrowedBook>)
    | AllBorrows(borrows: seq<LoanReport>)

  datatype Response = Response(status: int, body: Body)

  /** `request.headers.get('Authorization', '').replace('Bearer ', '')`:
      every "Bearer " goes, and nothing checks that the header started with it. */
  function BearerToken(header: Option<string>): (t: string)
    ensures header.None? ==> t == ""
    ensures |t| <= |header.GetOr("")|
  {
    RemoveAll(header.GetOr(""), BEARER)
  }

  /** The header "Bearer <t>" and the bare header "<t>" give the same token. */
  lemma BearerPrefixOptional(t: string)
    requires ' ' !in t
    ensures BearerToken(Some(BEARER + t)) == t
    ensures BearerToken(Some(t)) == t
  {
    RemoveAllPrefix(BEARER, t);
    SpaceFreeHasNoBearer(t);
    RemoveAllAbsent(t, BEARER);
  }

  /** A leading "Bearer " makes no difference to the token, whatever follows
      it; in particular the header "Bearer " alone leaves an empty token. */
  lemma BearerRepeated(t: string)
    ensures BearerToken(Some(BEARER + t)) == BearerToken(Some(t))
  {
    RemoveAllPrefix(BEARER, t);
  }

  /** The user id and role a token carries. */
  datatype Identity = Identity(userId: int, role: string)

  /** `get_user_id_from_token`: `(user_id, role)` of a token that decodes,
      `(None, None)` otherwise. */
  function UserIdFromToken(codec: TokenCodec, token: string, now: int): (id: Option<Identity>)
    ensures id.Some? <==> Decode(codec, token, now).Some?
    ensures id.Some? ==>
              id.value.userId == Decode(codec, token, now).value.userId &&
              id.value.role == Decode(codec, token, now).value.role
  {
    match Decode(codec, token, now)
    case None => None
    case Some(c) => Some(Identity(c.userId, c.role))
  }

  /** Passes `if not user_id`: a decoded, non-zero user id. */
  predicate SignedIn(id: Option<Identity>) {
    id.Some? && id.value.userId != 0
  }

  /** Passes `role != 'admin'`; a token that did not decode has role None. */
  predicate IsAdmin(id: Option<Identity>) {
    id.Some? && id.value.role == "admin"
  }

  /** Python's `n == v` for an int and a JSON value: a bool is the int 0 or
      1, and a float equals n when it has the same value. */
  predicate PyIntEquals(n: int, v: Json): (eq: bool)
    ensures eq ==> !v.JNull? && !v.JStr?
    ensures v == JBool(true) ==> (eq <==> n == 1)
  {
    match v
    case JInt(i) => i == n
    case JBool(b) => (if b then 1 else 0) == n
    case JNum(x) => x == n as real
    case _ => false
  }

  /** The key a JSON value selects in MySQL's integer id column: a number
      with a fraction matches no id; null and strings select no row. */
  function ColumnKey(v: Json): (key: Option<int>)
    ensures key.Some? ==> PyIntEquals(key.value, v)
    ensures forall n :: PyIntEquals(n, v) ==> key == Some(n)
  {
    match v
    case JInt(i) => Some(i)
    case JBool(b) => Some(if b then 1 else 0)
    case JNum(x) => if x.Floor as real == x then Some(x.Floor) else None
    case _ => None
  }

  /** A float body id such as `1.0` passes the self-only check for the user
      with that value and asks for the book with that value; one with a
      fraction, such as `2.5`, equals no user id and asks for no book. */
  lemma FloatIds(n: int, x: real)
    ensures PyIntEquals(n, JNum(x)) <==> x == n as real
    ensures ColumnKey(JNum(x)) == Some(n) <==> x == n as real
  {
  }

  /** `Book.query.filter_by(id=key, available=True).first()` finds a row. */
  predicate Lendable(books: map<int, Book>, key: Option<int>) {
    key.Some? && key.value in books && IsAvailable(books[key.value])
  }

  /** The body lacks `user_id` or `book_id` (or is null or empty). */
  predicate MissingLoanFields(body: JsonBody) {
    body.None? || !("user_id" in body.value && "book_id" in body.value)
  }

  /** Book b is referenced by some row of the borrows table. */
  ghost predicate OnLoan(borrows: map<int, Loan>, b: int) {
    exists k :: k in borrows && borrows[k].bookId == b
  }

  /** The invariant the borrow/return pair keeps: a book of the table is
      unavailable exactly when a loan references it, and no book is
      referenced by two loans. */
  ghost predicate OneLoanPerUnavailableBook(borrows: map<int, Loan>, books: map<int, Book>) {
    && (forall b :: b in books ==> (!IsAvailable(books[b]) <==> OnLoan(borrows, b)))
    && (forall k1, k2 :: k1 in borrows && k2 in borrows && borrows[k1].bookId == borrows[k2].bookId ==> k1 == k2)
  }

  /** With no loans and every book available, the invariant holds. */
  lemma NoLoansInvariant(books: map<int, Book>)
    requires forall b :: b in books ==> IsAvailable(books[b])
    ensures OneLoanPerUnavailableBook(map[], books)
  {
  }

  /** A successful borrow keeps the invariant. */
  lemma BorrowKeepsInvariant(borrows: map<int, Loan>, books: map<int, Book>, id: int, loan: Loan)
    requires OneLoanPerUnavailableBook(borrows, books)
    requires id !in borrows
    requires loan.bookId in books && IsAvailable(books[loan.bookId])
    ensures OneLoanPerUnavailableBook(
      borrows[id := loan],
      books[loan.bookId := books[loan.bookId].(available := JBool(false))])
  {
    var borrows', books' := borrows[id := loan], books[loan.bookId := books[loan.bookId].(available := JBool(false))];
    assert !OnLoan(borrows, loan.bookId);
    forall b | b in books'
      ensures !IsAvailable(books'[b]) <==> OnLoan(borrows', b)
    {
      if b == loan.bookId {
        assert borrows'[id].bookId == b;
      } else {
        if OnLoan(borrows, b) {
          var k :| k in borrows && borrows[k].bookId == b;
          assert borrows'[k].bookId == b;
        }
        if OnLoan(borrows', b) {
          var k :| k in borrows' && borrows'[k].bookId == b;
          assert k != id && borrows[k].bookId == b;
        }
      }
    }
  }

  /** A successful return keeps the invariant. */
  lemma ReturnKeepsInvariant(borrows: map<int, Loan>, books: map<int, Book>, id: int)
    requires OneLoanPerUnavailableBook(borrows, books)
    requires id in borrows
    ensures var b := borrows[id].bookId;
      OneLoanPerUnavailableBook(
        borrows - {id},
        if b in books then books[b := books[b].(available := JBool(true))] else books)
  {
    var b := borrows[id].bookId;
    var borrows' := borrows - {id};
    var books' := if b in books then books[b := books[b].(available := JBool(true))] else books;
    assert !OnLoan(borrows', b) by {
      forall k | k in borrows' ensures borrows'[k].bookId != b {
        assert k != id;
      }
    }
    forall c | c in books'
      ensures !IsAvailable(books'[c]) <==> OnLoan(borrows', c)
    {
      if c != b {
        if OnLoan(borrows, c) {
          var k :| k in borrows && borrows[k].bookId == c;
          assert k != id && borrows'[k].bookId == c;
        }
        if OnLoan(borrows', c) {
          var k :| k in borrows' && borrows'[k].bookId == c;
          assert borrows[k].bookId == c;
        }
      }
    }
  }

  /** The three tables the borrow service works on, with the table's
      auto-increment counter for new borrow ids. */
  class BorrowDb {
    var borrows: map<int, Loan>
    var books: map<int, Book>
    var users: map<int, Member>
    var nextId: int

    /** Borrow ids are positive and below the auto-increment counter, and
        every book's Boolean `available` column holds null, true or false. */
    ghost predicate Valid()
      reads this
    {
      && 1 <= nextId
      && (forall k :: k in borrows ==> 1 <= k < nextId)
      && (forall b :: b in books ==> books[b].available.JNull? || books[b].available.JBool?)
    }

    /** A database with the given books and users and no loans yet; when
        every book is available, the one-loan invariant holds from the start. */
    constructor (books: map<int, Book>, users: map<int, Member>)
      requires forall b :: b in books ==> books[b].available.JNull? || books[b].available.JBool?
      ensures Valid()
      ensures this.borrows == map[] && this.books == books && this.users == users && nextId == 1
      ensures (forall b :: b in books ==> IsAvailable(books[b])) ==> OneLoanPerUnavailableBook(this.borrows, this.books)
    {
      this.borrows := map[];
      this.books := books;
      this.users := users;
      nextId := 1;
      if forall b :: b in books ==> IsAvailable(books[b]) {
        NoLoansInvariant(books);
      }
    }

    /** `POST /borrow`: the checks run in the order body fields, token,
        self-only, availability; only when all pass does one loan row appear
        and that book turn unavailable. */
    method BorrowBook(body: JsonBody, header: Option<string>, codec: TokenCodec, now: int) returns (r: Response)
      requires Valid()
      modifies this
      ensures Valid()
      ensures OneLoanPerUnavailableBook(old(borrows), old(books)) ==> OneLoanPerUnavailableBook(borrows, books)
      ensures
        var token := BearerToken(header);
        var id := UserIdFromToken(codec, token, now);
        if MissingLoanFields(body) then
          r == Response(422, Error("Missing user_id or book_id")) && unchanged(this)
        else if token == "" then
          r == Response(401, Error("Invalid or missing token")) && unchanged(this)
        else if !SignedIn(id) then
          r == Response(401, Error("Invalid token")) && unchanged(this)
        else if !PyIntEquals(id.value.userId, body.value["user_id"]) then
          r == Response(403, Error("Unauthorized")) && unchanged(this)
        else if !Lendable(old(books), ColumnKey(body.value["book_id"])) then
          r == Response(404, Error("Book not available")) && unchanged(this)
        else
          var key := ColumnKey(body.value["book_id"]).value;
          && r == Response(201, Borrowed("Book borrowed successfully", old(nextId)))
          && old(nextId) !in old(borrows)
          && borrows == old(borrows)[old(nextId) := Loan(id.value.userId, key, now)]
          && books == old(books)[key := old(books)[key].(available := JBool(false))]
          && users == old(users)
          && nextId == old(nextId) + 1
    {
      if MissingLoanFields(body) {
        return Response(422, Error("Missing user_id or book_id"));
      }
      var data := body.value;
      var token := BearerToken(header);
      if token == "" {
        return Response(401, Error("Invalid or missing token"));
      }
      var id := UserIdFromToken(codec, token, now);
      if !SignedIn(id) {
        return Response(401, Error("Invalid token"));
      }
      var userId := id.value.userId;
      if !PyIntEquals(userId, data["user_id"]) {
        return Response(403, Error("Unauthorized"));
      }
      var key := ColumnKey(data["book_id"]);
      if !Lendable(books, key) {
        return Response(404, Error("Book not available"));
      }
      var bookId := key.value;
      var loanId := nextId;
      if OneLoanPerUnavailableBook(borrows, books) {
        BorrowKeepsInvariant(borrows, books, loanId, Loan(userId, bookId, now));
      }
      borrows := borrows[loanId := Loan(userId, bookId, now)];
      nextId := nextId + 1;
      books := books[bookId := books[bookId].(available := JBool(false))];
      r := Response(201, Borrowed("Book borrowed successfully", loanId));
    }

    /** `POST /return/<borrow_id>`: only the borrower may return a loan; the
        row goes and its book, if it still exists, is available again. */
    method ReturnBook(borrowId: int, header: Option<string>, codec: TokenCodec, now: int) returns (r: Response)
      requires Valid()
      modifies this
      ensures Valid()
      ensures OneLoanPerUnavailableBook(old(borrows), old(books)) ==> OneLoanPerUnavailableBook(borrows, books)
      ensures
        var token := BearerToken(header);
        var id := UserIdFromToken(codec, token, now);
        if token == "" then
          r == Response(401, Error("Missing token")) && unchanged(this)
        else if !SignedIn(id) then
          r == Response(401, Error("Invalid token")) && unchanged(this)
        else if borrowId !in old(borrows) then
          r == Response(404, Error("Borrow not found")) && unchanged(this)
        else if old(borrows)[borrowId].userId != id.value.userId then
          r == Response(403, Error("Unauthorized to return this book")) && unchanged(this)
        else
          var b := old(borrows)[borrowId].bookId;
          && r == Response(200, Message("Book returned successfully"))
          && borrows == old(borrows) - {borrowId}
          && books == (if b in old(books) then old(books)[b := old(books)[b].(available := JBool(true))] else old(books))
          && users == old(users)
          && nextId == old(nextId)
    {
      var token := BearerToken(header);
      if token == "" {
        return Response(401, Error("Missing token"));
      }
      var id := UserIdFromToken(codec, token, now);
      if !SignedIn(id) {
        return Response(401, Error("Invalid token"));
      }
      if borrowId !in borrows {
        return Response(404, Error("Borrow not found"));
      }
      var loan := borrows[borrowId];
      if loan.userId != id.value.userId {
        return Response(403, Error("Unauthorized to return this book"));
      }
      if OneLoanPerUnavailableBook(borrows, books) {
        ReturnKeepsInvariant(borrows, books, borrowId);
      }
      if loan.bookId in books {
        books := books[loan.bookId := books[loan.bookId].(available := JBool(true))];
      }
      borrows := borrows - {borrowId};
      r := Response(200, Message("Book returned successfully"));
    }

    /** `GET /borrowed`: every loan of the caller whose book still exists,
        each exactly once, joined with its book's columns. An empty token is
        422 here, a bad one 401. Rows are scanned in id order. */
    method GetBorrowedBooks(header: Option<string>, codec: TokenCodec, now: int) returns (r: Response)
      requires Valid()
      ensures BearerToken(header) == "" ==> r == Response(422, Error("Missing Authorization header"))
      ensures BearerToken(header) != "" && !SignedIn(UserIdFromToken(codec, BearerToken(header), now)) ==>
                r == Response(401, Error("Invalid token"))
      ensures BearerToken(header) != "" && SignedIn(UserIdFromToken(codec, BearerToken(header), now)) ==>
                var userId := UserIdFromToken(codec, BearerToken(header), now).value.userId;
                && r.status == 200 && r.body.BorrowedBooks?
                && multiset(r.body.books) == multiset(set k | k in borrows && OwnJoined(borrows, books, userId, k) :: BorrowedEntry(borrows, books, k))
    {
      var token := BearerToken(header);
      if token == "" {
        return Response(422, Error("Missing Authorization header"));
      }
      var id := UserIdFromToken(codec, token, now);
      if !SignedIn(id) {
        return Response(401, Error("Invalid token"));
      }
      var userId := id.value.userId;
      var result: seq<BorrowedBook> := [];
      for k := 1 to nextId
        invariant multiset(result) == multiset(OwnEntries(borrows, books, userId, k))
      {
        OwnEntriesStep(borrows, books, userId, k);
        if OwnJoined(borrows, books, userId, k) {
          result := result + [BorrowedEntry(borrows, books, k)];
        }
      }
      assert OwnEntries(borrows, books, userId, nextId)
          == set k | k in borrows && OwnJoined(borrows, books, userId, k) :: BorrowedEntry(borrows, books, k);
      r := Response(200, BorrowedBooks(result));
    }

    /** `GET /borrows/all`: for an admin token, every loan whose book and user
        exist, each exactly once, most recent first. Anything but an admin
        token that decodes, an invalid token included, gets 403. */
    method GetAllBorrows(header: Option<string>, codec: TokenCodec, now: int) returns (r: Response)
      requires Valid()
      ensures BearerToken(header) == "" ==> r == Response(401, Error("Missing token"))
      ensures BearerToken(header) != "" && !IsAdmin(UserIdFromToken(codec, BearerToken(header), now)) ==>
                r == Response(403, Error("Admin access required"))
      ensures BearerToken(header) != "" && IsAdmin(UserIdFromToken(codec, BearerToken(header), now)) ==>
                && r.status == 200 && r.body.AllBorrows?
                && NewestFirst(r.body.borrows)
                && multiset(r.body.borrows) == multiset(set k | k in borrows && Joined(borrows, books, users, k) :: ReportEntry(borrows, books, users, k))
    {
      var token := BearerToken(header);
      if token == "" {
        return Response(401, Error("Missing token"));
      }
      var id := UserIdFromToken(codec, token, now);
      if !IsAdmin(id) {
        return Response(403, Error("Admin access required"));
      }
      var result: seq<LoanReport> := [];
      for k := 1 to nextId
        invariant NewestFirst(result)
        invariant multiset(result) == multiset(Reports(borrows, books, users, k))
      {
        ReportsStep(borrows, books, users, k);
        if Joined(borrows, books, users, k) {
          result := InsertNewestFirst(result, ReportEntry(borrows, books, users, k));
        }
      }
      assert Reports(borrows, books, users, nextId)
          == set k | k in borrows && Joined(borrows, books, users, k) :: ReportEntry(borrows, books, users, k);
      r := Response(200, AllBorrows(result));
    }
  }

  /** Loan k of user `userId` whose book still exists: a row of the join in
      `GET /borrowed`. */
  predicate OwnJoined(borrows: map<int, Loan>, books: map<int, Book>, userId: int, k: int) {
    k in borrows && borrows[k].userId == userId && borrows[k].bookId in books
  }

  function BorrowedEntry(borrows: map<int, Loan>, books: map<int, Book>, k: int): BorrowedBook
    requires k in borrows && borrows[k].bookId in books
  {
    var loan := borrows[k];
    var book := books[loan.bookId];
    BorrowedBook(k, loan.bookId, book.title, book.author, book.authorBio, book.imageUrl, book.bookUrl, loan.borrowDate)
  }

  /** The entries `GET /borrowed` lists for `userId`, from the loans with an
      id below `bound`. */
  ghost function OwnEntries(borrows: map<int, Loan>, books: map<int, Book>, userId: int, bound: int): set<BorrowedBook> {
    set k | k in borrows && k < bound && OwnJoined(borrows, books, userId, k) :: BorrowedEntry(borrows, books, k)
  }

  /** Raising the bound by one adds at most the entry of that id, and that
      entry is new. */
  lemma OwnEntriesStep(borrows: map<int, Loan>, books: map<int, Book>, userId: int, bound: int)
    ensures OwnEntries(borrows, books, userId, bound + 1)
         == if OwnJoined(borrows, books, userId, bound)
            then OwnEntries(borrows, books, userId, bound) + {BorrowedEntry(borrows, books, bound)}
            else OwnEntries(borrows, books, userId, bound)
    ensures OwnJoined(borrows, books, userId, bound) ==>
              BorrowedEntry(borrows, books, bound) !in OwnEntries(borrows, books, userId, bound)
  {
  }

  /** Loan k whose book and user both exist: a row of the join in
      `GET /borrows/all`. */
  predicate Joined(borrows: map<int, Loan>, books: map<int, Book>, users: map<int, Member>, k: int) {
    k in borrows && borrows[k].bookId in books && borrows[k].userId in users
  }

  function ReportEntry(borrows: map<int, Loan>, books: map<int, Book>, users: map<int, Member>, k: int): LoanReport
    requires Joined(borrows, books, users, k)
  {
    var loan := borrows[k];
    var book := books[loan.bookId];
    LoanReport(k, loan.userId, users[loan.userId].username, book.title, book.author, loan.borrowDate, book.available)
  }

  /** The rows `GET /borrows/all` reports, from the loans with an id below `bound`. */
  ghost function Reports(borrows: map<int, Loan>, books: map<int, Book>, users: map<int, Member>, bound: int): set<LoanReport> {
    set k | k in borrows && k < bound && Joined(borrows, books, users, k) :: ReportEntry(borrows, books, users, k)
  }

  lemma ReportsStep(borrows: map<int, Loan>, books: map<int, Book>, users: map<int, Member>, bound: int)
    ensures Reports(borrows, books, users, bound + 1)
         == if Joined(borrows, books, users, bound)
            then Reports(borrows, books, users, bound) + {ReportEntry(borrows, books, users, bound)}
            else Reports(borrows, books, users, bound)
    ensures Joined(borrows, books, users, bound) ==>
              ReportEntry(borrows, books, users, bound) !in Reports(borrows, books, users, bound)
  {
  }

  /** `order_by(desc(Borrow.borrow_date))`: most recent first. */
  predicate NewestFirst(rows: seq<LoanReport>) {
    forall i, j :: 0 <= i < j < |rows| ==> rows[i].borrowDate >= rows[j].borrowDate
  }

  /** Places x among rows, which are newest first, keeping them newest first;
      x goes after every row at least as recent. */
  method InsertNewestFirst(rows: seq<LoanReport>, x: LoanReport) returns (out: seq<LoanReport>)
    requires NewestFirst(rows)
    ensures NewestFirst(out)
    ensures multiset(out) == multiset(rows) + multiset{x}
  {
    var j := 0;
    while j < |rows| && rows[j].borrowDate >= x.borrowDate
      invariant 0 <= j <= |rows|
      invariant forall i :: 0 <= i < j ==> rows[i].borrowDate >= x.borrowDate
    {
      j := j + 1;
    }
    out := rows[..j] + [x] + rows[j..];
    SpliceNewestFirst(rows, j, x);
  }

  /** Splicing x in at the first row older than x keeps rows newest first
      and adds x once. */
  lemma SpliceNewestFirst(rows: seq<LoanReport>, j: int, x: LoanReport)
    requires NewestFirst(rows) && 0 <= j <= |rows|
    requires forall i :: 0 <= i < j ==> rows[i].borrowDate >= x.borrowDate
    requires j < |rows| ==> rows[j].borrowDate < x.borrowDate
    ensures NewestFirst(rows[..j] + [x] + rows[j..])
    ensures multiset(rows[..j] + [x] + rows[j..]) == multiset(rows) + multiset{x}
  {
    SpliceOrder(rows, j, x);
    assert rows == rows[..j] + rows[j..];
  }

  lemma SpliceOrder(rows: seq<LoanReport>, j: int, x: LoanReport)
    requires NewestFirst(rows) && 0 <= j <= |rows|
    requires forall i :: 0 <= i < j ==> rows[i].borrowDate >= x.borrowDate
    requires j < |rows| ==> rows[j].borrowDate < x.borrowDate
    ensures NewestFirst(rows[..j] + [x] + rows[j..])
  {
    var out := rows[..j] + [x] + rows[j..];
    forall a, b | 0 <= a < b < |out|
      ensures out[a].borrowDate >= out[b].borrowDate
    {
      var da := if a < j then rows[a].borrowDate else if a == j then x.borrowDate else rows[a - 1].borrowDate;
      var db := if b < j then rows[b].borrowDate else if b == j then x.borrowDate else rows[b - 1].borrowDate;
      assert out[a].borrowDate == da;
      assert out[b].borrowDate == db;
      if a == j && b > j {
        assert rows[j].borrowDate >= rows[b - 1].borrowDate;
      }
    }
  }


}
