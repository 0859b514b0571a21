/** One user's session across the auth and borrow services: sign up, log in,
    borrow a book, fail to borrow it again, return it. */
module Scenario {
  import opened Common
  import opened Tokens
  import AuthService
  import BorrowService

  /** Alice signs up with role `user`, logs in, and sends the token she gets
      as "Bearer <token>" to borrow book `bookId` twice and then return it.
      The first borrow succeeds and takes the book off the shelf, the second
      is refused with 404, and the return puts the book back and leaves the
      borrows table as it was. `afterFirst` is the books table right after
      the first borrow. */
  method AliceSession(users: AuthService.UserDb, loans: BorrowService.BorrowDb,
                      codec: TokenCodec, hasher: Hasher, bookId: int, now: int)
    returns (signup: AuthService.Response, login: AuthService.Response,
             first: BorrowService.Response, second: BorrowService.Response, back: BorrowService.Response,
             ghost afterFirst: map<int, Book>)
    requires users.Valid() && loans.Valid()
    requires codec.RoundTrips() && codec.Compact() && hasher.Accepts()
    requires !AuthService.UsernameTaken(users.users, "alice", users.collation)
    requires bookId in loans.books && IsAvailable(loans.books[bookId])
    modifies users, loans
    ensures signup == AuthService.Response(201, AuthService.Message("User  created successfully"))
    ensures login.status == 200 && login.body.LoggedIn? && login.body.role == "user"
    ensures first.status == 201 && first.body.Borrowed?
    ensures bookId in afterFirst && afterFirst[bookId].available == JBool(false)
    ensures second == BorrowService.Response(404, BorrowService.Error("Book not available"))
    ensures back == BorrowService.Response(200, BorrowService.Message("Book returned successfully"))
    ensures loans.books == old(loans.books)[bookId := old(loans.books)[bookId].(available := JBool(true))]
    ensures loans.borrows == old(loans.borrows)
  {
    var aliceId := users.nextId;
    signup := users.Signup(Some(map["username" := "alice", "password" := "pw123456", "role" := "user"]), hasher);
    AuthService.SignupThenLogin(old(users.users), users.collation, aliceId, "alice", "pw123456", "user", codec, hasher, now);
    login := AuthService.Login(users.users, users.collation, Some(map["username" := "alice", "password" := "pw123456"]), codec, hasher, now);

    var token := login.body.token;
    var header := Some(BEARER + token);
    assert token == Issue(codec, aliceId, "alice", "user", now);
    IssuedTokenLifetime(codec, aliceId, "alice", "user", now, now);
    BorrowService.BearerPrefixOptional(token);
    assert BorrowService.UserIdFromToken(codec, BorrowService.BearerToken(header), now)
        == Some(BorrowService.Identity(aliceId, "user"));

    var body: JsonBody := Some(map["user_id" := JInt(aliceId), "book_id" := JInt(bookId)]);
    first := loans.BorrowBook(body, header, codec, now);
    afterFirst := loans.books;
    second := loans.BorrowBook(body, header, codec, now);
    back := loans.ReturnBook(first.body.borrowId, header, codec, now);
  }
}
