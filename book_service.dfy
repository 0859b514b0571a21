/** The book service: the `books` catalogue behind the Authorization gate. */
module BookService {
  import opened Common
  import opened Tokens

  datatype Body =
    | Error(message: string)
    /** No JSON: Flask's or Werkzeug's HTML error page with this heading, for
        an exception the handler does not catch or an `abort` it calls. */
    | ErrorPage(heading: string)
    | Message(message: string)
    | BookList(books: map<int, Book>)
    | BookAdded(message: string, id: int, title: Json, author: Json, authorBio: Json, imageUrl: Json, bookUrl: Json)
    | BookUpdated(message: string, id: int, book: Book)
    | BookDetail(id: int, book: Book)

  datatype Response = Response(status: int, body: Body)

  /** The response of a gate that refused. */
  function Refusal(g: Gate): Response
    requires g.Denied?
  {
    Response(g.status, Error(g.message))
  }

  /** The books `GET /books` lists: those with `available=True`. */
  function AvailableBooks(books: map<int, Book>): (r: map<int, Book>)
    ensures forall id :: id in r <==> id in books && IsAvailable(books[id])
    ensures forall id :: id in r ==> r[id] == books[id]
  {
    map id | id in books && IsAvailable(books[id]) :: books[id]
  }

  /** `GET /books`: any token that passes the gate sees exactly the
      available books, each with its stored columns. */
  function GetBooks(books: map<int, Book>, header: Option<string>, codec: TokenCodec, now: int): (r: Response)
    ensures Authenticate(header, codec, now).Denied? ==> r.status == 422 && r == Refusal(Authenticate(header, codec, now))
    ensures Authenticate(header, codec, now).Admitted? ==>
              && r.status == 200 && r.body.BookList?
              && (forall id :: id in r.body.books <==> id in books && IsAvailable(books[id]))
              && (forall id :: id in r.body.books ==> r.body.books[id] == books[id])
  {
    var g := Authenticate(header, codec, now);
    if g.Denied? then Refusal(g) else Response(200, BookList(AvailableBooks(books)))
  }

  /** `GET /books/all`: admins see every book; other roles get 403. */
  function GetAllBooks(books: map<int, Book>, header: Option<string>, codec: TokenCodec, now: int): (r: Response)
    ensures AuthenticateAdmin(header, codec, now).Denied? ==> r == Refusal(AuthenticateAdmin(header, codec, now))
    ensures Authenticate(header, codec, now).Admitted? && Authenticate(header, codec, now).claims.role != "admin" ==>
              r == Response(403, Error(ADMIN_REQUIRED))
    ensures AuthenticateAdmin(header, codec, now).Admitted? ==> r == Response(200, BookList(books))
  {
    var g := AuthenticateAdmin(header, codec, now);
    if g.Denied? then Refusal(g) else Response(200, BookList(books))
  }

  /** `GET /books/<id>`: the stored row as it is, or 404 for a missing id;
      no role is required. */
  function GetBook(books: map<int, Book>, header: Option<string>, bookId: int, codec: TokenCodec, now: int): (r: Response)
    ensures Authenticate(header, codec, now).Denied? ==> r == Refusal(Authenticate(header, codec, now))
    ensures Authenticate(header, codec, now).Admitted? ==>
              r == if bookId in books then Response(200, BookDetail(bookId, books[bookId]))
                   else Response(404, Error("Book not found"))
  {
    var g := Authenticate(header, codec, now);
    if g.Denied? then Refusal(g)
    else if bookId !in books then Response(404, Error("Book not found"))
    else Response(200, BookDetail(bookId, books[bookId]))
  }

  const REQUIRED_FIELDS: seq<string> := ["title", "author", "book_url"]

  /** `[k for k in required_fields if k not in data]`. */
  function MissingFields(data: map<string, Json>, fields: seq<string>): (m: seq<string>)
    ensures forall k :: k in m <==> k in fields && k !in data
    ensures |m| <= |fields|
  {
    if fields == [] then []
    else if fields[0] in data then MissingFields(data, fields[1..])
    else [fields[0]] + MissingFields(data, fields[1..])
  }

  function MissingFieldsMessage(missing: seq<string>): string {
    "Missing required fields: " + Join(missing, ", ") + " (also provide author_bio, image_url)"
  }

  /** The 422 message names the missing fields in the order title, author,
      book_url. */
  lemma MissingRequiredFieldsInOrder(data: map<string, Json>)
    ensures MissingFields(data, REQUIRED_FIELDS)
         == (if "title" in data then [] else ["title"])
          + (if "author" in data then [] else ["author"])
          + (if "book_url" in data then [] else ["book_url"])
  {
    var rest := ["author", "book_url"];
    assert REQUIRED_FIELDS[1..] == rest && rest[1..] == ["book_url"] && ["book_url"][1..] == [];
    assert MissingFields(data, ["book_url"]) == if "book_url" in data then [] else ["book_url"];
    assert MissingFields(data, rest)
        == (if "author" in data then [] else ["author"]) + MissingFields(data, ["book_url"]);
  }

  /** The row `add_book` inserts: the three required columns as sent,
      `author_bio` and `image_url` defaulting to "" and `available` true. */
  function NewBook(data: map<string, Json>): (b: Book)
    requires "title" in data && "author" in data && "book_url" in data
    ensures IsAvailable(b)
    ensures b.title == data["title"] && b.author == data["author"] && b.bookUrl == data["book_url"]
    ensures b.authorBio == (if "author_bio" in data then data["author_bio"] else JStr(""))
    ensures b.imageUrl == (if "image_url" in data then data["image_url"] else JStr(""))
  {
    Book(data["title"], data["author"], Lookup(data, "author_bio", JStr("")),
         Lookup(data, "image_url", JStr("")), data["book_url"], JBool(true))
  }

  /** The six columns `update_book` may overwrite, with their body keys. */
  datatype Field = Title | Author | AuthorBio | ImageUrl | BookUrl | Available {
    function Key(): string {
      match this
      case Title => "title"
      case Author => "author"
      case AuthorBio => "author_bio"
      case ImageUrl => "image_url"
      case BookUrl => "book_url"
      case Available => "available"
    }
  }

  function Get(b: Book, f: Field): Json {
    match f
    case Title => b.title
    case Author => b.author
    case AuthorBio => b.authorBio
    case ImageUrl => b.imageUrl
    case BookUrl => b.bookUrl
    case Available => b.available
  }

  /** `if '<key>' in data: book.<column> = data['<key>']` for one column. */
  function Assign(b: Book, f: Field, data: map<string, Json>): (r: Book)
    ensures Get(r, f) == if f.Key() in data then data[f.Key()] else Get(b, f)
    ensures forall g :: g != f ==> Get(r, g) == Get(b, g)
  {
    if f.Key() !in data then b
    else
      var v := data[f.Key()];
      match f
      case Title => b.(title := v)
      case Author => b.(author := v)
      case AuthorBio => b.(authorBio := v)
      case ImageUrl => b.(imageUrl := v)
      case BookUrl => b.(bookUrl := v)
      case Available => b.(available := v)
  }

  /** The partial-field merge of `update_book`, column by column. */
  function Merge(b: Book, data: map<string, Json>): (r: Book)
    ensures forall f: Field :: Get(r, f) == if f.Key() in data then data[f.Key()] else Get(b, f)
  {
    var b1 := Assign(b, Title, data);
    var b2 := Assign(b1, Author, data);
    var b3 := Assign(b2, AuthorBio, data);
    var b4 := Assign(b3, ImageUrl, data);
    var b5 := Assign(b4, BookUrl, data);
    Assign(b5, Available, data)
  }

  /** Applying the same body twice merges as applying it once. */
  lemma MergeIdempotent(b: Book, data: map<string, Json>)
    ensures Merge(Merge(b, data), data) == Merge(b, data)
  {
  }

  /** A body naming none of the six columns leaves the row as it was. */
  lemma MergeUnknownKeys(b: Book, data: map<string, Json>)
    requires forall f: Field :: f.Key() !in data
    ensures Merge(b, data) == b
  {
  }

  /** A value SQLAlchemy's Boolean type binds: null, true, false, or a number
      equal to 0 or 1; anything else raises when the session flushes. */
  predicate BooleanBindable(v: Json) {
    match v
    case JNull => true
    case JBool(_) => true
    case JInt(i) => i == 0 || i == 1
    case JNum(x) => x == 0.0 || x == 1.0
    case JStr(_) => false
  }

  /** The value the Boolean column holds, and reads back, once `v` is written. */
  function AsBoolean(v: Json): (w: Json)
    requires BooleanBindable(v)
    ensures w.JNull? <==> v.JNull?
    ensures w == JBool(true) <==> v == JBool(true) || v == JInt(1) || v == JNum(1.0)
    ensures w == JBool(false) <==> v == JBool(false) || v == JInt(0) || v == JNum(0.0)
  {
    match v
    case JNull => JNull
    case JBool(b) => JBool(b)
    case JInt(i) => JBool(i == 1)
    case JNum(x) => JBool(x == 1.0)
  }

  /** A row the commit can write: the NOT NULL columns title, author and
      book_url are not null, and `available` binds as a boolean. */
  predicate Storable(b: Book) {
    b.title != JNull && b.author != JNull && b.bookUrl != JNull && BooleanBindable(b.available)
  }

  /** A row as the table holds it: written, and `available` null or a boolean. */
  predicate Persisted(b: Book) {
    b.title != JNull && b.author != JNull && b.bookUrl != JNull && (b.available.JNull? || b.available.JBool?)
  }

  /** The row the table holds once `b` is committed, as the handler reads it
      back: every column as written, `available` coerced to a boolean. */
  function Stored(b: Book): (s: Book)
    requires Storable(b)
    ensures Persisted(s)
    ensures forall f: Field :: f != Available ==> Get(s, f) == Get(b, f)
    ensures s.available == AsBoolean(b.available)
  {
    b.(available := AsBoolean(b.available))
  }

  /** A row the table already holds is stored as it is. */
  lemma StoredPersisted(b: Book)
    requires Persisted(b)
    ensures Storable(b) && Stored(b) == b
  {
  }

  /** Committing the same update twice leaves the row as one commit left it. */
  lemma StoredMergeIdempotent(b: Book, data: map<string, Json>)
    requires Storable(Merge(b, data))
    ensures Storable(Merge(Stored(Merge(b, data)), data))
    ensures Stored(Merge(Stored(Merge(b, data)), data)) == Stored(Merge(b, data))
  {
  }

  /** The `books` table and its auto-increment counter. */
  class BookDb {
    var books: map<int, Book>
    var nextId: int

    /** Book ids are positive and below the auto-increment counter, and every
        row is one the table can hold. */
    ghost predicate Valid()
      reads this
    {
      && 1 <= nextId
      && (forall k :: k in books ==> 1 <= k < nextId)
      && (forall k :: k in books ==> Persisted(books[k]))
    }

    constructor (books: map<int, Book>, nextId: int)
      requires 1 <= nextId && (forall k :: k in books ==> 1 <= k < nextId)
      requires forall k :: k in books ==> Persisted(books[k])
      ensures Valid() && this.books == books && this.nextId == nextId
    {
      this.books := books;
      this.nextId := nextId;
    }

    /** `POST /books` (admin): a null body is the TypeError Flask answers
        with 500; a body without title, author or book_url is 422 naming
        the missing ones; a null title, author or book_url fails the commit
        with 500; otherwise one new row. */
    method AddBook(header: Option<string>, body: JsonBody, codec: TokenCodec, now: int) returns (r: Response)
      requires Valid()
      modifies this
      ensures Valid()
      ensures
        var g := AuthenticateAdmin(header, codec, now);
        if g.Denied? then
          r == Refusal(g) && unchanged(this)
        else if body.None? then
          r == Response(500, ErrorPage("Internal Server Error")) && unchanged(this)
        else if MissingFields(body.value, REQUIRED_FIELDS) != [] then
          r == Response(422, Error(MissingFieldsMessage(MissingFields(body.value, REQUIRED_FIELDS)))) && unchanged(this)
        else if !Storable(NewBook(body.value)) then
          r == Response(500, ErrorPage("Internal Server Error")) && unchanged(this)
        else
          var b := NewBook(body.value);
          && old(nextId) !in old(books)
          && books == old(books)[old(nextId) := b]
          && nextId == old(nextId) + 1
          && r == Response(201, BookAdded("Book added", old(nextId), b.title, b.author, b.authorBio, b.imageUrl, b.bookUrl))
    {
      var g := AuthenticateAdmin(header, codec, now);
      if g.Denied? {
        return Refusal(g);
      }
      if body.None? {
        return Response(500, ErrorPage("Internal Server Error"));
      }
      var data := body.value;
      var missing := MissingFields(data, REQUIRED_FIELDS);
      if missing != [] {
        return Response(422, Error(MissingFieldsMessage(missing)));
      }
      assert "title" in data && "author" in data && "book_url" in data by {
        assert "title" !in missing && "author" !in missing && "book_url" !in missing;
      }
      var b := NewBook(data);
      if !Storable(b) {
        return Response(500, ErrorPage("Internal Server Error"));
      }
      var id := nextId;
      books := books[id := b];
      nextId := nextId + 1;
      r := Response(201, BookAdded("Book added", id, b.title, b.author, b.authorBio, b.imageUrl, b.bookUrl));
    }

    /** `DELETE /books/<id>` (admin): `get_or_404` aborts with 404 for a
        missing id; otherwise exactly that row goes. */
    method DeleteBook(header: Option<string>, bookId: int, codec: TokenCodec, now: int) returns (r: Response)
      requires Valid()
      modifies this
      ensures Valid()
      ensures
        var g := AuthenticateAdmin(header, codec, now);
        if g.Denied? then
          r == Refusal(g) && unchanged(this)
        else if bookId !in old(books) then
          r == Response(404, ErrorPage("Not Found")) && unchanged(this)
        else
          && r == Response(200, Message("Book deleted"))
          && books == old(books) - {bookId}
          && nextId == old(nextId)
    {
      var g := AuthenticateAdmin(header, codec, now);
      if g.Denied? {
        return Refusal(g);
      }
      if bookId !in books {
        return Response(404, ErrorPage("Not Found"));
      }
      books := books - {bookId};
      r := Response(200, Message("Book deleted"));
    }

    /** `PUT /books/<id>` (admin): 404 for a missing id comes before the body
        is looked at, 422 for a null or empty body; otherwise the row takes
        every column whose key the body has, and the commit either stores it
        (`available` coerced to a boolean) or fails with 500 on a null
        required column or an `available` the Boolean type refuses. */
    method UpdateBook(header: Option<string>, bookId: int, body: JsonBody, codec: TokenCodec, now: int) returns (r: Response)
      requires Valid()
      modifies this
      ensures Valid()
      ensures
        var g := AuthenticateAdmin(header, codec, now);
        if g.Denied? then
          r == Refusal(g) && unchanged(this)
        else if bookId !in old(books) then
          r == Response(404, Error("Book not found")) && unchanged(this)
        else if body.None? || body.value == map[] then
          r == Response(422, Error("No data provided")) && unchanged(this)
        else
          var b := Merge(old(books)[bookId], body.value);
          if !Storable(b) then
            r == Response(500, ErrorPage("Internal Server Error")) && unchanged(this)
          else
            && books == old(books)[bookId := Stored(b)]
            && nextId == old(nextId)
            && r == Response(200, BookUpdated("Book updated", bookId, Stored(b)))
    {
      var g := AuthenticateAdmin(header, codec, now);
      if g.Denied? {
        return Refusal(g);
      }
      if bookId !in books {
        return Response(404, Error("Book not found"));
      }
      if body.None? || body.value == map[] {
        return Response(422, Error("No data provided"));
      }
      var data := body.value;
      var book := books[bookId];
      book := Assign(book, Title, data);
      book := Assign(book, Author, data);
      book := Assign(book, AuthorBio, data);
      book := Assign(book, ImageUrl, data);
      book := Assign(book, BookUrl, data);
      book := Assign(book, Available, data);
      if !Storable(book) {
        return Response(500, ErrorPage("Internal Server Error"));
      }
      books := books[bookId := Stored(book)];
      r := Response(200, BookUpdated("Book updated", bookId, books[bookId]));
    }
  }

  /** Re-sending an update that committed leaves the table as one update
      left it. */
  lemma UpdateTwiceIsUpdateOnce(books: map<int, Book>, bookId: int, data: map<string, Json>)
    requires bookId in books && Storable(Merge(books[bookId], data))
    ensures var once := books[bookId := Stored(Merge(books[bookId], data))];
            && Storable(Merge(once[bookId], data))
            && once[bookId := Stored(Merge(once[bookId], data))] == once
  {
    StoredMergeIdempotent(books[bookId], data);
  }
}
