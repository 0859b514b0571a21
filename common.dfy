/** Values shared by the three backend services: optional values, the JSON
    scalars a request body carries, the string operations the handlers use on
    headers, and the row of the `books` table that both the book and the borrow
    service map. */
module Common {

  datatype Option<+T> = None | Some(value: T) {
    /** Python's `dict.get(key, default)` once the lookup is done. */
    function GetOr(default: T): T {
      match this
      case Some(v) => v
      case None => default
    }
  }

  /** A JSON value as Flask's `request.get_json()` hands it to a handler:
      a number without fraction or exponent is a Python int, any other number
      a float, modelled as an exact real (objects and arrays as field values
      are not modelled). */
  datatype Json = JNull | JBool(b: bool) | JInt(i: int) | JNum(r: real) | JStr(s: string)

  /** A decoded JSON request body; `None` is a body that decodes to `null`. */
  type JsonBody = Option<map<string, Json>>

  /** Python's `dict.get(key, default)`. */
  function Lookup(data: map<string, Json>, key: string, default: Json): Json {
    if key in data then data[key] else default
  }

  /** `s.startswith(p)`. */
  predicate StartsWith(s: string, p: string) {
    |p| <= |s| && s[..|p|] == p
  }

  /** `p in s` for strings: p occurs somewhere in s. */
  ghost predicate Occurs(p: string, s: string) {
    exists i :: 0 <= i && OccursAt(p, s, i)
  }

  /** p occurs in s starting at index i. */
  predicate OccursAt(p: string, s: string, i: int) {
    0 <= i && i + |p| <= |s| && s[i..i + |p|] == p
  }

  /** `s.replace(p, "")`: scans s from the left and drops every
      non-overlapping occurrence of p; the text that remains is not rescanned. */
  function RemoveAll(s: string, p: string): (r: string)
    requires p != ""
    ensures |r| <= |s|
    decreases |s|
  {
    if |s| < |p| then s
    else if s[..|p|] == p then RemoveAll(s[|p|..], p)
    else [s[0]] + RemoveAll(s[1..], p)
  }

  /** Removing a pattern that does not occur leaves the string as it was. */
  lemma {:induction false} RemoveAllAbsent(s: string, p: string)
    requires p != "" && !Occurs(p, s)
    ensures RemoveAll(s, p) == s
    decreases |s|
  {
    if |s| >= |p| {
      assert !OccursAt(p, s, 0);
      assert s[0..0 + |p|] == s[..|p|];
      assert !Occurs(p, s[1..]) by {
        forall i | 0 <= i
          ensures !OccursAt(p, s[1..], i)
        {
          if i + |p| <= |s[1..]| {
            assert s[1..][i..i + |p|] == s[i + 1..i + 1 + |p|];
            assert !OccursAt(p, s, i + 1);
          }
        }
      }
      RemoveAllAbsent(s[1..], p);
      assert [s[0]] + s[1..] == s;
    }
  }

  /** Removing a prefix occurrence: the scan skips it and carries on. */
  lemma RemoveAllPrefix(p: string, t: string)
    requires p != ""
    ensures RemoveAll(p + t, p) == RemoveAll(t, p)
  {
  }

  /** `sep.join(parts)`: the parts in order with `sep` between each two
      neighbours; the last part follows the join of the others and one `sep`. */
  function Join(parts: seq<string>, sep: string): (r: string)
    ensures parts == [] ==> r == ""
    ensures |parts| == 1 ==> r == parts[0]
    ensures |parts| >= 2 ==> r == Join(parts[..|parts| - 1], sep) + sep + parts[|parts| - 1]
    decreases |parts|
  {
    if parts == [] then ""
    else if |parts| == 1 then parts[0]
    else
      assert parts[1..][..|parts| - 2] == parts[..|parts| - 1][1..];
      assert parts[..|parts| - 1][0] == parts[0];
      parts[0] + sep + Join(parts[1..], sep)
  }

  /** A row of the `books` table. Columns keep the JSON value the client sent
      for them (book/book_service.py:20-28, borrow/borrow_service.py:29-37). */
  datatype Book = Book(
    title: Json,
    author: Json,
    authorBio: Json,
    imageUrl: Json,
    bookUrl: Json,
    available: Json)

  /** `available=True` in a query filter. */
  predicate IsAvailable(b: Book) {
    b.available == JBool(true)
  }
}
