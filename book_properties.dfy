/**
 * Properties that relate several controller operations: a created book can be
 * found and is listed, a deleted one cannot be found, and over any run of
 * requests against one directory listing no stored book carries an author that
 * the listing does not know, or a title the title rule refuses.
 */
module BookProperties {
  import opened Wrappers
  import opened Authors
  import opened Books
  import opened BookControl

  /** One state-changing request as the HTTP layer hands it to the controller. */
  datatype Request =
    | CreateRequest(book: Book)
    | UpdateRequest(id: int, book: Book)
    | DeleteRequest(id: int)

  /** The table after one request; refused requests leave it as it was. */
  function Apply(s: Store, authors: seq<Author>, req: Request): (r: Store)
    requires Invariant(s)
    ensures Invariant(r)
    ensures r.books.Keys <= s.books.Keys + {s.nextId}
  {
    match req
    case CreateRequest(book) => CreateIn(s, authors, book).store
    case UpdateRequest(id, book) => UpdateIn(s, authors, id, book).store
    case DeleteRequest(id) => DeleteIn(s, id)
  }

  /** The table after a run of requests, each validated against the same listing. */
  function Replay(s: Store, authors: seq<Author>, reqs: seq<Request>): (r: Store)
    requires Invariant(s)
    ensures Invariant(r)
    ensures s.nextId <= r.nextId
    decreases |reqs|
  {
    if |reqs| == 0 then s
    else Replay(Apply(s, authors, reqs[0]), authors, reqs[1..])
  }

  /** Every stored book names an author the listing knows. */
  predicate AuthorsKnown(s: Store, authors: seq<Author>) {
    forall id :: id in s.books ==> IsKnownAuthor(authors, s.books[id].author)
  }

  /** One request keeps every stored author known to the listing it is checked against. */
  lemma ApplyKeepsAuthorsKnown(s: Store, authors: seq<Author>, req: Request)
    requires Invariant(s) && AuthorsKnown(s, authors)
    ensures AuthorsKnown(Apply(s, authors, req), authors)
  {
  }

  /** Any run of requests keeps every stored author known to the listing. */
  lemma {:induction false} ReplayKeepsAuthorsKnown(s: Store, authors: seq<Author>, reqs: seq<Request>)
    requires Invariant(s) && AuthorsKnown(s, authors)
    ensures AuthorsKnown(Replay(s, authors, reqs), authors)
    decreases |reqs|
  {
    if |reqs| > 0 {
      ApplyKeepsAuthorsKnown(s, authors, reqs[0]);
      ReplayKeepsAuthorsKnown(Apply(s, authors, reqs[0]), authors, reqs[1..]);
    }
  }

  /**
   * Starting from an empty store, no run of requests ever leaves a book whose
   * author the listing does not know, or whose title the title rule refuses.
   */
  lemma RejectedBooksNeverStored(authors: seq<Author>, reqs: seq<Request>, name: Option<string>)
    requires !IsKnownAuthor(authors, name)
    ensures forall b :: b in ListAll(Replay(EmptyStore, authors, reqs)) ==>
              b.author != name && ValidTitle(b.title)
  {
    ReplayKeepsAuthorsKnown(EmptyStore, authors, reqs);
  }

  /** After a successful create, looking up the returned id yields the requested title and author. */
  lemma CreateThenFind(s: Store, authors: seq<Author>, book: Book)
    requires Invariant(s)
    requires CreateIn(s, authors, book).result.Success?
    ensures var r := CreateIn(s, authors, book);
            var found := Lookup(r.store, r.result.value.id);
            && found.Success?
            && found.value.id == r.result.value.id
            && found.value.title == book.title
            && found.value.author == book.author
  {
  }

  /** After a successful create, listing every book includes the created one. */
  lemma CreatedIsListed(s: Store, authors: seq<Author>, book: Book)
    requires Invariant(s)
    requires CreateIn(s, authors, book).result.Success?
    ensures var r := CreateIn(s, authors, book);
            r.result.value in ListAll(r.store)
  {
    var r := CreateIn(s, authors, book);
    var saved := r.result.value;
    assert r.store.books[saved.id] == saved;
  }

  /** The request would update or delete record `id`. */
  predicate Touches(req: Request, id: int) {
    (req.UpdateRequest? || req.DeleteRequest?) && req.id == id
  }

  /** A stored record stays stored, unchanged, through any run of requests that never updates or deletes it. */
  lemma {:induction false} UntouchedStaysStored(s: Store, authors: seq<Author>, reqs: seq<Request>, b: Book)
    requires Invariant(s)
    requires b.id in s.books && s.books[b.id] == b
    requires forall i :: 0 <= i < |reqs| ==> !Touches(reqs[i], b.id)
    ensures var r := Replay(s, authors, reqs);
            b.id in r.books && r.books[b.id] == b
    decreases |reqs|
  {
    if |reqs| > 0 {
      var next := Apply(s, authors, reqs[0]);
      assert !Touches(reqs[0], b.id);
      assert b.id in next.books && next.books[b.id] == b;
      forall i | 0 <= i < |reqs[1..]|
        ensures !Touches(reqs[1..][i], b.id)
      {
        assert reqs[1..][i] == reqs[i + 1];
      }
      UntouchedStaysStored(next, authors, reqs[1..], b);
    }
  }

  /**
   * A successfully created book is still listed after any later run of
   * requests, as long as none of them updates or deletes it.
   */
  lemma CreatedStaysListed(s: Store, authors: seq<Author>, book: Book, reqs: seq<Request>)
    requires Invariant(s)
    requires CreateIn(s, authors, book).result.Success?
    requires forall i :: 0 <= i < |reqs| ==> !Touches(reqs[i], CreateIn(s, authors, book).result.value.id)
    ensures var r := CreateIn(s, authors, book);
            r.result.value in ListAll(Replay(r.store, authors, reqs))
  {
    var r := CreateIn(s, authors, book);
    var saved := r.result.value;
    assert r.store.books[saved.id] == saved;
    UntouchedStaysStored(r.store, authors, reqs, saved);
    var after := Replay(r.store, authors, reqs);
    assert after.books[saved.id] == saved;
  }

  /** After a delete, the id is not found, and every other id looks up as before. */
  lemma DeleteThenFind(s: Store, id: int)
    requires Invariant(s)
    ensures Lookup(DeleteIn(s, id), id) == Failure(NotFound)
    ensures forall k :: k != id ==> Lookup(DeleteIn(s, id), k) == Lookup(s, k)
  {
  }

  /** `n` copies of character `c`. */
  function Repeat(c: char, n: nat): (r: string)
    ensures |r| == n
    ensures forall i :: 0 <= i < n ==> r[i] == c
  {
    if n == 0 then [] else [c] + Repeat(c, n - 1)
  }

  /** The titles the test suite tries: 30 letters pass; 31 letters, null, empty and spaces do not. */
  lemma TitleRuleExamples()
    ensures ValidTitle(Some(Repeat('X', 30)))
    ensures !ValidTitle(Some(Repeat('X', 31)))
    ensures !ValidTitle(None)
    ensures !ValidTitle(Some(""))
    ensures !ValidTitle(Some("    "))
  {
    assert Repeat('X', 30)[0] == 'X';
  }

  /**
   * The title rule as create applies it, for any title (the tests use random
   * letters): with "Gilson" listed, a create by "Gilson" whose title has more
   * than 30 characters is refused as an invalid title and changes nothing; one
   * whose title has 1 to 30 characters, the first not blank, succeeds.
   */
  lemma TitleLengthRule(s: Store, id: int, t: string)
    requires Invariant(s)
    ensures var authors := [Author(1, "Gilson")];
            var r := CreateIn(s, authors, Book(id, Some(t), Some("Gilson")));
            && (|t| > MaxTitleLength ==> r == Step(s, Failure(InvalidTitle)))
            && (1 <= |t| <= MaxTitleLength && t[0] > ' ' ==> r.result.Success? && r.result.value.title == Some(t))
  {
  }

  /**
   * With "Gilson" in the listing, a create naming "gilson" or "any invalid name"
   * is refused as an invalid author and leaves the table as it was.
   */
  lemma AuthorMatchIsExact(s: Store, title: Option<string>)
    requires Invariant(s)
    ensures var authors := [Author(1, "Gilson")];
            && CreateIn(s, authors, Book(0, title, Some("gilson"))) == Step(s, Failure(InvalidAuthor))
            && CreateIn(s, authors, Book(0, title, Some("any invalid name"))) == Step(s, Failure(InvalidAuthor))
  {
  }
}
