/**
 * The book controller: validates a book's author against the author directory's
 * listing before it lets the book store create or update a record.
 *
 * The store is a table of books keyed by id together with the next id it will
 * hand out. `Store` is that table as a value, and the functions over it specify
 * each operation; the class `BookController` holds the same table in fields and
 * its methods change it in place, each proved equal to its specifying function.
 */
module BookControl {
  import opened Wrappers
  import opened Authors
  import opened Books

  /** The book table and the id the store will assign to the next new book. */
  datatype Store = Store(books: map<int, Book>, nextId: int)

  /** What an operation that may fail leaves behind: the new table and its outcome. */
  datatype Step = Step(store: Store, result: Result<Book, BookError>)

  /**
   * What holds of every table the controller produces: every record sits under
   * its own id, every id was handed out before (ids start at 1), and every
   * stored title obeys the title rule.
   */
  predicate Invariant(s: Store) {
    && 1 <= s.nextId
    && forall id :: id in s.books ==>
         && 1 <= id < s.nextId
         && s.books[id].id == id
         && ValidTitle(s.books[id].title)
  }

  /** The empty table of a freshly started store. */
  const EmptyStore := Store(map[], 1)

  // ---------------------------------------------------------------------------
  // The author check
  // ---------------------------------------------------------------------------

  /** Some author in the listing has exactly this name (case-sensitive; null matches none). */
  predicate IsKnownAuthor(authors: seq<Author>, name: Option<string>) {
    exists a :: a in authors && name == Some(a.name)
  }

  /**
   * The stream search of the author check: scans the listing and yields an
   * author whose name equals `name`, or nothing when none does.
   */
  function FindByName(authors: seq<Author>, name: Option<string>): (r: Option<Author>)
    ensures r.Some? ==> r.value in authors && name == Some(r.value.name)
    ensures r.None? ==> forall i :: 0 <= i < |authors| ==> name != Some(authors[i].name)
  {
    if |authors| == 0 then None
    else if name == Some(authors[0].name) then Some(authors[0])
    else FindByName(authors[1..], name)
  }

  /** The author check run by create and update before anything else. */
  function ValidateAuthor(authors: seq<Author>, book: Book): (r: Outcome<BookError>)
    ensures r == Pass <==> IsKnownAuthor(authors, book.author)
    ensures r != Pass ==> r == Fail(InvalidAuthor)
  {
    if FindByName(authors, book.author).Some? then Pass else Fail(InvalidAuthor)
  }

  // ---------------------------------------------------------------------------
  // The operations, as functions of the table
  // ---------------------------------------------------------------------------

  /** Looking a book up by id: it fails with not-found exactly when no record has that id. */
  function Lookup(s: Store, id: int): (r: Result<Book, BookError>)
    ensures r.Success? <==> id in s.books
    ensures r.Success? ==> r.value == s.books[id]
    ensures r.Failure? ==> r.error == NotFound
    ensures Invariant(s) && r.Success? ==> r.value.id == id && ValidTitle(r.value.title)
  {
    if id in s.books then Success(s.books[id]) else Failure(NotFound)
  }

  /** The books of `m` whose ids lie in [lo, hi), in ascending id order. */
  function Listing(m: map<int, Book>, lo: int, hi: int): (r: seq<Book>)
    decreases hi - lo
  {
    if lo >= hi then []
    else (if lo in m then [m[lo]] else []) + Listing(m, lo + 1, hi)
  }

  /** Every record sits under its own id. */
  predicate KeyedById(m: map<int, Book>) {
    forall k :: k in m ==> m[k].id == k
  }

  /** The listing holds exactly the records with ids in [lo, hi), each once, in ascending id order. */
  lemma {:induction false} ListingFacts(m: map<int, Book>, lo: int, hi: int)
    requires KeyedById(m)
    ensures forall b :: b in Listing(m, lo, hi) ==> lo <= b.id < hi && b.id in m && m[b.id] == b
    ensures forall k :: k in m && lo <= k < hi ==> m[k] in Listing(m, lo, hi)
    ensures forall i, j :: 0 <= i < j < |Listing(m, lo, hi)| ==>
              Listing(m, lo, hi)[i].id < Listing(m, lo, hi)[j].id
    decreases hi - lo
  {
    if lo < hi {
      ListingFacts(m, lo + 1, hi);
      var rest := Listing(m, lo + 1, hi);
      assert Listing(m, lo, hi) == (if lo in m then [m[lo]] else []) + rest;
    }
  }

  /**
   * Listing every book: the result is never null, holds every stored record and
   * nothing else, and names each id once (ascending).
   */
  function ListAll(s: Store): (r: seq<Book>)
    requires Invariant(s)
    ensures forall b :: b in r ==> b.id in s.books && s.books[b.id] == b
    ensures forall id :: id in s.books ==> s.books[id] in r
    ensures forall i, j :: 0 <= i < j < |r| ==> r[i].id < r[j].id
  {
    ListingFacts(s.books, 1, s.nextId);
    Listing(s.books, 1, s.nextId)
  }

  /**
   * Creating a book: the author check comes first, then the title rule, which the
   * store is taken to enforce on save; only when both pass is the book stored, under a
   * fresh id, with the requested title and author. A refused create changes nothing.
   */
  function CreateIn(s: Store, authors: seq<Author>, book: Book): (r: Step)
    requires Invariant(s)
    ensures r.result.Success? <==> IsKnownAuthor(authors, book.author) && ValidTitle(book.title)
    ensures !IsKnownAuthor(authors, book.author) ==> r.result == Failure(InvalidAuthor)
    ensures IsKnownAuthor(authors, book.author) && !ValidTitle(book.title) ==>
              r.result == Failure(InvalidTitle)
    ensures r.result.Failure? ==> r.store == s
    ensures r.result.Success? ==>
              var saved := r.result.value;
              && saved.id !in s.books
              && saved.title == book.title
              && saved.author == book.author
              && r.store.books == s.books[saved.id := saved]
    ensures Invariant(r.store)
  {
    match ValidateAuthor(authors, book)
    case Fail(e) => Step(s, Failure(e))
    case Pass =>
      if !ValidTitle(book.title) then Step(s, Failure(InvalidTitle))
      else
        var saved := book.(id := s.nextId);
        Step(Store(s.books[saved.id := saved], s.nextId + 1), Success(saved))
  }

  /**
   * Updating book `id`: the author check comes before the lookup, so an unknown
   * author is reported even for a missing id; a known author with a missing id
   * is not-found; then the title rule applies. On success only the title and
   * author of record `id` change, its id stays, and every other record is
   * untouched. A refused update changes nothing.
   */
  function UpdateIn(s: Store, authors: seq<Author>, id: int, book: Book): (r: Step)
    requires Invariant(s)
    ensures r.result.Success? <==>
              IsKnownAuthor(authors, book.author) && id in s.books && ValidTitle(book.title)
    ensures !IsKnownAuthor(authors, book.author) ==> r.result == Failure(InvalidAuthor)
    ensures IsKnownAuthor(authors, book.author) && id !in s.books ==> r.result == Failure(NotFound)
    ensures IsKnownAuthor(authors, book.author) && id in s.books && !ValidTitle(book.title) ==>
              r.result == Failure(InvalidTitle)
    ensures r.result.Failure? ==> r.store == s
    ensures r.result.Success? ==>
              var saved := r.result.value;
              && saved.id == id
              && saved.title == book.title
              && saved.author == book.author
              && r.store.books == s.books[id := saved]
              && r.store.nextId == s.nextId
    ensures r.store.books.Keys == s.books.Keys
    ensures forall k :: k in s.books && k != id ==> r.store.books[k] == s.books[k]
    ensures Invariant(r.store)
  {
    match ValidateAuthor(authors, book)
    case Fail(e) => Step(s, Failure(e))
    case Pass =>
      match Lookup(s, id)
      case Failure(e) => Step(s, Failure(e))
      case Success(found) =>
        var saved := found.(title := book.title).(author := book.author);
        if !ValidTitle(saved.title) then Step(s, Failure(InvalidTitle))
        else Step(Store(s.books[saved.id := saved], s.nextId), Success(saved))
  }

  /**
   * Deleting book `id`: afterwards no record with that id remains and every
   * other record is as it was; deleting a missing id changes nothing.
   */
  function DeleteIn(s: Store, id: int): (r: Store)
    requires Invariant(s)
    ensures r.books.Keys == s.books.Keys - {id}
    ensures forall k :: k in r.books ==> r.books[k] == s.books[k]
    ensures id !in s.books ==> r == s
    ensures r.nextId == s.nextId
    ensures Invariant(r)
  {
    Store(s.books - {id}, s.nextId)
  }

  // ---------------------------------------------------------------------------
  // The controller, holding the table in fields it updates in place
  // ---------------------------------------------------------------------------

  class BookController {
    var books: map<int, Book>
    var nextId: int

    /** The table the fields hold. */
    function State(): (r: Store)
      reads this
    {
      Store(books, nextId)
    }

    predicate Valid()
      reads this
    {
      Invariant(State())
    }

    /** A controller over an empty store. */
    constructor ()
      ensures Valid()
      ensures State() == EmptyStore
    {
      books := map[];
      nextId := 1;
    }

    /** Every stored book, as the store lists them. */
    method FindAll() returns (r: seq<Book>)
      requires Valid()
      ensures r == ListAll(State())
    {
      r := ListAll(State());
    }

    /** The book stored under `id`, or not-found. */
    method FindById(id: int) returns (r: Result<Book, BookError>)
      requires Valid()
      ensures r == Lookup(State(), id)
    {
      if id in books {
        r := Success(books[id]);
      } else {
        r := Failure(NotFound);
      }
    }

    /** Checks the author, then saves `book` as a new record. */
    method Create(authors: seq<Author>, book: Book) returns (r: Result<Book, BookError>)
      requires Valid()
      modifies this
      ensures Valid()
      ensures Step(State(), r) == CreateIn(old(State()), authors, book)
    {
      var check := ValidateAuthor(authors, book);
      if check.Fail? {
        return Failure(check.error);
      }
      // save: the store enforces the title rule, then assigns the next id
      if !ValidTitle(book.title) {
        return Failure(InvalidTitle);
      }
      var saved := book.(id := nextId);
      nextId := nextId + 1;
      books := books[saved.id := saved];
      r := Success(saved);
    }

    /** Checks the author, fetches record `id`, copies title and author onto it and saves it. */
    method Update(authors: seq<Author>, id: int, book: Book) returns (r: Result<Book, BookError>)
      requires Valid()
      modifies this
      ensures Valid()
      ensures Step(State(), r) == UpdateIn(old(State()), authors, id, book)
    {
      var check := ValidateAuthor(authors, book);
      if check.Fail? {
        return Failure(check.error);
      }
      var found := FindById(id);
      if found.Failure? {
        return found;
      }
      var saved := found.value;
      saved := saved.(title := book.title);
      saved := saved.(author := book.author);
      // save: the store enforces the title rule, then replaces the record under its id
      if !ValidTitle(saved.title) {
        return Failure(InvalidTitle);
      }
      books := books[saved.id := saved];
      r := Success(saved);
    }

    /** Removes record `id` if there is one. */
    method DeleteById(id: int)
      requires Valid()
      modifies this
      ensures Valid()
      ensures State() == DeleteIn(old(State()), id)
    {
      books := books - {id};
    }
  }
}
