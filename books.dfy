/** The book entity, the rule its title obeys, and the errors the controller reports. */
module Books {
  import opened Wrappers

  /** A book record. `title` and `author` may be null in a request body. */
  datatype Book = Book(id: int, title: Option<string>, author: Option<string>)

  /** Why a create, update or lookup was refused. */
  datatype BookError =
    | InvalidAuthor   // no author in the directory has this exact name (HTTP 400)
    | InvalidTitle    // the title breaks the title rule (HTTP 400)
    | NotFound        // no stored book has this id (HTTP 404)

  /** The longest title a stored book may have. */
  const MaxTitleLength := 30

  /** Java's `String.trim` drops every character up to U+0020; a blank string has nothing else. */
  predicate IsBlank(s: string) {
    forall i :: 0 <= i < |s| ==> s[i] <= ' '
  }

  /** A title may be stored when it is present, not blank, and at most 30 characters long. */
  predicate ValidTitle(title: Option<string>) {
    title.Some? && !IsBlank(title.value) && |title.value| <= MaxTitleLength
  }
}
