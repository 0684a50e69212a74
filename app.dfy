/** The three handlers of app.py that change the catalog: `add_author`, `add_books` and
    `delete_book`, as methods of a store holding the two tables. Each method returns what the
    handler reports: the stored record or the refusal. */
module App {
  import opened Wrappers
  import opened Text
  import opened Dates
  import opened DataModels
  import opened Validation

  // ----- delete_book (app.py:148-173) -----

  datatype DeleteError =
      /** `get_or_404` found no book under the id. */
    | BookNotFound
      /** The book's author_id names no author: `book.author` is None and reading its id fails
          after the book was already deleted and flushed. */
    | AuthorMissing

  /** The catalog after `delete_book` and what it reports. Any failure rolls the session back, so
      the catalog is left as it was; on success the book is gone, and so is its author when the
      author has no book left. */
  function DeleteResult(c: Catalog, bookId: int): (r: (Catalog, Result<string, DeleteError>))
    ensures r.1.Failure? <==> bookId !in c.books || c.books[bookId].authorId !in c.authors
    ensures r.1 == Failure(BookNotFound) <==> bookId !in c.books
    ensures r.1.Failure? ==> r.0 == c
    ensures r.1.Success? ==> r.1.value == c.books[bookId].title && r.0.books == c.books - {bookId}
  {
    if bookId !in c.books then (c, Failure(BookNotFound))
    else
      var b := c.books[bookId];
      if b.authorId !in c.authors then (c, Failure(AuthorMissing))
      else
        var rest := c.books - {bookId};
        var authors := if AuthorBooks(rest, b.authorId) == {} then c.authors - {b.authorId} else c.authors;
        (Catalog(authors, rest), Success(b.title))
  }

  /** Removing one book removes exactly that book from its author's set of books. */
  lemma AuthorBooksRemove(books: map<int, Book>, bookId: int, authorId: int)
    ensures AuthorBooks(books - {bookId}, authorId) == AuthorBooks(books, authorId) - {bookId}
  {
  }

  /** Deleting an author's only book deletes the author as well; nothing else changes. */
  lemma DeleteLastBookCascades(c: Catalog, bookId: int)
    requires bookId in c.books && c.books[bookId].authorId in c.authors
    requires AuthorBooks(c.books, c.books[bookId].authorId) == {bookId}
    ensures DeleteResult(c, bookId)
            == (Catalog(c.authors - {c.books[bookId].authorId}, c.books - {bookId}), Success(c.books[bookId].title))
  {
    AuthorBooksRemove(c.books, bookId, c.books[bookId].authorId);
  }

  /** An author who has another book keeps their record. */
  lemma DeleteKeepsAuthorWithOtherBooks(c: Catalog, bookId: int, other: int)
    requires bookId in c.books && c.books[bookId].authorId in c.authors
    requires other in c.books && other != bookId && c.books[other].authorId == c.books[bookId].authorId
    ensures DeleteResult(c, bookId) == (Catalog(c.authors, c.books - {bookId}), Success(c.books[bookId].title))
  {
    assert other in AuthorBooks(c.books - {bookId}, c.books[bookId].authorId);
  }

  /** A delete never touches another author than the book's own. */
  lemma DeleteSparesOtherAuthors(c: Catalog, bookId: int, authorId: int)
    requires bookId in c.books && authorId in c.authors && authorId != c.books[bookId].authorId
    ensures authorId in DeleteResult(c, bookId).0.authors
    ensures DeleteResult(c, bookId).0.authors[authorId] == c.authors[authorId]
  {
  }

  /** The table constraints survive a delete. */
  lemma DeletePreservesValid(c: Catalog, bookId: int)
    requires ValidCatalog(c)
    ensures ValidCatalog(DeleteResult(c, bookId).0)
  {
    var c' := DeleteResult(c, bookId).0;
    assert IsbnUnique(c'.books) by {
      assert forall i, j :: i in c'.books && j in c'.books ==> i in c.books && j in c.books && c'.books[i] == c.books[i] && c'.books[j] == c.books[j];
    }
  }

  /** A delete leaves no author without books who had books before it. */
  lemma DeleteLeavesNoBooklessAuthor(c: Catalog, bookId: int, authorId: int)
    requires authorId in DeleteResult(c, bookId).0.authors
    requires AuthorBooks(c.books, authorId) != {}
    ensures AuthorBooks(DeleteResult(c, bookId).0.books, authorId) != {}
  {
    var r := DeleteResult(c, bookId);
    if r.1.Success? {
      var aid := c.books[bookId].authorId;
      AuthorBooksRemove(c.books, bookId, authorId);
      if authorId != aid {
        SomeKey(AuthorBooks(c.books, authorId));
        var k: int :| k in AuthorBooks(c.books, authorId);
        assert k != bookId;
        assert k in AuthorBooks(r.0.books, authorId);
      }
    }
  }

  /** Without AUTOINCREMENT the id of the newest row is handed out again once that row is deleted. */
  lemma NewestIdReused(keys: set<int>, newest: int)
    requires newest in keys && newest >= 1
    requires forall k :: k in keys ==> 1 <= k <= newest
    ensures NextRowid(keys) == newest + 1
    ensures NextRowid(keys - {newest}) <= newest
  {
    var id := NextRowid(keys);
    assert id - 1 in keys by {
      assert id != 1 by {
        assert newest < id;
      }
    }
  }

  /** The redirect message: the quoted title on success, otherwise the error text `detail`
      (the exception's string form, which the model does not compute). */
  function DeleteMessage(r: Result<string, DeleteError>, detail: string): (m: string)
    ensures r.Success? ==> Contains(m, "\"" + r.value + "\"") && "\"" <= m
    ensures r.Failure? ==> "Error deleting book: " <= m && Contains(m, detail)
  {
    match r
    case Success(title) =>
      var quoted := "\"" + title + "\"";
      ContainsInfix("", quoted, " has been deleted!");
      assert "" + quoted + " has been deleted!" == "\"" + title + "\" has been deleted!";
      "\"" + title + "\" has been deleted!"
    case Failure(_) =>
      ContainsInfix("Error deleting book: ", detail, "");
      assert "Error deleting book: " + detail + "" == "Error deleting book: " + detail;
      "Error deleting book: " + detail
  }

  // ----- the database behind the handlers -----

  /** The SQLite database: the `authors` and `books` tables keyed by primary key. */
  class CatalogStore {
    var authors: map<int, Author>
    var books: map<int, Book>

    function State(): Catalog
      reads this
    {
      Catalog(authors, books)
    }

    ghost predicate Valid()
      reads this
    {
      ValidCatalog(State())
    }

    /** `db.create_all()` on a new database file: both tables empty. */
    constructor ()
      ensures Valid() && authors == map[] && books == map[]
    {
      authors := map[];
      books := map[];
    }

    /** `add_author` on a POST (app.py:54-99). The checks run in the handler's order and the
        first that fails is reported with nothing stored; otherwise the author is stored under
        the next rowid. */
    method AddAuthor(name: string, birthInput: string, deathInput: string, today: Date)
      returns (r: Result<Author, AuthorError>, message: string)
      requires Valid()
      modifies this
      ensures Valid()
      ensures message == AuthorPageMessage(AuthorRejection(name, birthInput, deathInput, today))
      ensures r.Failure? <==> AuthorRejection(name, birthInput, deathInput, today).Some?
      ensures r.Failure? ==> Some(r.error) == AuthorRejection(name, birthInput, deathInput, today)
                             && authors == old(authors) && books == old(books)
      ensures r.Success? ==> && ParseDate(birthInput).Some?
                             && r.value == Author(r.value.id, name, ParseDate(birthInput).value, DeathDateOf(deathInput))
                             && AdmissibleAuthor(name, r.value.birthDate, r.value.dateOfDeath, today)
                             && IsNextRowid(old(authors).Keys, r.value.id)
                             && authors == old(authors)[r.value.id := r.value]
                             && books == old(books)
    {
      if name == [] {
        EmptyNameFirst(birthInput, deathInput, today);
        return Failure(NameRequired), AuthorErrorMessage(NameRequired);
      }
      var birth := ParseDate(birthInput);
      if birth.None? {
        InvalidBirthdateSecond(name, birthInput, deathInput, today);
        return Failure(InvalidBirthdate), AuthorErrorMessage(InvalidBirthdate);
      }
      if After(birth.value, today) {
        FutureBirthdateThird(name, birthInput, deathInput, today);
        return Failure(FutureBirthdate), AuthorErrorMessage(FutureBirthdate);
      }
      var death: Option<Date> := None;
      if deathInput != [] {
        DeathDateChecks(name, birthInput, deathInput, today);
        death := ParseDate(deathInput);
        if death.None? {
          return Failure(InvalidDeathDate), AuthorErrorMessage(InvalidDeathDate);
        }
        if After(death.value, today) {
          return Failure(FutureDeathDate), AuthorErrorMessage(FutureDeathDate);
        }
        if Before(death.value, birth.value) {
          return Failure(DeathBeforeBirth), AuthorErrorMessage(DeathBeforeBirth);
        }
      }
      AuthorAccepted(name, birthInput, deathInput, today);
      var id := NextRowid(authors.Keys);
      var author := Author(id, name, birth.value, death);
      authors := authors[id := author];
      return Success(author), AUTHOR_ADDED_MESSAGE;
    }

    /** `add_books` on a POST (app.py:112-143). The form checks run first; a book that passes
        them is inserted under the next rowid, unless its isbn is already stored, in which case
        the commit fails and nothing is stored. The author id is stored as given. */
    method AddBook(title: string, isbn: string, publicationInput: string, authorId: int, today: Date)
      returns (r: Result<Book, BookError>, message: Option<string>)
      requires Valid()
      modifies this
      ensures Valid()
      ensures message == BookPageMessage(if r.Failure? then Some(r.error) else None)
      ensures r.Failure? ==> authors == old(authors) && books == old(books)
      ensures r.Failure? && r.error != DuplicateIsbn
              <==> BookRejection(title, isbn, publicationInput, today).Some?
      ensures r.Failure? && r.error != DuplicateIsbn ==> Some(r.error) == BookRejection(title, isbn, publicationInput, today)
      ensures r == Failure(DuplicateIsbn)
              <==> BookRejection(title, isbn, publicationInput, today).None? && IsbnInUse(old(books), isbn)
      ensures r.Success? ==> && ParseDate(publicationInput).Some?
                             && r.value == Book(r.value.id, authorId, isbn, title, ParseDate(publicationInput).value)
                             && !After(r.value.publicationYear, today)
                             && IsNextRowid(old(books).Keys, r.value.id)
                             && books == old(books)[r.value.id := r.value]
                             && authors == old(authors)
    {
      BookChecksOutcome(title, isbn, publicationInput, today);
      if title == [] || isbn == [] || publicationInput == [] {
        return Failure(FieldsRequired), BookErrorMessage(FieldsRequired);
      }
      var published := ParseDate(publicationInput);
      if published.None? {
        return Failure(InvalidPublicationDate), BookErrorMessage(InvalidPublicationDate);
      }
      if After(published.value, today) {
        return Failure(FuturePublicationDate), BookErrorMessage(FuturePublicationDate);
      }
      if IsbnInUse(books, isbn) {
        return Failure(DuplicateIsbn), BookErrorMessage(DuplicateIsbn);
      }
      var id := NextRowid(books.Keys);
      var book := Book(id, authorId, isbn, title, published.value);
      books := books[id := book];
      return Success(book), Some(BOOK_ADDED_MESSAGE);
    }

    /** `delete_book` (app.py:148-173): the book is deleted and flushed, then its author is
        deleted when no book of theirs remains; an error on the way restores what was there. */
    method DeleteBook(bookId: int) returns (r: Result<string, DeleteError>)
      requires Valid()
      modifies this
      ensures Valid()
      ensures (State(), r) == DeleteResult(old(State()), bookId)
    {
      DeletePreservesValid(State(), bookId);
      var savedAuthors, savedBooks := authors, books;
      if bookId !in books {
        return Failure(BookNotFound);
      }
      var book := books[bookId];
      books := books - {bookId};
      if book.authorId !in authors {
        authors, books := savedAuthors, savedBooks;
        return Failure(AuthorMissing);
      }
      var remaining := |AuthorBooks(books, book.authorId)|;
      if remaining == 0 {
        authors := authors - {book.authorId};
      }
      return Success(book.title);
    }
  }
}
