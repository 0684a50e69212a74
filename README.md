# Book_Alchemy catalog, modelled in Dafny

Book_Alchemy is a small Flask application over a SQLite database with two tables: `authors` and
`books`. Each book refers to its author through `author_id`. The application has four handlers:

- the home page lists the books joined to their authors, filtered by a search text and ordered
  by title or by author;
- `add_author` validates a form and stores an author;
- `add_books` validates a form and stores a book;
- `delete_book` deletes a book, and its author too when that was the author's last book.

This project models those handlers and the two record types, and proves what they promise.

Layout, one module per file:

- `wrappers.dfy` (`Wrappers`): `Option` and `Result`.
- `text.dfy` (`Text`): decimal digits, integer printing and parsing, ASCII lower-casing, the
  substring test behind `ILIKE '%…%'`, lexicographic string order, character counts.
- `dates.dfy` (`Dates`): calendar dates. `ParseDate` reads the zero-padded ASCII form
  `YYYY-MM-DD`, the usual input of `strptime(…, "%Y-%m-%d")` (see "## Left out" for the other
  inputs `strptime` accepts), `FormatDate` is `str(date)`, and `Before`/`After` are date
  comparison. It includes the round trip between parsing and printing.
- `data_models.dfy` (`DataModels`):
  - the `Author` and `Book` records;
  - the two tables as a `Catalog` value, with their constraints: primary key equals map key,
    ids are positive, isbns are unique;
  - SQLite's rowid choice for a new row;
  - the `author.books` / `book.author` relationship;
  - the `__repr__` and `__str__` formats.
- `validation.dfy` (`Validation`): the ordered form checks of `add_author` and `add_books` as a
  first-failure pipeline, and their messages.
- `listing.dfy` (`Listing`): the home page query. It joins in ascending rowid order, filters,
  then sorts with an insertion sort that keeps rows with equal keys in that order.
- `app.dfy` (`App`):
  - `CatalogStore`, a class holding the two tables as `map` fields;
  - its methods `AddAuthor`, `AddBook` and `DeleteBook`;
  - `DeleteResult`, the value-level specification of a delete, with lemmas about it.

Inputs that are not form data become parameters:

- today's date (`date.today()`) is the `today` parameter;
- the exception text shown after a failed delete is the `detail` parameter of `DeleteMessage`.

Where this model and a plain reading of the application's intended behaviour differ, the code
was followed:

- `add_books` does not check that the author exists. SQLite enforces foreign keys only when
  asked to, and nothing asks, so a book with an unknown `author_id` is stored. `AddBook`
  accepts it.
- A duplicate isbn is refused by the `unique` constraint when the session commits. The handler
  does not catch that error, so the request fails with no page rendered. `AddBook` reports
  `DuplicateIsbn`, stores nothing, and `BookErrorMessage` gives `None` for it.
- Rowids are not AUTOINCREMENT: a new row gets the largest id plus one. The id of the newest
  row is therefore handed out again after that row is deleted.

## Model

| member | source | states |
|---|---|---|
| `Text.Lower` | app.py:26 | the result has the input's length, and each character is the input's character lower-cased |
| `Text.LowerIdempotent` | app.py:26 | lower-casing twice is lower-casing once; the lower-cased search text is used again in `ILIKE` |
| `Text.ContainsInfix` | app.py:33-34 | a string contains every infix placed inside it, which is how `'%s%'` patterns match |
| `Text.StringLeTotal` | app.py:38-41 | the `ORDER BY` string order relates every two strings |
| `Text.StringLeTransitive` | app.py:38-41 | the `ORDER BY` string order is transitive |
| `Text.StringLeAntisymmetric` | app.py:38-41 | two strings each ordered no later than the other are equal |
| `Text.ParseIntToString` | data_models.py:28 | printing an integer and reading it back gives the integer |
| `Dates.DaysInMonth` | app.py:64 | every month has 28 to 31 days |
| `Dates.ParseDate` | app.py:64-67 | whatever it reads is a representable date: years 1 to 9999, a real month, a day within that month |
| `Dates.ParseFormat` | app.py:64 | `str(date)` of any representable date parses back to that date |
| `Dates.FormatParse` | app.py:64 | whatever the parser accepts is exactly the printed form of its result |
| `Dates.BeforeTrichotomy` | app.py:69 | date comparison is a strict total order, so "not later than today" means today or earlier |
| `Dates.BeforeTransitive` | app.py:86 | date comparison is transitive |
| `DataModels.NextRowid` | data_models.py:19 | a new row's id is positive and above every id in use, and is 1 or one past an id in use |
| `DataModels.NextRowidUnique` | data_models.py:58 | that rule fixes the id: two ids satisfying it are equal |
| `DataModels.MaxKey` | data_models.py:58 | the largest id in use is in use and no id in use exceeds it |
| `DataModels.RelationshipInverse` | data_models.py:64 | a book is in `author.books` exactly when that author is the book's `author` |
| `DataModels.BookReprRoundTrip` | data_models.py:66-70 | the id and title can be read back from `Book.__repr__` |
| `DataModels.BookReprQuotes` | data_models.py:70 | `Book.__repr__` adds exactly two quotes, a pair around the title |
| `DataModels.AuthorReprQuotes` | data_models.py:28-31 | `Author.__repr__` as written adds exactly five quotes to those in the name |
| `DataModels.AuthorReprUnbalanced` | data_models.py:30 | for every author, the quote count of `Author.__repr__` and of the name differ in parity |
| `DataModels.AuthorReprIntendedQuotes` | data_models.py:28-31 | the corrected format adds exactly six quotes, one pair per quoted field |
| `DataModels.AuthorReprIntendedBalanced` | data_models.py:30 | for every author, the corrected format's quote count has the parity of the name's |
| `DataModels.AuthorStrQuotes` | data_models.py:38-40 | `Author.__str__` adds no quotes of its own |
| `Validation.FirstFailure` | app.py:59-88 | no error exactly when every check passes; otherwise the error of a check that fails after all earlier ones passed |
| `Validation.FirstFailureAt` | app.py:59-88 | when check i fails and all before it pass, check i's error is the one reported |
| `Validation.AuthorAccepted` | app.py:59-94 | an author is refused exactly when the birth date does not parse, a typed death date does not parse, or the parsed author is not admissible (name present, neither date after today, death not before birth) |
| `Validation.EmptyNameFirst` | app.py:59-61 | an empty name is refused with `NameRequired`, rendered as "Name is required.", whatever the dates |
| `Validation.InvalidBirthdateSecond` | app.py:63-67 | with a name, an unreadable birth date is reported before any death-date problem |
| `Validation.FutureBirthdateThird` | app.py:69-71 | a birth date after today is refused whatever the death-date field holds |
| `Validation.NoDeathDateAccepted` | app.py:73-74 | an empty death-date field skips all three death-date checks |
| `Validation.DeathDateChecks` | app.py:74-88 | a typed death date is checked for format, then for being in the future, then for preceding the birth date |
| `Validation.BoundaryDatesAccepted` | app.py:69-88 | the comparisons are strict: a birth date of today with no death date, a death date of today after a birth no later than today, and a death on the day of birth no later than today are all accepted |
| `Validation.AuthorErrorMessage` | app.py:59-88 | each refusal's text, as the handler renders it, differs from the success message |
| `Validation.AuthorPageMessage` | app.py:59-99 | the page shows "Author has been added!" exactly when no check failed, and otherwise the first refusal's text |
| `Validation.AuthorPageMessageInjective` | app.py:59-99 | two outcomes that render the same text are the same outcome, so the page shows which check failed first |
| `Validation.BookChecksOutcome` | app.py:118-131 | the form checks pass exactly when title, isbn and date are filled in and the date parses to no later than today; each refusal is the first failing check's |
| `Validation.BookErrorMessage` | app.py:118-141 | a form refusal renders its text, never the success message; a duplicate isbn renders no page |
| `Validation.BookPageMessage` | app.py:118-143 | the page shows "Book has been added!" exactly when the book was stored; no page exactly for a duplicate isbn |
| `Validation.BookPageMessageInjective` | app.py:118-143 | every rendered page's text identifies its outcome |
| `Listing.SortKeyOf` | app.py:38-41 | ordering is by author name exactly when `sort_by` is `author`, and by title for any other value |
| `Listing.Insert` | app.py:38-41 | inserting into a sorted list keeps it sorted and adds exactly that row |
| `Listing.Sort` | app.py:38-43 | the result is sorted by the key and is a permutation of the input |
| `Listing.SortKeepsEqualKeysInOrder` | app.py:38-43 | two rows with equal keys leave the sort in the order they entered it |
| `Listing.Filter` | app.py:30-36 | every row kept matches the search on title or author name |
| `Listing.FilterCount` | app.py:30-36 | a matching row is kept as often as it occurs, and a row that does not match is dropped |
| `Listing.SortedIds` | app.py:28 | the table's ids in strictly ascending order, each exactly once |
| `Listing.JoinIdsCount` | app.py:28 | the inner join produces each book with its existing author once and nothing else |
| `Listing.ListBooks` | app.py:25-43 | the listing is ordered by the chosen key, and with a search text every row matches it on title or author name |
| `Listing.ListBooksExactlyOnce` | app.py:25-43 | a row is listed exactly once if it is a stored book joined to its stored author and it matches the search (or there is none), and otherwise not at all |
| `Listing.EmptySearchListsAll` | app.py:30 | without a search text every book whose author exists is listed |
| `App.DeleteResult` | app.py:155-173 | a delete fails exactly when the book is missing or its author is, with the store unchanged; on success the book is removed and its title reported |
| `App.AuthorBooksRemove` | app.py:159-162 | deleting a book removes exactly that book from its author's books |
| `App.DeleteLastBookCascades` | app.py:162-164 | deleting an author's only book deletes the author too, and nothing else |
| `App.DeleteKeepsAuthorWithOtherBooks` | app.py:162-163 | an author with another book keeps their record |
| `App.DeleteSparesOtherAuthors` | app.py:162-164 | no author other than the book's own is touched |
| `App.DeletePreservesValid` | app.py:155-173 | the table constraints hold after a delete |
| `App.DeleteLeavesNoBooklessAuthor` | app.py:162-164 | an author who had books before a delete and remains after it still has books |
| `App.NewestIdReused` | data_models.py:58 | after the newest row is deleted, the next insert gets an id no larger than the deleted one |
| `App.DeleteMessage` | app.py:167-173 | the success message starts with a quote and contains the book's title between two quotes; the failure message starts with "Error deleting book: " and contains the error text |
| `App.CatalogStore.constructor` | app.py:15-16 | a new database has both tables empty and satisfies the constraints |
| `App.CatalogStore.AddAuthor` | app.py:54-99 | refuses exactly when the checks do, with the first failing check's error and nothing stored; otherwise stores an admissible author with the form's values under the next rowid and changes nothing else; the message returned is the rendered page's |
| `App.CatalogStore.AddBook` | app.py:112-143 | form refusals as the checks give them; a duplicate isbn is refused exactly when the form passes and the isbn is in use; otherwise stores the book under the next rowid; every refusal stores nothing; the constraints are kept; the message returned is the rendered page's, none for a duplicate isbn |
| `App.CatalogStore.DeleteBook` | app.py:148-173 | the new tables and the outcome are those of `DeleteResult` on the old tables, including the rollback of a partial delete; the constraints are kept |

## Findings

| source | as written | input that shows it | evidently intended | confidence | as-written member | corrected member |
|---|---|---|---|---|---|---|
| data_models.py:30 | `birth_date='{self.birth_date}, ` opens a quote that is never closed | any author whose name has no quote, e.g. name `Ann`: the result has five quotes | `birth_date='{self.birth_date}', ` closing the quote as the other fields do | high, not executed | `DataModels.AuthorReprUnbalanced` | `DataModels.AuthorReprIntendedBalanced` |

## Left out

- HTTP and Flask: routing, templates, redirects, the GET forms, query-string and form parsing.
  Form fields are `string` parameters, and a missing field is the empty string.
- The SQLAlchemy session is not modelled. Transactions are shown only by their effect: a
  failed operation leaves both tables as they were.
- `add_books` passes the `author_id` form field to the column unparsed. The model takes it as an
  `int`, so a non-numeric `author_id` is not modelled.
- `date.today()` and the clock are not modelled: `today` is a parameter.
- Exception messages (`str(e)`) are not modelled: the delete's failure text is the `detail`
  parameter.
- Column length (`String(13)` is not enforced by SQLite) and the foreign key (not enforced by
  SQLite unless enabled) are deliberately not constraints of the model.
- Nullable columns: `title`, `birth_date` and `publication_year` can be NULL in the schema, but
  every insert path sets them. The model makes them non-optional, and only `date_of_death` is
  optional.
- The author list that `add_books` loads for its form (`Author.query.all()`) is only displayed, and is not modelled.
- Dates.ParseDate: accepts only the zero-padded ASCII `YYYY-MM-DD` form. `strptime` also accepts
  one-digit months and days (`2020-1-5`), a space-padded day (`2020-01- 5`), and non-ASCII
  decimal digits (its patterns use `\d`, and `int()` converts such digits). Those inputs are
  refused here instead.
- Text.Lower: lowers ASCII letters only; Python's `str.lower` also lowers other Unicode letters.
  SQLite's `LIKE` folds ASCII case only, so this matches the database side of the search.
- Listing.Matches: the search text is matched literally; `%` and `_` typed into the search box
  act as `LIKE` wildcards in the database, and that is not modelled.
- Listing.Sort: SQLite leaves the order of rows with equal sort keys unspecified. The model fixes
  one such order: ascending rowid, which the insertion sort keeps
  (`SortKeepsEqualKeysInOrder`). The contracts of `Sort` and `ListBooks` state only what holds
  for every order.
- DataModels.NextRowid: integers are unbounded. Once the largest rowid is 9223372036854775807,
  SQLite tries random unused rowids and fails with SQLITE_FULL when it finds none. That case is
  not modelled.
