/** The two tables of the catalog (`authors`, `books`), their column constraints,
    the `author` / `books` relationship, and the records' text formats. */
module DataModels {
  import opened Wrappers
  import opened Text
  import opened Dates

  /** A row of `authors`. The name column is NOT NULL; a Dafny string is never null. */
  datatype Author = Author(id: int, name: string, birthDate: Date, dateOfDeath: Option<Date>)

  /** A row of `books`; `authorId` is the `author_id` foreign-key column. */
  datatype Book = Book(id: int, authorId: int, isbn: string, title: string, publicationYear: Date)

  /** The committed contents of both tables, each keyed by primary key. */
  datatype Catalog = Catalog(authors: map<int, Author>, books: map<int, Book>)

  /** The `unique=True` constraint on `isbn`. */
  predicate IsbnUnique(books: map<int, Book>)
  {
    forall i, j :: i in books && j in books && books[i].isbn == books[j].isbn ==> i == j
  }

  /** The table constraints: every row sits under its own positive primary key, and isbns are unique. */
  predicate ValidCatalog(c: Catalog)
  {
    && (forall id :: id in c.authors ==> id >= 1 && c.authors[id].id == id)
    && (forall id :: id in c.books ==> id >= 1 && c.books[id].id == id)
    && IsbnUnique(c.books)
  }

  /** The rowid SQLite assigns to a new row of a table declared without AUTOINCREMENT:
      one more than the largest rowid in use, or 1 for an empty table. */
  ghost predicate IsNextRowid(keys: set<int>, id: int)
  {
    id >= 1 && (forall k :: k in keys ==> k < id) && (id == 1 || id - 1 in keys)
  }

  /** The rule picks one id: the id a method computes by it is determined by the table alone. */
  lemma NextRowidUnique(keys: set<int>, a: int, b: int)
    requires IsNextRowid(keys, a) && IsNextRowid(keys, b)
    ensures a == b
  {
  }

  lemma {:induction false} MaxExists(s: set<int>)
    requires s != {}
    ensures exists m :: m in s && forall k :: k in s ==> k <= m
    decreases |s|
  {
    SomeKey(s);
    var x: int :| x in s;
    if s != {x} {
      MaxExists(s - {x});
      var m :| m in s - {x} && forall k :: k in s - {x} ==> k <= m;
      var greatest := if x > m then x else m;
      forall k | k in s
        ensures k <= greatest
      {
        if k != x {
          assert k in s - {x};
        }
      }
    } else {
      assert forall k :: k in s ==> k <= x;
    }
  }

  /** The largest key in use. */
  function MaxKey(s: set<int>): (m: int)
    requires s != {}
    ensures m in s && forall k :: k in s ==> k <= m
  {
    MaxExists(s);
    var m :| m in s && forall k :: k in s ==> k <= m;
    m
  }

  /** The id SQLite gives the next row inserted into a table whose ids in use are `keys`. */
  function NextRowid(keys: set<int>): (id: int)
    ensures IsNextRowid(keys, id)
  {
    if keys == {} then 1
    else
      var m := MaxKey(keys);
      if m >= 1 then m + 1 else 1
  }

  /** Some stored book already has this isbn. */
  predicate IsbnInUse(books: map<int, Book>, isbn: string)
  {
    exists id :: id in books && books[id].isbn == isbn
  }

  /** A non-empty set of keys has a member to pick. */
  lemma SomeKey(s: set<int>)
    requires s != {}
    ensures exists k :: k in s
  {
    if forall k :: k !in s {
      assert false;
    }
  }

  /** The `author.books` backref: the ids of the books whose `author_id` is `authorId`. */
  function AuthorBooks(books: map<int, Book>, authorId: int): set<int>
  {
    set id | id in books && books[id].authorId == authorId
  }

  /** The `book.author` relationship: the author with id `book.author_id`, if there is one. */
  function BookAuthor(c: Catalog, b: Book): Option<Author>
  {
    if b.authorId in c.authors then Some(c.authors[b.authorId]) else None
  }

  /** The two sides of the relationship agree: a book is among an author's `books`
      exactly when that author is the book's `author`. */
  lemma {:induction false} RelationshipInverse(c: Catalog, authorId: int, bookId: int)
    requires ValidCatalog(c)
    requires authorId in c.authors
    ensures bookId in AuthorBooks(c.books, authorId)
            <==> bookId in c.books && BookAuthor(c, c.books[bookId]) == Some(c.authors[authorId])
  {
    if bookId in c.books && BookAuthor(c, c.books[bookId]) == Some(c.authors[authorId]) {
      var other := c.books[bookId].authorId;
      assert c.authors[other].id == other;
      assert c.authors[authorId].id == authorId;
    }
  }

  /** An f-string's rendering of an optional date: `None` when absent. */
  function OptionalDateText(d: Option<Date>): string
  {
    match d
    case None => "None"
    case Some(x) => FormatDate(x)
  }

  /** `Author.__repr__`. The birth date is opened with a quote that is never closed. */
  function AuthorRepr(a: Author): string
  {
    "Author(id=" + IntToString(a.id) + ", name='" + a.name + "', birth_date='" + FormatDate(a.birthDate)
    + ", date_of_death='" + OptionalDateText(a.dateOfDeath) + "')"
  }

  /** `Author.__repr__` with the birth date's quote closed, as the other fields are. */
  function AuthorReprIntended(a: Author): string
  {
    "Author(id=" + IntToString(a.id) + ", name='" + a.name + "', birth_date='" + FormatDate(a.birthDate)
    + "', date_of_death='" + OptionalDateText(a.dateOfDeath) + "')"
  }

  /** `Author.__str__`. */
  function AuthorStr(a: Author): string
  {
    "Author(Author : " + a.name + ",birthdate : " + FormatDate(a.birthDate)
    + ",date of death : " + OptionalDateText(a.dateOfDeath) + ")"
  }

  /** `Book.__repr__`. */
  function BookRepr(b: Book): string
  {
    "Book(id=" + IntToString(b.id) + ", title='" + b.title + "')"
  }

  /** Reads the id and the title back out of a `Book.__repr__` string. */
  function ParseBookRepr(s: string): Option<(int, string)>
  {
    if |s| >= 10 && s[..8] == "Book(id=" && s[|s| - 2..] == "')" then
      var body := s[8..|s| - 2];
      var k := IndexOf(body, ',');
      if k + 9 <= |body| && body[k..k + 9] == ", title='" then
        match ParseInt(body[..k])
        case Some(id) => Some((id, body[k + 9..]))
        case None => None
      else None
    else None
  }

  lemma OptionalDateTextChars(d: Option<Date>)
    ensures Count('\'', OptionalDateText(d)) == 0
  {
    match d
    case None =>
      assert OptionalDateText(d) == "None";
      assert Count('\'', "None") == 0;
    case Some(x) =>
      FormatDateHasNo('\'', x);
  }

  /** `Book.__repr__` loses nothing: its id and title can be read back from it. */
  lemma BookReprRoundTrip(b: Book)
    ensures ParseBookRepr(BookRepr(b)) == Some((b.id, b.title))
  {
    var n := IntToString(b.id);
    var s := BookRepr(b);
    var body := n + ", title='" + b.title;
    assert s == "Book(id=" + body + "')";
    assert s[8..|s| - 2] == body;
    IntToStringChars(b.id);
    assert body[|n|] == ',';
    var k := IndexOf(body, ',');
    assert k == |n|;
    assert body[..k] == n;
    assert body[k..k + 9] == ", title='";
    assert body[k + 9..] == b.title;
    ParseIntToString(b.id);
  }

  /** `Author.__repr__` opens five quotes around its own text, so with a quote-free name
      the quotes in the result do not pair up: the birth date's closing quote is missing. */
  lemma AuthorReprQuotes(a: Author)
    ensures Count('\'', AuthorRepr(a)) == Count('\'', a.name) + 5
  {
    IntToStringHasNo('\'', a.id);
    FormatDateHasNo('\'', a.birthDate);
    OptionalDateTextChars(a.dateOfDeath);
    ReprPiecesQuotes(IntToString(a.id), a.name, FormatDate(a.birthDate), OptionalDateText(a.dateOfDeath));
  }

  /** Whatever the name, `__repr__` as written adds an odd number of quotes to the name's own,
      so they cannot all pair up; a quote-free name gives five. */
  lemma AuthorReprUnbalanced(a: Author)
    ensures Count('\'', AuthorRepr(a)) % 2 != Count('\'', a.name) % 2
  {
    AuthorReprQuotes(a);
    ParityShift(Count('\'', AuthorRepr(a)), Count('\'', a.name), 5);
  }

  /** With the quote closed, the format adds an even number of quotes: pairs, one per field. */
  lemma AuthorReprIntendedBalanced(a: Author)
    ensures Count('\'', AuthorReprIntended(a)) % 2 == Count('\'', a.name) % 2
  {
    AuthorReprIntendedQuotes(a);
    ParityShift(Count('\'', AuthorReprIntended(a)), Count('\'', a.name), 6);
  }

  lemma ParityShift(n: nat, m: nat, k: nat)
    requires n == m + k
    ensures (n % 2 == m % 2) <==> k % 2 == 0
  {
  }

  /** The corrected format wraps each of its three quoted fields in a pair of quotes. */
  lemma AuthorReprIntendedQuotes(a: Author)
    ensures Count('\'', AuthorReprIntended(a)) == Count('\'', a.name) + 6
  {
    IntToStringHasNo('\'', a.id);
    FormatDateHasNo('\'', a.birthDate);
    OptionalDateTextChars(a.dateOfDeath);
    IntendedPiecesQuotes(IntToString(a.id), a.name, FormatDate(a.birthDate), OptionalDateText(a.dateOfDeath));
  }

  // Quote counts of the literal parts of the two author formats, one fact per lemma
  // (the solver evaluates one literal at a time cheaply, several together expensively).
  lemma ReprLiteral1() ensures Count('\'', "Author(id=") == 0 { CountAbsent('\'', "Author(id="); }
  lemma ReprLiteral2() ensures Count('\'', ", name='") == 1 { CountClosing('\'', ", name="); }
  lemma ReprLiteral3() ensures Count('\'', "', birth_date='") == 2 { }
  lemma ReprLiteral4() ensures Count('\'', ", date_of_death='") == 1 { CountClosing('\'', ", date_of_death="); }
  lemma ReprLiteral5() ensures Count('\'', "')") == 1 { }
  lemma ReprLiteral6() ensures Count('\'', "', date_of_death='") == 2 { }
  lemma StrLiteral1() ensures Count('\'', "Author(Author : ") == 0 { CountAbsent('\'', "Author(Author : "); }
  lemma StrLiteral2() ensures Count('\'', ",birthdate : ") == 0 { CountAbsent('\'', ",birthdate : "); }
  lemma StrLiteral3() ensures Count('\'', ",date of death : ") == 0 { CountAbsent('\'', ",date of death : "); }
  lemma StrLiteral4() ensures Count('\'', ")") == 0 { }

  lemma ReprPiecesQuotes(id: string, name: string, birth: string, death: string)
    requires Count('\'', id) == 0 && Count('\'', birth) == 0 && Count('\'', death) == 0
    ensures Count('\'', "Author(id=" + id + ", name='" + name + "', birth_date='" + birth
                         + ", date_of_death='" + death + "')")
            == Count('\'', name) + 5
  {
    var q := '\'';
    ReprLiteral1();
    ReprLiteral2();
    ReprLiteral3();
    ReprLiteral4();
    ReprLiteral5();
    var s1 := "Author(id=" + id;
    CountConcat(q, "Author(id=", id);
    var s2 := s1 + ", name='";
    CountConcat(q, s1, ", name='");
    var s3 := s2 + name;
    CountConcat(q, s2, name);
    var s4 := s3 + "', birth_date='";
    CountConcat(q, s3, "', birth_date='");
    var s5 := s4 + birth;
    CountConcat(q, s4, birth);
    var s6 := s5 + ", date_of_death='";
    CountConcat(q, s5, ", date_of_death='");
    var s7 := s6 + death;
    CountConcat(q, s6, death);
    CountConcat(q, s7, "')");
  }

  lemma IntendedPiecesQuotes(id: string, name: string, birth: string, death: string)
    requires Count('\'', id) == 0 && Count('\'', birth) == 0 && Count('\'', death) == 0
    ensures Count('\'', "Author(id=" + id + ", name='" + name + "', birth_date='" + birth
                         + "', date_of_death='" + death + "')")
            == Count('\'', name) + 6
  {
    var q := '\'';
    ReprLiteral1();
    ReprLiteral2();
    ReprLiteral3();
    ReprLiteral6();
    ReprLiteral5();
    var s1 := "Author(id=" + id;
    CountConcat(q, "Author(id=", id);
    var s2 := s1 + ", name='";
    CountConcat(q, s1, ", name='");
    var s3 := s2 + name;
    CountConcat(q, s2, name);
    var s4 := s3 + "', birth_date='";
    CountConcat(q, s3, "', birth_date='");
    var s5 := s4 + birth;
    CountConcat(q, s4, birth);
    var s6 := s5 + "', date_of_death='";
    CountConcat(q, s5, "', date_of_death='");
    var s7 := s6 + death;
    CountConcat(q, s6, death);
    CountConcat(q, s7, "')");
  }

  /** `__str__`, unlike `__repr__`, adds no quotes of its own. */
  lemma AuthorStrQuotes(a: Author)
    ensures Count('\'', AuthorStr(a)) == Count('\'', a.name)
  {
    FormatDateHasNo('\'', a.birthDate);
    OptionalDateTextChars(a.dateOfDeath);
    StrPiecesQuotes(a.name, FormatDate(a.birthDate), OptionalDateText(a.dateOfDeath));
  }

  lemma StrPiecesQuotes(name: string, birth: string, death: string)
    requires Count('\'', birth) == 0 && Count('\'', death) == 0
    ensures Count('\'', "Author(Author : " + name + ",birthdate : " + birth + ",date of death : " + death + ")")
            == Count('\'', name)
  {
    var q := '\'';
    StrLiteral1();
    StrLiteral2();
    StrLiteral3();
    StrLiteral4();
    var s1 := "Author(Author : " + name;
    CountConcat(q, "Author(Author : ", name);
    var s2 := s1 + ",birthdate : ";
    CountConcat(q, s1, ",birthdate : ");
    var s3 := s2 + birth;
    CountConcat(q, s2, birth);
    var s4 := s3 + ",date of death : ";
    CountConcat(q, s3, ",date of death : ");
    var s5 := s4 + death;
    CountConcat(q, s4, death);
    CountConcat(q, s5, ")");
  }

  /** `Book.__repr__` quotes the title with a balanced pair. */
  lemma BookReprQuotes(b: Book)
    ensures Count('\'', BookRepr(b)) == Count('\'', b.title) + 2
  {
    var q := '\'';
    var id := IntToString(b.id);
    IntToStringHasNo(q, b.id);
    var s1 := "Book(id=" + id;
    CountConcat(q, "Book(id=", id);
    var s2 := s1 + ", title='";
    CountConcat(q, s1, ", title='");
    var s3 := s2 + b.title;
    CountConcat(q, s2, b.title);
    CountConcat(q, s3, "')");
    assert BookRepr(b) == s3 + "')";
  }
}
