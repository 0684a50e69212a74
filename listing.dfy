/** The home page query of app.py (`index`, app.py:19-44): books inner-joined to their author,
    optionally filtered by a case-insensitive search text, ordered by title or by author name. */
module Listing {
  import opened Wrappers
  import opened Text
  import opened DataModels

  /** One result row: a book together with the author the join matched it to. */
  datatype Row = Row(book: Book, author: Author)

  datatype SortKey = ByTitle | ByAuthor

  /** `sort_by == 'author'` orders by author name; every other value, the default `title`
      included, orders by title. */
  function SortKeyOf(sortBy: string): (k: SortKey)
    ensures k == ByAuthor <==> sortBy == "author"
  {
    if sortBy == "author" then ByAuthor else ByTitle
  }

  function KeyText(k: SortKey, r: Row): string
  {
    match k
    case ByTitle => r.book.title
    case ByAuthor => r.author.name
  }

  predicate RowLe(k: SortKey, a: Row, b: Row)
  {
    StringLe(KeyText(k, a), KeyText(k, b))
  }

  /** Non-decreasing by the sort column. */
  predicate SortedBy(k: SortKey, rows: seq<Row>)
  {
    forall i, j :: 0 <= i < j < |rows| ==> RowLe(k, rows[i], rows[j])
  }

  lemma HeadIsLeast(k: SortKey, rows: seq<Row>)
    requires rows != [] && SortedBy(k, rows)
    ensures forall z :: z in rows[1..] ==> RowLe(k, rows[0], z)
  {
    forall z | z in rows[1..]
      ensures RowLe(k, rows[0], z)
    {
      var j :| 0 <= j < |rows[1..]| && rows[1..][j] == z;
      assert rows[j + 1] == z;
    }
  }

  lemma ConsSorted(k: SortKey, y: Row, rows: seq<Row>)
    requires SortedBy(k, rows)
    requires forall z :: z in rows ==> RowLe(k, y, z)
    ensures SortedBy(k, [y] + rows)
  {
    var r := [y] + rows;
    forall i, j | 0 <= i < j < |r|
      ensures RowLe(k, r[i], r[j])
    {
      if i == 0 {
        assert r[j] == rows[j - 1];
        assert r[j] in rows;
      } else {
        assert r[i] == rows[i - 1] && r[j] == rows[j - 1];
      }
    }
  }

  /** Below-the-head rows are also above anything the head is above. */
  lemma BelowHead(k: SortKey, x: Row, rows: seq<Row>)
    requires rows != [] && SortedBy(k, rows) && RowLe(k, x, rows[0])
    ensures forall z :: z in rows ==> RowLe(k, x, z)
  {
    HeadIsLeast(k, rows);
    forall z | z in rows
      ensures RowLe(k, x, z)
    {
      if z != rows[0] {
        assert z in rows[1..] by {
          var j :| 0 <= j < |rows| && rows[j] == z;
          assert j > 0;
          assert rows[1..][j - 1] == z;
        }
        StringLeTransitive(KeyText(k, x), KeyText(k, rows[0]), KeyText(k, z));
      }
    }
  }

  /** Inserts `x` into sorted `rows` in front of the first row it sorts no later than. */
  function Insert(k: SortKey, x: Row, rows: seq<Row>): (r: seq<Row>)
    requires SortedBy(k, rows)
    ensures multiset(r) == multiset(rows) + multiset{x}
    ensures SortedBy(k, r)
  {
    if rows == [] then [x]
    else if RowLe(k, x, rows[0]) then
      BelowHead(k, x, rows);
      ConsSorted(k, x, rows);
      [x] + rows
    else
      var t := Insert(k, x, rows[1..]);
      StringLeTotal(KeyText(k, x), KeyText(k, rows[0]));
      HeadIsLeast(k, rows);
      assert rows == [rows[0]] + rows[1..];
      assert forall z :: z in t ==> z in multiset(t);
      ConsSorted(k, rows[0], t);
      [rows[0]] + t
  }

  /** Insertion sort: ordered by the key and holding exactly the rows it was given. Rows are
      inserted from the back, each in front of its equals, so rows with equal keys keep
      their order (the scan's ascending rowid order). */
  function Sort(k: SortKey, rows: seq<Row>): (r: seq<Row>)
    ensures multiset(r) == multiset(rows)
    ensures SortedBy(k, r)
  {
    if rows == [] then []
    else
      assert rows == [rows[0]] + rows[1..];
      Insert(k, rows[0], Sort(k, rows[1..]))
  }

  /** Two rows with the same key come out in the order they went in. */
  lemma SortKeepsEqualKeysInOrder(k: SortKey, a: Row, b: Row)
    requires KeyText(k, a) == KeyText(k, b)
    ensures Sort(k, [a, b]) == [a, b]
  {
    assert [a, b][1..] == [b];
    assert [b][1..] == [];
    StringLeTotal(KeyText(k, a), KeyText(k, b));
  }

  /** `title ILIKE '%needle%' OR name ILIKE '%needle%'`: a substring match after ASCII lower-casing. */
  predicate Matches(r: Row, needle: string)
  {
    Contains(Lower(r.book.title), Lower(needle)) || Contains(Lower(r.author.name), Lower(needle))
  }

  function Filter(rows: seq<Row>, needle: string): (r: seq<Row>)
    ensures forall i :: 0 <= i < |r| ==> Matches(r[i], needle)
  {
    if rows == [] then []
    else (if Matches(rows[0], needle) then [rows[0]] else []) + Filter(rows[1..], needle)
  }

  lemma {:induction false} FilterCount(rows: seq<Row>, needle: string, x: Row)
    ensures multiset(Filter(rows, needle))[x] == if Matches(x, needle) then multiset(rows)[x] else 0
  {
    if rows != [] {
      FilterCount(rows[1..], needle, x);
      assert rows == [rows[0]] + rows[1..];
    }
  }

  /** The primary keys in ascending order, the order in which SQLite scans the table. */
  function SortedIds(s: set<int>): (r: seq<int>)
    ensures forall i, j :: 0 <= i < j < |r| ==> r[i] < r[j]
    ensures forall id :: id in r <==> id in s
    decreases |s|
  {
    if s == {} then []
    else
      var m := MaxKey(s);
      SortedIds(s - {m}) + [m]
  }

  /** The row the inner join makes of one book: none when its author does not exist. */
  function JoinOne(c: Catalog, id: int): seq<Row>
    requires id in c.books
  {
    var b := c.books[id];
    if b.authorId in c.authors then [Row(b, c.authors[b.authorId])] else []
  }

  function JoinIds(c: Catalog, ids: seq<int>): seq<Row>
    requires forall i :: 0 <= i < |ids| ==> ids[i] in c.books
  {
    if ids == [] then [] else JoinOne(c, ids[0]) + JoinIds(c, ids[1..])
  }

  /** `Book.query.join(Author)`. */
  function Joined(c: Catalog): seq<Row>
  {
    JoinIds(c, SortedIds(c.books.Keys))
  }

  /** A row the join can produce from the catalog: a stored book with its stored author. */
  predicate IsJoinRow(c: Catalog, r: Row)
  {
    && r.book.id in c.books && c.books[r.book.id] == r.book
    && r.book.authorId in c.authors && c.authors[r.book.authorId] == r.author
  }

  lemma {:induction false} JoinIdsCount(c: Catalog, ids: seq<int>, x: Row)
    requires ValidCatalog(c)
    requires forall i :: 0 <= i < |ids| ==> ids[i] in c.books
    requires forall i, j :: 0 <= i < j < |ids| ==> ids[i] < ids[j]
    ensures multiset(JoinIds(c, ids))[x] == if IsJoinRow(c, x) && x.book.id in ids then 1 else 0
  {
    if ids != [] {
      var h := ids[0];
      JoinIdsCount(c, ids[1..], x);
      assert c.books[h].id == h;
      assert h !in ids[1..];
      assert x.book.id in ids <==> x.book.id == h || x.book.id in ids[1..];
    }
  }

  /** The listing (app.py:25-43). An empty search text applies no filter. */
  function ListBooks(c: Catalog, sortBy: string, search: string): (r: seq<Row>)
    ensures SortedBy(SortKeyOf(sortBy), r)
    ensures search != [] ==> forall i :: 0 <= i < |r| ==>
              Contains(Lower(r[i].book.title), Lower(search)) || Contains(Lower(r[i].author.name), Lower(search))
  {
    var needle := Lower(search);
    var rows := if needle != [] then Filter(Joined(c), needle) else Joined(c);
    var sorted := Sort(SortKeyOf(sortBy), rows);
    assert forall i :: 0 <= i < |sorted| ==> sorted[i] in multiset(rows);
    LowerIdempotent(search);
    sorted
  }

  /** Each book whose author exists is listed exactly once when it matches the search, and
      nothing else is listed: no book without an author, no non-matching book, no duplicate. */
  lemma ListBooksExactlyOnce(c: Catalog, sortBy: string, search: string, x: Row)
    requires ValidCatalog(c)
    ensures multiset(ListBooks(c, sortBy, search))[x]
            == if IsJoinRow(c, x) && (search == [] || Matches(x, Lower(search))) then 1 else 0
  {
    var ids := SortedIds(c.books.Keys);
    JoinIdsCount(c, ids, x);
    if search != [] {
      FilterCount(Joined(c), Lower(search), x);
    }
  }

  /** With no search text every book that has an author appears, joined to that author. */
  lemma EmptySearchListsAll(c: Catalog, sortBy: string, id: int)
    requires ValidCatalog(c)
    requires id in c.books && c.books[id].authorId in c.authors
    ensures Row(c.books[id], c.authors[c.books[id].authorId]) in ListBooks(c, sortBy, "")
  {
    var x := Row(c.books[id], c.authors[c.books[id].authorId]);
    assert c.books[id].id == id;
    assert IsJoinRow(c, x);
    ListBooksExactlyOnce(c, sortBy, "", x);
    var listed := ListBooks(c, sortBy, "");
    assert x in multiset(listed);
  }
}
