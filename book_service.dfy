/** The book service over the book table, with the reading table that hangs
    off it through a cascading foreign key. */
module BookStore {
  import opened Wrappers
  import opened Text
  import opened Schema

  /** The search predicate: the term occurs in the title, the author or the
      genre. The ISBN and the description are not searched. */
  predicate BookMatches(b: Book, term: string)
  {
    Contains(b.title, term) || Contains(b.author, term) || Contains(b.genre, term)
  }

  /** The stored books the search predicate accepts, in table order. */
  function MatchingBooks(bs: seq<Book>, term: string): (r: seq<Book>)
    ensures forall b :: b in r <==> b in bs && BookMatches(b, term)
    ensures |r| <= |bs|
  {
    if bs == [] then []
    else
      var last := bs[|bs| - 1];
      assert bs == bs[..|bs| - 1] + [last];
      MatchingBooks(bs[..|bs| - 1], term) + (if BookMatches(last, term) then [last] else [])
  }

  /** Some book other than the one with key `id` already has this ISBN, so the
      unique index refuses it. */
  predicate IsbnInUse(bs: seq<Book>, isbn: string, id: int)
  {
    exists k :: 0 <= k < |bs| && bs[k].isbn == isbn && bs[k].id != id
  }

  class BookService {
    var books: seq<Book>
    var readings: seq<Reading>
    /** The identity value the database hands out next. */
    var nextBookId: int

    /** The primary keys, the unique ISBN index and the foreign key from
        readings to books hold, and the counter is past every book key. */
    ghost predicate Valid()
      reads this
    {
      && BookIdsUnique(books)
      && IsbnsUnique(books)
      && (forall b :: b in books ==> b.id < nextBookId)
      && ReadingIdsUnique(readings)
      && (forall r :: r in readings ==> HasBook(books, r.bookId))
    }

    /** An empty database. */
    constructor ()
      ensures Valid()
      ensures books == [] && readings == [] && nextBookId == 1
    {
      books := [];
      readings := [];
      nextBookId := 1;
    }

    /** GetAllBooksAsync: the stored books, in table order. */
    method GetAllBooks() returns (r: seq<Book>)
      ensures |r| == |books|
      ensures forall k :: 0 <= k < |r| ==> r[k] == books[k]
    {
      r := books;
    }

    /** GetBookByIdAsync: the book with that key, or nothing. */
    method GetBookById(id: int) returns (r: Option<Book>)
      ensures r.None? <==> !HasBook(books, id)
      ensures r.Some? ==> r.value in books && r.value.id == id
    {
      var index := BookIndex(books, id);
      if index.None? {
        return None;
      }
      return Some(books[index.value]);
    }

    /** SearchBooksAsync: exactly the books whose title, author or genre
        contains the term, in table order. Callers reject a blank term. */
    method SearchBooks(term: string) returns (r: seq<Book>)
      requires !IsNullOrWhiteSpace(term)
      ensures forall b :: b in r <==> b in books && BookMatches(b, term)
      ensures r == MatchingBooks(books, term)
    {
      r := MatchingBooks(books, term);
    }

    /** CreateBookAsync: both timestamps set to now, then the row added under
        the next key; an ISBN already in use is refused with nothing changed. */
    method CreateBook(book: Book, now: Timestamp) returns (r: Result<Book, StoreError>)
      requires Valid()
      modifies this
      ensures Valid()
      ensures readings == old(readings)
      ensures IsbnInUse(old(books), book.isbn, old(nextBookId)) ==>
        r == Failure(DuplicateIsbn) && books == old(books) && nextBookId == old(nextBookId)
      ensures !IsbnInUse(old(books), book.isbn, old(nextBookId)) ==>
        var created := book.(id := old(nextBookId), createdAt := now, updatedAt := now);
        r == Success(created) && books == old(books) + [created] && nextBookId == old(nextBookId) + 1
      ensures (forall b :: b in old(books) ==> BookFits(b)) && BookFits(book) ==>
        forall b :: b in books ==> BookFits(b)
    {
      if IsbnInUse(books, book.isbn, nextBookId) {
        return Failure(DuplicateIsbn);
      }
      var created := book.(id := nextBookId, createdAt := now, updatedAt := now);
      ghost var before := books;
      books := books + [created];
      nextBookId := nextBookId + 1;
      assert Valid() by {
        forall i, j | 0 <= i < j < |books| ensures books[i].id != books[j].id && books[i].isbn != books[j].isbn {
          if j == |books| - 1 {
            assert before[i] in before;
          }
        }
        forall x | x in readings ensures HasBook(books, x.bookId) {
          var m :| 0 <= m < |before| && before[m].id == x.bookId;
          assert books[m].id == x.bookId;
        }
      }
      return Success(created);
    }

    /** UpdateBookAsync: the book is stored as given with UpdatedAt set to now.
        A key with no row is refused (the update touches no row), and so is an
        ISBN another book has; either way nothing changes. */
    method UpdateBook(book: Book, now: Timestamp) returns (r: Outcome<StoreError>)
      requires Valid()
      modifies this
      ensures Valid()
      ensures readings == old(readings) && nextBookId == old(nextBookId)
      ensures !HasBook(old(books), book.id) ==> r == Fail(NotFound) && books == old(books)
      ensures HasBook(old(books), book.id) && IsbnInUse(old(books), book.isbn, book.id) ==>
        r == Fail(DuplicateIsbn) && books == old(books)
      ensures HasBook(old(books), book.id) && !IsbnInUse(old(books), book.isbn, book.id) ==>
        r == Pass && books == old(books)[BookIndex(old(books), book.id).value := book.(updatedAt := now)]
      ensures (forall b :: b in old(books) ==> BookFits(b)) && BookFits(book) ==>
        forall b :: b in books ==> BookFits(b)
    {
      var index := BookIndex(books, book.id);
      if index.None? {
        return Fail(NotFound);
      }
      if IsbnInUse(books, book.isbn, book.id) {
        return Fail(DuplicateIsbn);
      }
      var k := index.value;
      ghost var before := books;
      books := books[k := book.(updatedAt := now)];
      assert Valid() by {
        forall i, j | 0 <= i < j < |books| ensures books[i].id != books[j].id && books[i].isbn != books[j].isbn {
          if i != k && j != k {
            assert books[i] == before[i] && books[j] == before[j];
          }
        }
        forall x | x in books ensures x.id < nextBookId {
          var m :| 0 <= m < |books| && books[m] == x;
          assert before[m] in before;
        }
        forall x | x in readings ensures HasBook(books, x.bookId) {
          var m :| 0 <= m < |before| && before[m].id == x.bookId;
          assert books[m].id == x.bookId;
        }
      }
      return Pass;
    }

    /** DeleteBookAsync: a missing key changes nothing; otherwise the row goes
        and the cascade takes the book's readings with it. */
    method DeleteBook(id: int)
      requires Valid()
      modifies this
      ensures Valid()
      ensures books == DropBook(old(books), id)
      ensures readings == WithoutBook(old(readings), id)
      ensures nextBookId == old(nextBookId)
    {
      var index := BookIndex(books, id);
      if index.None? {
        DropMissingBook(books, id);
        NoReadingsOfMissingBook(readings, books, id);
        return;
      }
      DropBookKeepsKeys(books, id);
      WithoutBookKeepsKey(readings, id);
      ghost var before := books;
      books := DropBook(books, id);
      readings := WithoutBook(readings, id);
      assert Valid() by {
        forall x | x in readings ensures HasBook(books, x.bookId) {
          assert x in old(readings);
          var m :| 0 <= m < |before| && before[m].id == x.bookId;
          assert before[m] in books;
        }
      }
    }
  }

  /** Deleting a key that is not there leaves the table as it was. */
  lemma {:induction false} DropMissingBook(bs: seq<Book>, id: int)
    requires !HasBook(bs, id)
    ensures DropBook(bs, id) == bs
  {
    if bs != [] {
      var init, last := bs[..|bs| - 1], bs[|bs| - 1];
      assert bs == init + [last];
      assert !HasBook(init, id) by {
        forall k | 0 <= k < |init| ensures init[k].id != id {
          assert init[k] == bs[k];
        }
      }
      DropMissingBook(init, id);
      assert last.id != id;
      DropBookSnoc(init, last, id);
    }
  }

  /** With the foreign key in place, a missing book has no readings to cascade. */
  lemma {:induction false} NoReadingsOfMissingBook(rs: seq<Reading>, bs: seq<Book>, id: int)
    requires !HasBook(bs, id)
    requires forall r :: r in rs ==> HasBook(bs, r.bookId)
    ensures WithoutBook(rs, id) == rs
  {
    if rs != [] {
      var init, last := rs[..|rs| - 1], rs[|rs| - 1];
      assert rs == init + [last];
      assert forall r :: r in init ==> r in rs;
      NoReadingsOfMissingBook(init, bs, id);
      assert last in rs;
      WithoutBookSnoc(init, last, id);
    }
  }

  /** Search is case-sensitive and looks only at title, author and genre:
      "Dune" by "Herbert", genre "SF", with ISBN "Dune-1" is found by "Dune"
      but neither by "dune" nor by "-1". */
  lemma SearchFields()
    ensures var b := Book(1, "Dune", "Herbert", "Dune-1", 0, "SF", "", 412, 0, 0);
      BookMatches(b, "Dune") && !BookMatches(b, "dune") && !BookMatches(b, "-1")
  {
    var b := Book(1, "Dune", "Herbert", "Dune-1", 0, "SF", "", 412, 0, 0);
    assert OccursAt(b.title, "Dune", 0);
    NotIn("Dune", "dune");
    NotIn("Herbert", "dune");
    NotIn("SF", "dune");
    NotIn("Dune", "-1");
    NotIn("Herbert", "-1");
    NotIn("SF", "-1");
  }

  /** A short term absent from `s` by inspection of every start position. */
  lemma NotIn(s: string, t: string)
    requires |t| == 2 || |t| == 4
    requires forall i {:trigger s[i]} :: 0 <= i <= |s| - |t| ==> s[i] != t[0] || s[i + 1] != t[1] || (|t| == 4 && (s[i + 2] != t[2] || s[i + 3] != t[3]))
    ensures !Contains(s, t)
  {
    forall i: nat | i <= |s| ensures !OccursAt(s, t, i) {
      if i + |t| <= |s| {
        var w := s[i..i + |t|];
        assert 0 <= i <= |s| - |t|;
        assert s[i] != t[0] || s[i + 1] != t[1] || (|t| == 4 && (s[i + 2] != t[2] || s[i + 3] != t[3]));
        assert w[0] == s[i] && w[1] == s[i + 1];
        if |t| == 4 {
          assert w[2] == s[i + 2] && w[3] == s[i + 3];
        }
        assert w[0] != t[0] || w[1] != t[1] || (|t| == 4 && (w[2] != t[2] || w[3] != t[3]));
      }
    }
  }
}
