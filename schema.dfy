/** The entities of the store and the constraints the database schema puts on
    them: primary keys, the composite key of the bookmark-tag join table, the
    unique indexes on tag names and ISBNs, the cascading deletes and the column
    length limits. */
module Schema {
  import opened Wrappers
  import Text

  /** `DateTime` values, as ticks. */
  type Timestamp = int

  datatype Bookmark = Bookmark(
    id: int, title: string, url: string, description: string,
    createdAt: Timestamp, updatedAt: Timestamp)

  datatype Tag = Tag(id: int, name: string, color: string, createdAt: Timestamp)

  /** A row of the join table: bookmark `bookmarkId` carries tag `tagId`. */
  datatype BookmarkTag = BookmarkTag(bookmarkId: int, tagId: int)

  datatype Book = Book(
    id: int, title: string, author: string, isbn: string, publishedDate: Timestamp,
    genre: string, description: string, pageCount: int,
    createdAt: Timestamp, updatedAt: Timestamp)

  datatype ReadingStatus = NotStarted | InProgress | Completed | Abandoned

  datatype Reading = Reading(
    id: int, bookId: int, userId: string, startDate: Timestamp,
    endDate: Option<Timestamp>, status: ReadingStatus, currentPage: int,
    notes: Option<string>, rating: Option<int>,
    createdAt: Timestamp, updatedAt: Timestamp)

  /** Why a write was refused: no row with that key, a (bookmark, tag) pair
      added twice, or an ISBN another book already has. */
  datatype StoreError = NotFound | DuplicateTagAssignment | DuplicateIsbn

  /** The colour a tag gets when reconciliation creates it. */
  const DefaultTagColor: string := "#007bff"

  const MaxBookTitle := 500
  const MaxBookAuthor := 300
  const MaxBookIsbn := 20
  const MaxBookGenre := 100
  const MaxBookDescription := 2000
  const MaxBookmarkTitle := 500
  const MaxBookmarkUrl := 2000
  const MaxBookmarkDescription := 2000
  const MaxTagName := 100
  const MaxTagColor := 20

  // ---- column lengths ----

  predicate BookFits(b: Book)
  {
    Text.Utf16Length(b.title) <= MaxBookTitle && Text.Utf16Length(b.author) <= MaxBookAuthor
    && Text.Utf16Length(b.isbn) <= MaxBookIsbn && Text.Utf16Length(b.genre) <= MaxBookGenre
    && Text.Utf16Length(b.description) <= MaxBookDescription
  }

  predicate BookmarkFits(b: Bookmark)
  {
    Text.Utf16Length(b.title) <= MaxBookmarkTitle && Text.Utf16Length(b.url) <= MaxBookmarkUrl
    && Text.Utf16Length(b.description) <= MaxBookmarkDescription
  }

  predicate TagFits(t: Tag)
  {
    Text.Utf16Length(t.name) <= MaxTagName && Text.Utf16Length(t.color) <= MaxTagColor
  }

  // ---- keys and unique indexes ----

  predicate BookmarkIdsUnique(bs: seq<Bookmark>)
  {
    forall i, j :: 0 <= i < j < |bs| ==> bs[i].id != bs[j].id
  }

  predicate TagIdsUnique(ts: seq<Tag>)
  {
    forall i, j :: 0 <= i < j < |ts| ==> ts[i].id != ts[j].id
  }

  /** The unique index on `Tag.Name`. */
  predicate TagNamesUnique(ts: seq<Tag>)
  {
    forall i, j :: 0 <= i < j < |ts| ==> ts[i].name != ts[j].name
  }

  /** The composite key (BookmarkId, TagId): no pair occurs twice. */
  predicate LinksUnique(ls: seq<BookmarkTag>)
  {
    forall i, j :: 0 <= i < j < |ls| ==> ls[i] != ls[j]
  }

  predicate BookIdsUnique(bs: seq<Book>)
  {
    forall i, j :: 0 <= i < j < |bs| ==> bs[i].id != bs[j].id
  }

  /** The unique index on `Book.ISBN`. */
  predicate IsbnsUnique(bs: seq<Book>)
  {
    forall i, j :: 0 <= i < j < |bs| ==> bs[i].isbn != bs[j].isbn
  }

  predicate ReadingIdsUnique(rs: seq<Reading>)
  {
    forall i, j :: 0 <= i < j < |rs| ==> rs[i].id != rs[j].id
  }

  // ---- lookups by key (the repository's GetByIdAsync) ----

  predicate HasBookmark(bs: seq<Bookmark>, id: int)
  {
    exists k :: 0 <= k < |bs| && bs[k].id == id
  }

  predicate HasTag(ts: seq<Tag>, id: int)
  {
    exists k :: 0 <= k < |ts| && ts[k].id == id
  }

  predicate HasBook(bs: seq<Book>, id: int)
  {
    exists k :: 0 <= k < |bs| && bs[k].id == id
  }

  /** The position of the bookmark with key `id`, if any. */
  function BookmarkIndex(bs: seq<Bookmark>, id: int): (r: Option<nat>)
    ensures r.Some? ==> r.value < |bs| && bs[r.value].id == id
    ensures r.None? <==> !HasBookmark(bs, id)
  {
    if bs == [] then None
    else if bs[0].id == id then Some(0)
    else match BookmarkIndex(bs[1..], id)
      case Some(k) => Some(k + 1)
      case None => None
  }

  /** The position of the book with key `id`, if any. */
  function BookIndex(bs: seq<Book>, id: int): (r: Option<nat>)
    ensures r.Some? ==> r.value < |bs| && bs[r.value].id == id
    ensures r.None? <==> !HasBook(bs, id)
  {
    if bs == [] then None
    else if bs[0].id == id then Some(0)
    else match BookIndex(bs[1..], id)
      case Some(k) => Some(k + 1)
      case None => None
  }

  /** The tag with key `id`, if any. */
  function TagWithId(ts: seq<Tag>, id: int): (r: Option<Tag>)
    ensures r.Some? ==> r.value in ts && r.value.id == id
    ensures r.None? <==> !HasTag(ts, id)
  {
    if ts == [] then None
    else if ts[0].id == id then Some(ts[0])
    else TagWithId(ts[1..], id)
  }

  /** The first tag whose name equals `name` exactly (ordinal comparison). */
  function TagNamed(ts: seq<Tag>, name: string): (r: Option<Tag>)
    ensures r.Some? ==> r.value in ts && r.value.name == name
    ensures r.None? <==> forall k :: 0 <= k < |ts| ==> ts[k].name != name
  {
    if ts == [] then None
    else if ts[0].name == name then Some(ts[0])
    else TagNamed(ts[1..], name)
  }

  // ---- cascading deletes ----

  /** The join rows left once bookmark `bookmarkId` is gone: deleting a bookmark
      deletes its associations, and every other row stays, in order. */
  function WithoutBookmark(ls: seq<BookmarkTag>, bookmarkId: int): (r: seq<BookmarkTag>)
    ensures forall l :: l in r <==> l in ls && l.bookmarkId != bookmarkId
    ensures |r| <= |ls|
  {
    if ls == [] then []
    else
      var last := ls[|ls| - 1];
      assert ls == ls[..|ls| - 1] + [last];
      WithoutBookmark(ls[..|ls| - 1], bookmarkId) + (if last.bookmarkId != bookmarkId then [last] else [])
  }

  /** The join rows left once tag `tagId` is gone. */
  function WithoutTag(ls: seq<BookmarkTag>, tagId: int): (r: seq<BookmarkTag>)
    ensures forall l :: l in r <==> l in ls && l.tagId != tagId
    ensures |r| <= |ls|
  {
    if ls == [] then []
    else
      var last := ls[|ls| - 1];
      assert ls == ls[..|ls| - 1] + [last];
      WithoutTag(ls[..|ls| - 1], tagId) + (if last.tagId != tagId then [last] else [])
  }

  /** The readings left once book `bookId` is gone. */
  function WithoutBook(rs: seq<Reading>, bookId: int): (r: seq<Reading>)
    ensures forall x :: x in r <==> x in rs && x.bookId != bookId
    ensures |r| <= |rs|
  {
    if rs == [] then []
    else
      var last := rs[|rs| - 1];
      assert rs == rs[..|rs| - 1] + [last];
      WithoutBook(rs[..|rs| - 1], bookId) + (if last.bookId != bookId then [last] else [])
  }

  /** The join table once the row `row` is deleted. */
  function RemoveRow(ls: seq<BookmarkTag>, row: BookmarkTag): (r: seq<BookmarkTag>)
    ensures forall l :: l in r <==> l in ls && l != row
  {
    if ls == [] then []
    else
      var last := ls[|ls| - 1];
      assert ls == ls[..|ls| - 1] + [last];
      RemoveRow(ls[..|ls| - 1], row) + (if last != row then [last] else [])
  }

  lemma RemoveRowSnoc(ls: seq<BookmarkTag>, l: BookmarkTag, row: BookmarkTag)
    ensures RemoveRow(ls + [l], row) == RemoveRow(ls, row) + (if l != row then [l] else [])
  {
    assert (ls + [l])[..|ls|] == ls;
  }

  /** The bookmark table once bookmark `id` is deleted. */
  function DropBookmark(bs: seq<Bookmark>, id: int): (r: seq<Bookmark>)
    ensures forall b :: b in r <==> b in bs && b.id != id
    ensures |r| <= |bs|
  {
    if bs == [] then []
    else
      var last := bs[|bs| - 1];
      assert bs == bs[..|bs| - 1] + [last];
      DropBookmark(bs[..|bs| - 1], id) + (if last.id != id then [last] else [])
  }

  /** The tag table once tag `id` is deleted. */
  function DropTag(ts: seq<Tag>, id: int): (r: seq<Tag>)
    ensures forall t :: t in r <==> t in ts && t.id != id
    ensures |r| <= |ts|
  {
    if ts == [] then []
    else
      var last := ts[|ts| - 1];
      assert ts == ts[..|ts| - 1] + [last];
      DropTag(ts[..|ts| - 1], id) + (if last.id != id then [last] else [])
  }

  /** The book table once book `id` is deleted. */
  function DropBook(bs: seq<Book>, id: int): (r: seq<Book>)
    ensures forall b :: b in r <==> b in bs && b.id != id
    ensures |r| <= |bs|
  {
    if bs == [] then []
    else
      var last := bs[|bs| - 1];
      assert bs == bs[..|bs| - 1] + [last];
      DropBook(bs[..|bs| - 1], id) + (if last.id != id then [last] else [])
  }

  lemma DropBookmarkSnoc(bs: seq<Bookmark>, b: Bookmark, id: int)
    ensures DropBookmark(bs + [b], id) == DropBookmark(bs, id) + (if b.id != id then [b] else [])
  {
    assert (bs + [b])[..|bs|] == bs;
  }

  lemma DropBookSnoc(bs: seq<Book>, b: Book, id: int)
    ensures DropBook(bs + [b], id) == DropBook(bs, id) + (if b.id != id then [b] else [])
  {
    assert (bs + [b])[..|bs|] == bs;
  }

  lemma WithoutBookmarkSnoc(ls: seq<BookmarkTag>, l: BookmarkTag, bookmarkId: int)
    ensures WithoutBookmark(ls + [l], bookmarkId) == WithoutBookmark(ls, bookmarkId) + (if l.bookmarkId != bookmarkId then [l] else [])
  {
    assert (ls + [l])[..|ls|] == ls;
  }

  lemma WithoutBookSnoc(rs: seq<Reading>, x: Reading, bookId: int)
    ensures WithoutBook(rs + [x], bookId) == WithoutBook(rs, bookId) + (if x.bookId != bookId then [x] else [])
  {
    assert (rs + [x])[..|rs|] == rs;
  }

  /** Removing a bookmark's rows keeps the composite key intact. */
  lemma {:induction false} WithoutBookmarkKeepsKey(ls: seq<BookmarkTag>, bookmarkId: int)
    requires LinksUnique(ls)
    ensures LinksUnique(WithoutBookmark(ls, bookmarkId))
  {
    if ls != [] {
      WithoutBookmarkKeepsKey(ls[..|ls| - 1], bookmarkId);
    }
  }

  /** Removing a tag's rows keeps the composite key intact. */
  lemma {:induction false} WithoutTagKeepsKey(ls: seq<BookmarkTag>, tagId: int)
    requires LinksUnique(ls)
    ensures LinksUnique(WithoutTag(ls, tagId))
  {
    if ls != [] {
      WithoutTagKeepsKey(ls[..|ls| - 1], tagId);
    }
  }

  /** Deleting a bookmark keeps the primary key of the rest. */
  lemma {:induction false} DropBookmarkKeepsKey(bs: seq<Bookmark>, id: int)
    requires BookmarkIdsUnique(bs)
    ensures BookmarkIdsUnique(DropBookmark(bs, id))
  {
    if bs != [] {
      DropBookmarkKeepsKey(bs[..|bs| - 1], id);
    }
  }

  /** Deleting a book keeps the primary key and the ISBN index of the rest. */
  lemma {:induction false} DropBookKeepsKeys(bs: seq<Book>, id: int)
    requires BookIdsUnique(bs) && IsbnsUnique(bs)
    ensures BookIdsUnique(DropBook(bs, id)) && IsbnsUnique(DropBook(bs, id))
  {
    if bs != [] {
      DropBookKeepsKeys(bs[..|bs| - 1], id);
    }
  }

  /** Deleting a book's readings keeps the primary key of the rest. */
  lemma {:induction false} WithoutBookKeepsKey(rs: seq<Reading>, bookId: int)
    requires ReadingIdsUnique(rs)
    ensures ReadingIdsUnique(WithoutBook(rs, bookId))
  {
    if rs != [] {
      WithoutBookKeepsKey(rs[..|rs| - 1], bookId);
    }
  }

  /** Deleting a tag keeps the primary key and the name index of the rest. */
  lemma {:induction false} DropTagKeepsKeys(ts: seq<Tag>, id: int)
    requires TagIdsUnique(ts) && TagNamesUnique(ts)
    ensures TagIdsUnique(DropTag(ts, id)) && TagNamesUnique(DropTag(ts, id))
  {
    if ts != [] {
      DropTagKeepsKeys(ts[..|ts| - 1], id);
    }
  }
}
