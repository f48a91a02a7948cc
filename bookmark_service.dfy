/** The bookmark service over its three tables. Each operation works the
    tables in place the way the service drives its repositories; its result
    and the new tables are tied to the functions of BookmarkSpec, whose
    properties are proved there. */
module BookmarkStore {
  import opened Wrappers
  import opened Text
  import opened Schema
  import opened BookmarkSpec

  class BookmarkService {
    var bookmarks: seq<Bookmark>
    var tags: seq<Tag>
    var links: seq<BookmarkTag>
    /** The identity values the database hands out next. */
    var nextBookmarkId: int
    var nextTagId: int

    /** The tables reconciliation works on. */
    function Tables(): TagTables
      reads this
    {
      TagTables(tags, links, nextTagId)
    }

    /** The schema's keys, unique index and foreign keys hold, and the identity
        counters are past every key in use. */
    ghost predicate Valid()
      reads this
    {
      && BookmarkIdsUnique(bookmarks)
      && (forall b :: b in bookmarks ==> b.id < nextBookmarkId)
      && Consistent(Tables())
      && (forall l :: l in links ==> HasBookmark(bookmarks, l.bookmarkId))
    }

    /** An empty database. */
    constructor ()
      ensures Valid()
      ensures bookmarks == [] && tags == [] && links == []
      ensures nextBookmarkId == 1 && nextTagId == 1
    {
      bookmarks := [];
      tags := [];
      links := [];
      nextBookmarkId := 1;
      nextTagId := 1;
    }

    /** GetAllTagsAsync: every stored tag as a transfer object, in table order. */
    method GetAllTags() returns (r: seq<TagDto>)
      ensures |r| == |tags|
      ensures forall k :: 0 <= k < |tags| ==> r[k] == ToTagDto(tags[k])
    {
      r := TagDtos(tags);
    }

    /** MapToBookmarkDto: the bookmark's fields with the tags of its pairs,
        looked up one by one, an id that no longer resolves skipped. */
    method MapToBookmarkDto(bookmark: Bookmark) returns (dto: BookmarkDto)
      ensures dto == Hydrate(Tables(), bookmark)
    {
      var tagIds := TagIdsOf(LinksOf(links, bookmark.id));
      var found: seq<TagDto> := [];
      var k := 0;
      while k < |tagIds|
        invariant 0 <= k <= |tagIds|
        invariant found == ResolveTags(tags, tagIds[..k])
      {
        ResolvePrefix(tags, tagIds, k);
        var tag := TagWithId(tags, tagIds[k]);
        if tag.Some? {
          found := found + [ToTagDto(tag.value)];
        }
        k := k + 1;
      }
      assert tagIds[..k] == tagIds;
      dto := BookmarkDto(bookmark.id, bookmark.title, bookmark.url, bookmark.description,
                         bookmark.createdAt, bookmark.updatedAt, found);
    }

    /** Hydrates each of `bs` in turn. */
    method MapAll(bs: seq<Bookmark>) returns (r: seq<BookmarkDto>)
      ensures |r| == |bs|
      ensures forall k :: 0 <= k < |bs| ==> r[k] == Hydrate(Tables(), bs[k])
    {
      r := [];
      var k := 0;
      while k < |bs|
        invariant 0 <= k <= |bs|
        invariant |r| == k
        invariant forall m :: 0 <= m < k ==> r[m] == Hydrate(Tables(), bs[m])
      {
        var dto := MapToBookmarkDto(bs[k]);
        r := r + [dto];
        k := k + 1;
      }
    }

    /** GetAllBookmarksAsync: every bookmark, hydrated, in table order. */
    method GetAllBookmarks() returns (r: seq<BookmarkDto>)
      ensures |r| == |bookmarks|
      ensures forall k :: 0 <= k < |bookmarks| ==> r[k] == Hydrate(Tables(), bookmarks[k])
    {
      r := MapAll(bookmarks);
    }

    /** GetBookmarkByIdAsync: the bookmark with that key, hydrated, or nothing. */
    method GetBookmarkById(id: int) returns (r: Option<BookmarkDto>)
      ensures r.None? <==> !HasBookmark(bookmarks, id)
      ensures r.Some? ==> exists b :: b in bookmarks && b.id == id && r.value == Hydrate(Tables(), b)
    {
      var index := BookmarkIndex(bookmarks, id);
      if index.None? {
        return None;
      }
      var dto := MapToBookmarkDto(bookmarks[index.value]);
      assert bookmarks[index.value] in bookmarks;
      return Some(dto);
    }

    /** SearchBookmarksAsync: the bookmarks whose title, description or url
        contains the term, hydrated, in table order. Callers reject a blank
        term, which every bookmark would match. */
    method SearchBookmarks(term: string) returns (r: seq<BookmarkDto>)
      requires !IsNullOrWhiteSpace(term)
      ensures |r| == |Matching(bookmarks, term)|
      ensures forall k :: 0 <= k < |r| ==>
                Matching(bookmarks, term)[k] in bookmarks
                && BookmarkMatches(Matching(bookmarks, term)[k], term)
                && r[k] == Hydrate(Tables(), Matching(bookmarks, term)[k])
    {
      var found := Matching(bookmarks, term);
      r := MapAll(found);
      forall k | 0 <= k < |r| ensures found[k] in bookmarks && BookmarkMatches(found[k], term) {
        assert found[k] in found;
      }
    }

    /** The first loop of AssignTagsToBookmark: find the bookmark's pairs and
        delete them one at a time. */
    method RemoveTagsOf(bookmarkId: int)
      modifies this
      ensures links == WithoutBookmark(old(links), bookmarkId)
      ensures tags == old(tags) && nextTagId == old(nextTagId)
      ensures bookmarks == old(bookmarks) && nextBookmarkId == old(nextBookmarkId)
    {
      var existing := LinksOf(links, bookmarkId);
      ExceptNothing(links);
      var j := 0;
      while j < |existing|
        invariant 0 <= j <= |existing|
        invariant links == Except(old(links), existing[..j])
        invariant tags == old(tags) && nextTagId == old(nextTagId)
        invariant bookmarks == old(bookmarks) && nextBookmarkId == old(nextBookmarkId)
      {
        RemoveRowAfterExcept(old(links), existing[..j], existing[j]);
        assert existing[..j + 1] == existing[..j] + [existing[j]];
        links := RemoveRow(links, existing[j]);
        j := j + 1;
      }
      assert existing[..j] == existing;
      DeletingOwnRows(old(links), bookmarkId);
    }

    /** One pass of the second loop of AssignTagsToBookmark: skip a blank name;
        otherwise reuse the tag of the trimmed name or create it, then add the
        pair, which the join table's key refuses when it is already there. */
    method AddTag(bookmarkId: int, tagName: string, now: Timestamp) returns (ok: bool)
      modifies this
      ensures Reconciled(Tables(), ok) == Step(old(Tables()), bookmarkId, tagName, now)
      ensures bookmarks == old(bookmarks) && nextBookmarkId == old(nextBookmarkId)
    {
      ghost var t := Tables();
      ok := true;
      if IsNullOrWhiteSpace(tagName) {
        return;
      }
      var name := Trim(tagName);
      var existingTag := TagNamed(tags, name);
      var tag: Tag;
      if existingTag.None? {
        tag := Tag(nextTagId, name, DefaultTagColor, now);
        tags := tags + [tag];
        nextTagId := nextTagId + 1;
      } else {
        tag := existingTag.value;
      }
      assert Step(t, bookmarkId, tagName, now) == LinkTag(Tables(), bookmarkId, tag);
      ok := AddPair(bookmarkId, tag);
    }

    /** Adds the pair (bookmark, tag) unless the join table's key already holds it. */
    method AddPair(bookmarkId: int, tag: Tag) returns (ok: bool)
      modifies this
      ensures Reconciled(Tables(), ok) == LinkTag(old(Tables()), bookmarkId, tag)
      ensures bookmarks == old(bookmarks) && nextBookmarkId == old(nextBookmarkId)
    {
      var bookmarkTag := BookmarkTag(bookmarkId, tag.id);
      if bookmarkTag in links {
        return false;
      }
      links := links + [bookmarkTag];
      return true;
    }

    /** AssignTagsToBookmark: delete the bookmark's pairs, then walk the names.
        `ok` is false when the join table's key refused a pair, which ends the
        walk with the rows added so far kept. */
    method AssignTagsToBookmark(bookmarkId: int, tagNames: seq<string>, now: Timestamp) returns (ok: bool)
      requires Valid() && HasBookmark(bookmarks, bookmarkId)
      modifies this
      ensures Reconciled(Tables(), ok) == Reconcile(old(Tables()), bookmarkId, tagNames, now)
      ensures bookmarks == old(bookmarks) && nextBookmarkId == old(nextBookmarkId)
      ensures Valid()
    {
      ghost var start := Tables();
      ghost var target := Reconcile(start, bookmarkId, tagNames, now);
      RemoveTagsOf(bookmarkId);
      ok := true;
      var i := 0;
      while i < |tagNames| && ok
        invariant 0 <= i <= |tagNames|
        invariant ok ==> Assign(Tables(), bookmarkId, tagNames[i..], now) == target
        invariant !ok ==> Reconciled(Tables(), false) == target
        invariant bookmarks == old(bookmarks) && nextBookmarkId == old(nextBookmarkId)
        decreases |tagNames| - i, ok
      {
        AssignUnfold(Tables(), bookmarkId, tagNames[i..], now);
        assert tagNames[i..][0] == tagNames[i] && tagNames[i..][1..] == tagNames[i + 1..];
        ok := AddTag(bookmarkId, tagNames[i], now);
        i := i + 1;
      }
      if ok {
        assert tagNames[i..] == [];
      }
      ReconcileCorrect(start, bookmarkId, tagNames, now);
      ReconcileFrame(start, bookmarkId, tagNames, now);
    }

    /** CreateBookmarkAsync: a new row under the next key, stamped with the
        current time, then its tags reconciled and the result hydrated. */
    method CreateBookmark(request: CreateBookmarkDto, now: Timestamp) returns (r: Result<BookmarkDto, StoreError>)
      requires Valid()
      modifies this
      ensures Valid()
      ensures var created := Bookmark(old(nextBookmarkId), request.title, request.url, request.description, now, now);
        && bookmarks == old(bookmarks) + [created]
        && nextBookmarkId == old(nextBookmarkId) + 1
        && Reconciled(Tables(), r.Success?) == Reconcile(old(Tables()), created.id, request.tags, now)
        && (r.Success? ==> r.value == Hydrate(Tables(), created))
        && (r.Failure? ==> r.error == DuplicateTagAssignment)
      ensures (forall b :: b in old(bookmarks) ==> BookmarkFits(b)) && RequestFits(request) ==>
        forall b :: b in bookmarks ==> BookmarkFits(b)
    {
      var created := Bookmark(nextBookmarkId, request.title, request.url, request.description, now, now);
      assert !HasBookmark(bookmarks, created.id);
      bookmarks := bookmarks + [created];
      nextBookmarkId := nextBookmarkId + 1;
      assert bookmarks[|bookmarks| - 1] == created;
      assert Valid() by {
        forall l | l in links ensures HasBookmark(bookmarks, l.bookmarkId) {
          var m :| 0 <= m < |old(bookmarks)| && old(bookmarks)[m].id == l.bookmarkId;
          assert bookmarks[m].id == l.bookmarkId;
        }
      }
      var ok := AssignTagsToBookmark(created.id, request.tags, now);
      if !ok {
        return Failure(DuplicateTagAssignment);
      }
      var dto := MapToBookmarkDto(created);
      return Success(dto);
    }

    /** UpdateBookmarkAsync: a missing key is refused with nothing changed;
        otherwise title, url and description are overwritten, UpdatedAt set to
        now, the key and CreatedAt kept, and the tags replaced. */
    method UpdateBookmark(id: int, request: CreateBookmarkDto, now: Timestamp) returns (r: Outcome<StoreError>)
      requires Valid()
      modifies this
      ensures Valid()
      ensures !HasBookmark(old(bookmarks), id) ==>
        r == Fail(NotFound) && bookmarks == old(bookmarks) && Tables() == old(Tables())
        && nextBookmarkId == old(nextBookmarkId)
      ensures HasBookmark(old(bookmarks), id) ==>
        var k := BookmarkIndex(old(bookmarks), id).value;
        var b := old(bookmarks)[k];
        && bookmarks == old(bookmarks)[k := Bookmark(id, request.title, request.url, request.description, b.createdAt, now)]
        && nextBookmarkId == old(nextBookmarkId)
        && Reconciled(Tables(), r.Pass?) == Reconcile(old(Tables()), id, request.tags, now)
        && (r.Fail? ==> r.error == DuplicateTagAssignment)
      ensures (forall b :: b in old(bookmarks) ==> BookmarkFits(b)) && RequestFits(request) ==>
        forall b :: b in bookmarks ==> BookmarkFits(b)
    {
      var index := BookmarkIndex(bookmarks, id);
      if index.None? {
        return Fail(NotFound);
      }
      var k := index.value;
      var b := bookmarks[k];
      ghost var before := bookmarks;
      bookmarks := bookmarks[k := Bookmark(id, request.title, request.url, request.description, b.createdAt, now)];
      assert forall m :: 0 <= m < |bookmarks| ==> bookmarks[m].id == before[m].id;
      assert Valid() by {
        forall l | l in links ensures HasBookmark(bookmarks, l.bookmarkId) {
          var m :| 0 <= m < |before| && before[m].id == l.bookmarkId;
          assert bookmarks[m].id == l.bookmarkId;
        }
        forall x | x in bookmarks ensures x.id < nextBookmarkId {
          var m :| 0 <= m < |bookmarks| && bookmarks[m] == x;
          assert before[m] in before;
        }
      }
      assert bookmarks[k].id == id;
      var ok := AssignTagsToBookmark(id, request.tags, now);
      return if ok then Pass else Fail(DuplicateTagAssignment);
    }

    /** DeleteBookmarkAsync: a missing key changes nothing; otherwise the row
        goes and the join table's cascade takes its pairs with it. Tags stay. */
    method DeleteBookmark(id: int)
      requires Valid()
      modifies this
      ensures Valid()
      ensures bookmarks == DropBookmark(old(bookmarks), id)
      ensures links == WithoutBookmark(old(links), id)
      ensures tags == old(tags) && nextTagId == old(nextTagId) && nextBookmarkId == old(nextBookmarkId)
    {
      var index := BookmarkIndex(bookmarks, id);
      if index.None? {
        DropMissingBookmark(bookmarks, id);
        NoRowsOfMissingBookmark(links, bookmarks, id);
        return;
      }
      ghost var before := Tables();
      DropBookmarkKeepsKey(bookmarks, id);
      WithoutBookmarkKeepsKey(links, id);
      bookmarks := DropBookmark(bookmarks, id);
      links := WithoutBookmark(links, id);
      assert Valid() by {
        forall l | l in links ensures HasBookmark(bookmarks, l.bookmarkId) {
          assert l in old(links);
          var m :| 0 <= m < |old(bookmarks)| && old(bookmarks)[m].id == l.bookmarkId;
          assert old(bookmarks)[m] in bookmarks;
        }
        forall l | l in links ensures HasTag(tags, l.tagId) {
          assert l in before.links;
        }
      }
    }
  }

  /** GetAllTagsAsync's projection. */
  function TagDtos(ts: seq<Tag>): (r: seq<TagDto>)
    ensures |r| == |ts|
    ensures forall k :: 0 <= k < |ts| ==> r[k] == ToTagDto(ts[k])
  {
    if ts == [] then [] else TagDtos(ts[..|ts| - 1]) + [ToTagDto(ts[|ts| - 1])]
  }

  /** Deleting a key that is not there leaves the table as it was. */
  lemma {:induction false} DropMissingBookmark(bs: seq<Bookmark>, id: int)
    requires !HasBookmark(bs, id)
    ensures DropBookmark(bs, id) == bs
  {
    if bs != [] {
      var init, last := bs[..|bs| - 1], bs[|bs| - 1];
      assert bs == init + [last];
      assert !HasBookmark(init, id) by {
        forall k | 0 <= k < |init| ensures init[k].id != id {
          assert init[k] == bs[k];
        }
      }
      DropMissingBookmark(init, id);
      assert last.id != id;
      DropBookmarkSnoc(init, last, id);
    }
  }

  /** With the foreign key in place, a missing bookmark has no pairs to cascade. */
  lemma {:induction false} NoRowsOfMissingBookmark(ls: seq<BookmarkTag>, bs: seq<Bookmark>, id: int)
    requires !HasBookmark(bs, id)
    requires forall l :: l in ls ==> HasBookmark(bs, l.bookmarkId)
    ensures WithoutBookmark(ls, id) == ls
  {
    if ls != [] {
      var init, last := ls[..|ls| - 1], ls[|ls| - 1];
      assert ls == init + [last];
      assert forall l :: l in init ==> l in ls;
      NoRowsOfMissingBookmark(init, bs, id);
      assert last in ls;
      WithoutBookmarkSnoc(init, last, id);
    }
  }
}
