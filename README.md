# ReaderBuddy bookmark and book stores in Dafny

ReaderBuddy is a web API that keeps bookmarks with tags, and books with readings.
This project models three parts of it and proves what they guarantee:

- The bookmark service (`BookmarkService`). It creates, reads, updates, deletes and
  searches bookmarks. Each bookmark is returned with its tags ("hydration").
  On every create or update it reconciles the bookmark's tags:
  1. It deletes every (bookmark, tag) pair of the bookmark.
  2. It walks the requested names. A blank name is skipped. Any other name is
     trimmed. The tag with exactly that name is reused, or a new tag is created
     with colour `#007bff`. Then the pair is added.
- The database schema (`ReaderBuddyDbContext`). Its primary keys, the composite key
  of the join table, the unique indexes on `Tag.Name` and `Book.ISBN`, the
  cascading deletes and the column lengths become the stores' invariants.
- The book service (`BookService`). It does create, read, update, delete and search
  over the book table.

Layout:

- `wrappers.dfy` holds `Option`, `Result` and `Outcome`.
- `text.dfy` holds .NET's `char.IsWhiteSpace`, `string.IsNullOrWhiteSpace`,
  `string.Trim` and ordinal `string.Contains`.
- `schema.dfy` holds the entities, the keys and indexes, key lookup, the cascades
  and the column lengths.
- `bookmark_spec.dfy` holds the pure specification, as functions over the tables:
  - tag reconciliation, written as `Reconcile` over a loop `Assign` of single turns `Step`;
  - hydration, written as `HydratedTags` and `Hydrate`;
  - bookmark search, written as `Matching`;
  - the lemmas about all three.
- `bookmark_service.dfy` holds the class `BookmarkService`:
  - its fields are the bookmark, tag and join tables plus the two identity counters;
  - its methods run the same loops as the source;
  - each method's `ensures` ties the result and the new tables to the
    specification functions.
- `book_service.dfy` holds the class `BookService` over the book and reading tables.

What is proved about tag reconciliation (`BookmarkSpec.ReconcileCorrect` and the lemmas after it):

- It keeps every tag id unique, every tag name unique and every (bookmark, tag)
  pair unique. Every pair still points at a stored tag.
- It runs to the end exactly when the trimmed non-blank names are pairwise
  different. When it does, the bookmark is shown with exactly those names, in
  request order.
- Stored tags are never changed or removed. Every new tag has a requested name,
  the default colour and the time of the request.
- No other bookmark's pairs change, and no other bookmark is shown differently.
- After a run that went to the end, sending the same list again changes nothing
  anyone can see.

Two names that are equal after trimming, such as `["Tag", "tag", " tag "]`, make the
loop add the same (bookmark, tag) pair twice. The join table's composite key
(src/server/Data/ReaderBuddyDbContext.cs:77) refuses the second insert. This is
modelled as a failed outcome (`ok == false`). The failure stops the loop and keeps
the rows written so far, because the clear-then-rebuild sequence is not
transactional. The code has no de-duplication step, so the second insert of the
pair fails (`BookmarkSpec.TagTagTagRejected`).

Time is a parameter `now`. Every read of the clock within one operation is
taken to return the same `now`. Database identity values come from counters
that start at 1.

## Model

| member | source | states |
|---|---|---|
| `Text.IsWhiteSpace` | src/ReaderBuddy.WebApi/Services/BookmarkService.cs:181 | the characters .NET counts as white space: the space, the controls U+0009 to U+000D, U+0085, U+00A0 and the Unicode space, line and paragraph separators |
| `Text.IsNullOrWhiteSpace` | src/ReaderBuddy.WebApi/Services/BookmarkService.cs:181 | a name is blank exactly when every character is white space; the empty name is blank |
| `Text.TrimStart` | src/ReaderBuddy.WebApi/Services/BookmarkService.cs:184 | the result is a suffix of the input, everything cut off is white space, and it does not start with white space |
| `Text.TrimEnd` | src/ReaderBuddy.WebApi/Services/BookmarkService.cs:184 | the result is a prefix of the input, everything cut off is white space, and it does not end with white space |
| `Text.Contains` | src/ReaderBuddy.WebApi/Services/BookmarkService.cs:110-112 | ordinal substring test: the term occurs at some position of the string, character for character |
| `Text.Trim` | src/ReaderBuddy.WebApi/Services/BookmarkService.cs:184 | the trimmed name is no longer than the input and has no white space at either end |
| `Text.TrimNonEmptyIff` | src/ReaderBuddy.WebApi/Services/BookmarkService.cs:181-192 | trimming leaves a non-empty name exactly when the name is not blank, so reconciliation never creates a tag with an empty name |
| `Text.TrimIsInfix` | src/ReaderBuddy.WebApi/Services/BookmarkService.cs:192 | the trimmed name is a piece of the original name; characters are only removed at the ends |
| `Text.TrimSpaced` | src/ReaderBuddy.WebApi/Services/BookmarkService.cs:184 | one space on each side of a name that has no white space at its ends is trimmed away |
| `Text.TrimIdempotent` | src/ReaderBuddy.WebApi/Services/BookmarkService.cs:184 | trimming a trimmed name changes nothing, so a stored tag name looks itself up |
| `Text.Utf16Length` | src/server/Data/ReaderBuddyDbContext.cs:67 | the length `HasMaxLength` limits, in UTF-16 code units: at least one and at most two per character, and one per character exactly when no character lies above U+FFFF |
| `Text.Utf16LengthAppend` | src/server/Data/ReaderBuddyDbContext.cs:67 | the code units of two strings put together add up |
| `Text.TrimUtf16Length` | src/ReaderBuddy.WebApi/Services/BookmarkService.cs:184 | trimming never adds code units, so a name within the tag name length is still within it once trimmed |
| `Text.Utf16LengthAstral` | src/server/Data/ReaderBuddyDbContext.cs:67 | an emoji is one character but two code units of the column's length |
| `Text.ContainsEmpty` | src/ReaderBuddy.WebApi/Controllers/BookmarksController.cs:136-139 | every string contains the empty term, which is why callers refuse a blank search term |
| `Text.ContainsIsCaseSensitive` | src/ReaderBuddy.WebApi/Services/BookmarkService.cs:109-112 | matching is ordinal: "Go" is found in "Go Guide" but not in "golang tips" |
| `Schema.BookmarkIndex` | src/ReaderBuddy.WebApi/Services/BookmarkService.cs:47-49 | lookup by key finds a row with that key exactly when one exists |
| `Schema.BookIndex` | src/ReaderBuddy.WebApi/Services/BookService.cs:23-27 | lookup by key finds a row with that key exactly when one exists |
| `Schema.TagWithId` | src/ReaderBuddy.WebApi/Services/BookmarkService.cs:145 | lookup by key yields a stored tag with that key, and yields nothing exactly when there is none |
| `Schema.TagNamed` | src/ReaderBuddy.WebApi/Services/BookmarkService.cs:184 | lookup by exact name yields a stored tag with that name, and yields nothing exactly when no tag has it |
| `Schema.WithoutBookmark` | src/server/Data/ReaderBuddyDbContext.cs:79-82 | the cascade of deleting a bookmark removes exactly its pairs and keeps every other pair |
| `Schema.WithoutTag` | src/server/Data/ReaderBuddyDbContext.cs:84-87 | the cascade of deleting a tag removes exactly its pairs and keeps every other pair |
| `Schema.WithoutBook` | src/server/Data/ReaderBuddyDbContext.cs:46-49 | the cascade of deleting a book removes exactly its readings and keeps every other reading |
| `Schema.RemoveRow` | src/ReaderBuddy.WebApi/Services/BookmarkService.cs:175 | deleting a join row removes that row and keeps every other |
| `Schema.DropBookmark` | src/ReaderBuddy.WebApi/Services/BookmarkService.cs:98-102 | deleting a bookmark removes exactly the rows with that key |
| `Schema.DropBook` | src/ReaderBuddy.WebApi/Services/BookService.cs:47-51 | deleting a book removes exactly the rows with that key |
| `Schema.DropTag` | src/server/Data/ReaderBuddyDbContext.cs:84-87 | deleting a tag removes exactly the rows with that key |
| `Schema.WithoutBookmarkKeepsKey` | src/server/Data/ReaderBuddyDbContext.cs:77 | the bookmark cascade keeps the join table's composite key |
| `Schema.WithoutTagKeepsKey` | src/server/Data/ReaderBuddyDbContext.cs:77 | the tag cascade keeps the join table's composite key |
| `Schema.DropBookmarkKeepsKey` | src/server/Data/ReaderBuddyDbContext.cs:55 | deleting a bookmark keeps the bookmark key unique |
| `Schema.DropBookKeepsKeys` | src/server/Data/ReaderBuddyDbContext.cs:25-34 | deleting a book keeps the book key and the ISBN index unique |
| `Schema.WithoutBookKeepsKey` | src/server/Data/ReaderBuddyDbContext.cs:40 | the book cascade keeps the reading key unique |
| `Schema.DropTagKeepsKeys` | src/server/Data/ReaderBuddyDbContext.cs:66-71 | deleting a tag keeps the tag key and the tag name index unique |
| `BookmarkSpec.Consistent` | src/server/Data/ReaderBuddyDbContext.cs:66-87 | the tag key, the unique tag name index, the join table's composite key and its foreign key to tags hold, and the tag counter is past every tag key |
| `BookmarkSpec.LinkTag` | src/ReaderBuddy.WebApi/Services/BookmarkService.cs:203-209 | the pair is appended when the composite key does not hold it yet; otherwise the insert is refused and nothing changes |
| `BookmarkSpec.Step` | src/ReaderBuddy.WebApi/Services/BookmarkService.cs:181-209 | one pass of the rebuild loop: a blank name is skipped, otherwise the tag with the trimmed name is reused or created with the default colour and the pair is added |
| `BookmarkSpec.Assign` | src/ReaderBuddy.WebApi/Services/BookmarkService.cs:179-210 | the rebuild loop over the names in order, stopping at the first refused pair |
| `BookmarkSpec.Reconcile` | src/ReaderBuddy.WebApi/Services/BookmarkService.cs:169-211 | the bookmark's pairs are cleared, then the rebuild loop runs |
| `BookmarkSpec.HydratedTags` | src/ReaderBuddy.WebApi/Services/BookmarkService.cs:139-155 | the bookmark's pairs in table order, each tag id looked up, an id that does not resolve skipped |
| `BookmarkSpec.Hydrate` | src/ReaderBuddy.WebApi/Services/BookmarkService.cs:157-166 | the transfer object carries the bookmark's own fields and its hydrated tags |
| `BookmarkSpec.BookmarkMatches` | src/ReaderBuddy.WebApi/Services/BookmarkService.cs:109-112 | a bookmark matches when its title, description or url contains the term |
| `BookmarkSpec.Requested` | src/ReaderBuddy.WebApi/Services/BookmarkService.cs:179-192 | the names a request asks for are non-empty and trimmed, each is the trim of one of the given names, and there are no more of them than given names |
| `BookmarkSpec.RequestedCovers` | src/ReaderBuddy.WebApi/Services/BookmarkService.cs:179-192 | every non-blank given name is asked for, trimmed |
| `BookmarkSpec.LinksOf` | src/ReaderBuddy.WebApi/Services/BookmarkService.cs:139 | the lookup on the join table yields exactly the bookmark's pairs |
| `BookmarkSpec.TagIdsOf` | src/ReaderBuddy.WebApi/Services/BookmarkService.cs:140 | the projection yields the tag id of each pair, in pair order |
| `BookmarkSpec.ResolveTags` | src/ReaderBuddy.WebApi/Services/BookmarkService.cs:143-155 | every listed tag is the stored tag of one of the ids, an id that does not resolve is skipped, and when all ids resolve there is one tag per id in id order |
| `BookmarkSpec.Matching` | src/ReaderBuddy.WebApi/Services/BookmarkService.cs:109-112 | the search yields exactly the stored bookmarks whose title, description or url contains the term |
| `BookmarkSpec.SameIdSameTag` | src/server/Data/ReaderBuddyDbContext.cs:66 | under the primary key, two stored tags with the same key are the same tag |
| `BookmarkSpec.SameNameSameTag` | src/server/Data/ReaderBuddyDbContext.cs:71 | under the unique name index, two stored tags with the same name are the same tag |
| `BookmarkSpec.TagWithIdFinds` | src/ReaderBuddy.WebApi/Services/BookmarkService.cs:145 | looking up a stored tag by its own key finds that tag |
| `BookmarkSpec.HydratedResolves` | src/ReaderBuddy.WebApi/Services/BookmarkService.cs:139-155 | when the foreign key holds, every pair resolves, so a bookmark is shown with one tag per pair, in pair order |
| `BookmarkSpec.LinkedNameIff` | src/ReaderBuddy.WebApi/Services/BookmarkService.cs:139-155 | a stored tag's name is among a bookmark's shown names exactly when the pair (bookmark, tag) is stored |
| `BookmarkSpec.LinkedNamesStored` | src/ReaderBuddy.WebApi/Services/BookmarkService.cs:145-153 | every name a bookmark is shown with is the name of a stored tag |
| `BookmarkSpec.LinkedNamesDistinct` | src/server/Data/ReaderBuddyDbContext.cs:71-77 | under the composite key and the name index, a bookmark shows each tag name at most once |
| `BookmarkSpec.StepReuses` | src/ReaderBuddy.WebApi/Services/BookmarkService.cs:198-209 | reusing a stored tag succeeds exactly when the bookmark does not yet show that tag, and then appends the tag's name |
| `BookmarkSpec.StepCreates` | src/ReaderBuddy.WebApi/Services/BookmarkService.cs:187-209 | a name no tag has yields a new tag, and the pair is always accepted and appends that name |
| `BookmarkSpec.StepNames` | src/ReaderBuddy.WebApi/Services/BookmarkService.cs:181-209 | a pass on a non-blank name keeps the tables consistent, and succeeds exactly when the trimmed name is new to the bookmark, then appending it |
| `BookmarkSpec.StepTags` | src/ReaderBuddy.WebApi/Services/BookmarkService.cs:187-197 | a pass keeps every stored tag and adds at most one tag, under the next key, with the trimmed name and the default colour, and only for a non-blank name |
| `BookmarkSpec.StepLinks` | src/ReaderBuddy.WebApi/Services/BookmarkService.cs:203-209 | a pass adds only a pair of its own bookmark and leaves every other bookmark's pairs alone |
| `BookmarkSpec.AssignConsistent` | src/ReaderBuddy.WebApi/Services/BookmarkService.cs:179-210 | the walk over the names keeps the keys, the name index and the foreign key, also when it stops early |
| `BookmarkSpec.AssignNames` | src/ReaderBuddy.WebApi/Services/BookmarkService.cs:179-210 | when the walk runs to the end, the bookmark's names are its earlier names followed by the requested names |
| `BookmarkSpec.AssignRunsToEnd` | src/ReaderBuddy.WebApi/Services/BookmarkService.cs:179-210 | the walk runs to the end exactly when the earlier names and the requested names are all different |
| `BookmarkSpec.AssignTags` | src/ReaderBuddy.WebApi/Services/BookmarkService.cs:187-197 | the walk keeps every stored tag in place, never moves the identity counter back, and adds only tags made for the request |
| `BookmarkSpec.AssignLinks` | src/ReaderBuddy.WebApi/Services/BookmarkService.cs:203-209 | the walk adds only pairs of its own bookmark, and every other bookmark keeps its pairs in order |
| `BookmarkSpec.AssignNoNewTags` | src/ReaderBuddy.WebApi/Services/BookmarkService.cs:184-201 | when every requested name is already a tag, the walk creates no tag |
| `BookmarkSpec.ClearedHasNoLinks` | src/ReaderBuddy.WebApi/Services/BookmarkService.cs:172-176 | after the clearing loop the bookmark has no pairs |
| `BookmarkSpec.ClearedKeepsOthers` | src/ReaderBuddy.WebApi/Services/BookmarkService.cs:172-176 | the clearing loop leaves every other bookmark's pairs, in order |
| `BookmarkSpec.ClearedConsistent` | src/ReaderBuddy.WebApi/Services/BookmarkService.cs:172-176 | the clearing loop keeps the tables consistent, and the bookmark is then shown with no tags |
| `BookmarkSpec.RemoveRowAfterExcept` | src/ReaderBuddy.WebApi/Services/BookmarkService.cs:173-176 | deleting one more row from what the loop has left equals deleting it together with the earlier rows |
| `BookmarkSpec.DeletingOwnRows` | src/ReaderBuddy.WebApi/Services/BookmarkService.cs:172-176 | deleting the rows that the lookup on the bookmark finds gives the same table as the schema's cascade for that bookmark |
| `BookmarkSpec.DeleteBookmarkKeepsOthers` | src/server/Data/ReaderBuddyDbContext.cs:79-82 | deleting a bookmark leaves it no pairs and changes how no other bookmark is shown |
| `BookmarkSpec.DeleteTagConsistent` | src/server/Data/ReaderBuddyDbContext.cs:84-87 | deleting a tag with its pairs keeps the keys, the name index and the foreign key |
| `BookmarkSpec.ReconcileCorrect` | src/ReaderBuddy.WebApi/Services/BookmarkService.cs:169-211 | reconciliation keeps the tables consistent, runs to the end exactly when the requested names are pairwise different, and then leaves the bookmark showing exactly the requested names in request order |
| `BookmarkSpec.ReconcileFrame` | src/ReaderBuddy.WebApi/Services/BookmarkService.cs:169-211 | reconciliation only appends tags made for the request, leaves every other bookmark's pairs as they were, and adds only pairs of its own bookmark |
| `BookmarkSpec.ReconcileKeepsOthers` | src/ReaderBuddy.WebApi/Services/BookmarkService.cs:169-211 | reconciling one bookmark changes how no other bookmark is shown |
| `BookmarkSpec.HydratedByNames` | src/server/Data/ReaderBuddyDbContext.cs:71 | over one tag table, a bookmark's shown tags are fixed by their names |
| `BookmarkSpec.ReconcileIdempotent` | src/ReaderBuddy.WebApi/Services/BookmarkService.cs:169-211 | after a run that went to the end, reconciling again with the same names runs to the end, creates no tag, and leaves every bookmark shown as before |
| `BookmarkSpec.ReconcileTagsFit` | src/server/Data/ReaderBuddyDbContext.cs:67-68 | every tag stays within the name and colour lengths as long as no requested name is longer than 100 UTF-16 code units, because trimming never adds code units |
| `BookmarkSpec.BlankNamesIgnored` | src/ReaderBuddy.WebApi/Services/BookmarkService.cs:181-182 | the request ["  ", "", "alpha"] leaves the bookmark with the single tag "alpha" |
| `BookmarkSpec.ScenarioRequested` | src/ReaderBuddy.WebApi/Services/BookmarkService.cs:179-192 | a name, a second name, and the second name with a space on each side ask for the first name and then the second name twice; names that differ only in case, such as "Tag" and "tag", stay different |
| `BookmarkSpec.TrimmedRepeatRejected` | src/ReaderBuddy.WebApi/Services/BookmarkService.cs:203-209 | a request that repeats a name with padding does not run to the end, because the repeated pair collides with the join table's key |
| `BookmarkSpec.TagTagTagRejected` | src/ReaderBuddy.WebApi/Services/BookmarkService.cs:179-209 | the request ["Tag", "tag", " tag "] does not run to the end |
| `BookmarkStore.BookmarkService.Valid` | src/server/Data/ReaderBuddyDbContext.cs:53-87 | the bookmark key, the tag tables' constraints and the join table's foreign key to bookmarks hold, and the bookmark counter is past every bookmark key |
| `BookmarkStore.BookmarkService.GetAllTags` | src/ReaderBuddy.WebApi/Services/BookmarkService.cs:124-135 | one transfer object per stored tag, with its key, name and colour, in table order |
| `BookmarkStore.TagDtos` | src/ReaderBuddy.WebApi/Services/BookmarkService.cs:129-134 | the projection has one transfer object per tag, in order |
| `BookmarkStore.BookmarkService.MapToBookmarkDto` | src/ReaderBuddy.WebApi/Services/BookmarkService.cs:137-167 | the loop over the bookmark's pairs yields the bookmark's fields with its hydrated tags |
| `BookmarkStore.BookmarkService.MapAll` | src/ReaderBuddy.WebApi/Services/BookmarkService.cs:32-40 | the loop hydrates each bookmark, in order |
| `BookmarkStore.BookmarkService.GetAllBookmarks` | src/ReaderBuddy.WebApi/Services/BookmarkService.cs:27-41 | one hydrated bookmark per stored bookmark, in table order, with nothing changed |
| `BookmarkStore.BookmarkService.GetBookmarkById` | src/ReaderBuddy.WebApi/Services/BookmarkService.cs:43-52 | nothing exactly when no bookmark has the key; otherwise that bookmark, hydrated |
| `BookmarkStore.BookmarkService.SearchBookmarks` | src/ReaderBuddy.WebApi/Services/BookmarkService.cs:105-122 | for a non-blank term, exactly the matching stored bookmarks in table order, each hydrated, with nothing changed |
| `BookmarkStore.BookmarkService.RemoveTagsOf` | src/ReaderBuddy.WebApi/Services/BookmarkService.cs:171-176 | deleting the bookmark's pairs one by one leaves the join table as the cascade would, with every other table unchanged |
| `BookmarkStore.BookmarkService.AddTag` | src/ReaderBuddy.WebApi/Services/BookmarkService.cs:181-209 | one pass of the loop changes the tables exactly as the turn `Step` does |
| `BookmarkStore.BookmarkService.AddPair` | src/ReaderBuddy.WebApi/Services/BookmarkService.cs:203-209 | the pair is appended exactly when the join table does not hold it yet; otherwise nothing changes and the outcome is a refusal |
| `BookmarkStore.BookmarkService.AssignTagsToBookmark` | src/ReaderBuddy.WebApi/Services/BookmarkService.cs:169-211 | the two loops leave the tables and the outcome exactly as `Reconcile` says, touch no bookmark row, and keep the invariant |
| `BookmarkStore.BookmarkService.CreateBookmark` | src/ReaderBuddy.WebApi/Services/BookmarkService.cs:54-73 | one new row under the next key, with the given fields and both timestamps set to now; its tags are reconciled; the result is the new bookmark, hydrated, or the duplicate-pair error |
| `BookmarkStore.BookmarkService.UpdateBookmark` | src/ReaderBuddy.WebApi/Services/BookmarkService.cs:75-92 | a missing key is refused with nothing changed; otherwise the title, url and description are overwritten, UpdatedAt becomes now, the key and CreatedAt are kept, and the tags are replaced by reconciliation |
| `BookmarkStore.BookmarkService.DeleteBookmark` | src/ReaderBuddy.WebApi/Services/BookmarkService.cs:94-103 | removes exactly the rows with that key and, through the cascade, their pairs; tags stay; a missing key changes nothing |
| `BookmarkStore.DropMissingBookmark` | src/ReaderBuddy.WebApi/Services/BookmarkService.cs:98-102 | deleting a key that is not stored leaves the table as it was |
| `BookmarkStore.NoRowsOfMissingBookmark` | src/server/Data/ReaderBuddyDbContext.cs:79-82 | under the foreign key, a missing bookmark has no pairs for the cascade to delete |
| `BookStore.BookMatches` | src/ReaderBuddy.WebApi/Services/BookService.cs:57-60 | a book matches when its title, author or genre contains the term |
| `BookStore.IsbnInUse` | src/server/Data/ReaderBuddyDbContext.cs:34 | the unique ISBN index refuses an ISBN exactly when a book with another key already has it |
| `BookStore.BookService.Valid` | src/server/Data/ReaderBuddyDbContext.cs:23-49 | the book key, the unique ISBN index, the reading key and the readings' foreign key to books hold, and the book counter is past every book key |
| `BookStore.MatchingBooks` | src/ReaderBuddy.WebApi/Services/BookService.cs:57-60 | the search yields exactly the stored books whose title, author or genre contains the term |
| `BookStore.SearchFields` | src/ReaderBuddy.WebApi/Services/BookService.cs:57-60 | a book is found by a term in its title, but not by a term that differs in case or that appears only in its ISBN |
| `BookStore.BookService.GetAllBooks` | src/ReaderBuddy.WebApi/Services/BookService.cs:17-21 | the stored books, in table order |
| `BookStore.BookService.GetBookById` | src/ReaderBuddy.WebApi/Services/BookService.cs:23-27 | nothing exactly when no book has the key; otherwise a stored book with that key |
| `BookStore.BookService.SearchBooks` | src/ReaderBuddy.WebApi/Services/BookService.cs:54-61 | for a non-blank term, exactly the stored books whose title, author or genre contains it, in table order |
| `BookStore.BookService.CreateBook` | src/ReaderBuddy.WebApi/Services/BookService.cs:29-35 | with both timestamps set to now, exactly one book is added under the next key; an ISBN already in use is refused with nothing changed |
| `BookStore.BookService.UpdateBook` | src/ReaderBuddy.WebApi/Services/BookService.cs:37-42 | the book is stored as given with UpdatedAt set to now; a missing key, or an ISBN another book has, is refused with nothing changed |
| `BookStore.BookService.DeleteBook` | src/ReaderBuddy.WebApi/Services/BookService.cs:44-52 | removes exactly the rows with that key and, through the cascade, their readings; a missing key changes nothing |
| `BookStore.DropMissingBook` | src/ReaderBuddy.WebApi/Services/BookService.cs:47-51 | deleting a key that is not stored leaves the table as it was |
| `BookStore.NoReadingsOfMissingBook` | src/server/Data/ReaderBuddyDbContext.cs:46-49 | under the foreign key, a missing book has no readings for the cascade to delete |

## Left out

- Logging, `async`/`await`, dependency injection and the repositories' change tracking are left out. Each repository call becomes a function over the tables: a lookup, an append or a row removal.
- The clock becomes the parameter `now`. `CreateBookmarkAsync` reads `DateTime.UtcNow` twice, and the model gives both reads the same value.
- Identity values are unbounded counters that start at 1. The 32-bit limit of `int` keys and the gaps a real database can leave are not modelled.
- `BookmarkStore.BookmarkService.CreateBookmark` and `BookStore.BookService.CreateBook` always store the new row under the next counter value. Any `Id` the caller supplied is ignored.
- Column lengths (for example Title ≤ 500 and Tag Name ≤ 100) are counted in UTF-16 code units, as .NET's `string.Length` and SQL Server's `nvarchar` count them (`Text.Utf16Length`). They are predicates (`BookmarkFits`, `TagFits`, `BookFits`) and are not enforced on writes. SQLite, the development provider, does not enforce them. SQL Server does, and there an over-long value makes the write throw; the model does not have that failure. The create and update methods state that they keep every row within the lengths when the request is within them, and `ReconcileTagsFit` says the same for tags. Reading columns are not modelled, because no operation here writes a reading.
- The unique indexes are enforced, as SQLite and SQL Server enforce them. The in-memory provider would not enforce them.
- A failure inside a write is modelled as an error value (`DuplicateTagAssignment`, `DuplicateIsbn`, `NotFound`) instead of an exception. The rows written before the failure stay.
- `BookStore.BookService.UpdateBook` reports `NotFound` for a missing key, because the update touches no row. The optimistic-concurrency mechanism behind this is not modelled.
- Every string comparison is ordinal and case-sensitive. This covers the search `Contains`, the tag lookup by trimmed name and the unique index on tag names. Under SQL Server's default collation, used outside the development and testing environments, these compare without case, so there "Tag" and "tag" are one tag. That behaviour is not modelled.
- Every repository query is taken to return rows in insertion order. A query without an ORDER BY guarantees no order, so "in table order" and "in request order" are properties of the model, not of every database.
- Both `SearchBookmarks` and `SearchBooks` require a non-blank term, because the controllers refuse a blank term before calling the service.
- A `null` tag name is modelled as the empty string. `IsNullOrWhiteSpace` treats the two alike.
- Concurrency and interleaving of requests are not modelled. Every operation runs alone.
- Navigation collections (`Bookmark.BookmarkTags`, `Book.Readings`, `Tag.BookmarkTags`) are not modelled. The join and reading tables stand in for them.
- Readings have no service of their own in this model. They appear only as the table the book cascade empties.
- HTTP controllers, hosting, migrations and the client are not part of this model.
