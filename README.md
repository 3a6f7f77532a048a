# CoolReader catalog entry (`FileInfo`) in Dafny

CoolReader's Android library browser shows books, directories, archives and
virtual folders (recent books, search results, OPDS catalogs, books grouped
by author, series, genre, rating or reading state). Every node of that tree
is a `FileInfo`. A node holds:

- the entry's properties;
- a packed 32-bit state word;
- listing marks;
- a parent link;
- an untyped payload;
- two nullable child lists, one for directories and one for files.

This project models that class and proves what its operations promise.

Modules, in dependency order:

- `Wrappers`: Java `null` as `Option`, and a thrown `NullPointerException` or
  `IndexOutOfBoundsException` as the `Throw` case of `Result`.
- `StateFlags`: the state word as a `bv32`.
  - Bits 0..15 hold document flags.
  - Bits 16..19 hold the reading state and 20..23 the rate.
  - Bits 24..25 hold the info type and 26..29 the profile id.
  - `getBitValue`/`setBitValue` and `setFlag`/`getFlag` are modelled, with the
    lemmas that writes to one field do not interfere with the others.
- `PathIdentity`: the composite path syntax `archive@/member` (`splitArcName`,
  `getPathName`, `getBasePath`, `getArchiveItemName`) and the sentinel paths of
  virtual directories.
  - It covers the `is*` classification predicates, including the payload-dependent
    `isOPDSDir`/`isOPDSBook`/`isOnlineCatalogPluginBook` and `allowSorting`.
  - It covers the parameter parsers `getGenreCode`, `getOPDSUrl`, `isHidden` and
    the three online-catalog plugin getters.
- `Entry`: `Props`, exactly the fields `assign` copies, plus the value-level
  parts of `equals` and `baseEquals`.
  - It also holds `getSeriesNumber`, `getTitleOrFileName` and the property copy
    made by `setFileProperties`.
- `SortOrders`: the eight `SortOrder` comparators built from `cmpNotNullFirst`,
  `cmp` and `firstNz`, `fromName`, and the proof that every comparator is a
  total preorder. It also holds the insertion sort standing in for `Collections.sort`.
- `Catalog`: the `FileInfo` class, with the fields the source mutates (`props`,
  `isListed`, `isScanned`, `parent`, `tag`, `dirs`, `files`).
  - It has every container method, the change-reporting setters, structural
    `equals`, `baseEquals`, `isOnSDCard`, `findItemByPathName` and `sort`.
  - Loops in the source are loops here, each proved against a specification
    function: `Appended`/`OfKind` for adding, `FirstMatch` and `FirstEqual` for
    the searches, `KeptDirs` for `removeEmptyDirs`, `Find` for lookup and
    `SortedChildren` for `sort`.

Java `int`/`long` values other than the state word are unbounded integers.
Java strings are `seq<char>`.

`cmpNotNullFirst` reads as if entries with a series or title always come
first. The code keeps that only in the ascending orders, and the model follows
the code. The descending comparators call `cmpNotNullFirst` with swapped
arguments, so in a `*_DESC` order an entry without a series or title comes
before those with one (`SortOrders.NullSeriesPlacement`,
`SortOrders.NullTitlePlacement`).

## Model

All paths below are relative to the repository root.

| member | source | states |
|---|---|---|
| `StateFlags.GetAfterSet` | android/src/org/coolreader/crengine/FileInfo.java:198-207 | after a named setter, its getter returns the written value masked to the field's width |
| `StateFlags.SetKeepsOtherBits` | android/src/org/coolreader/crengine/FileInfo.java:78-110 | `setBitValue` leaves every bit outside `mask << shift` as it was, including the 16 low document-flag bits |
| `StateFlags.SetKeepsOtherFields` | android/src/org/coolreader/crengine/FileInfo.java:83-110 | writing one of reading state, rate, info type or profile id never changes the other three |
| `StateFlags.SetChangesIff` | android/src/org/coolreader/crengine/FileInfo.java:198-203 | the setter's boolean result (`flags != oldFlags`) is true exactly when the field held something other than `value & mask` |
| `StateFlags.GetIsMasked` | android/src/org/coolreader/crengine/FileInfo.java:205-207 | a field read is already within its mask |
| `StateFlags.FieldsDisjoint` | android/src/org/coolreader/crengine/FileInfo.java:78-110 | the four named fields occupy pairwise disjoint bit ranges, all clear of bits 0..15 |
| `StateFlags.SetFlagTrue` | android/src/org/coolreader/crengine/FileInfo.java:182-184 | `setFlag(flag, true)` sets every bit of `flag` |
| `StateFlags.SetFlagFalse` | android/src/org/coolreader/crengine/FileInfo.java:182-184 | `setFlag(flag, false)` clears every bit of `flag` |
| `StateFlags.SetFlagKeepsOtherBits` | android/src/org/coolreader/crengine/FileInfo.java:182-184 | `setFlag` leaves the bits outside `flag` alone |
| `StateFlags.GetFlagAfterSetFlag` | android/src/org/coolreader/crengine/FileInfo.java:182-188 | for a non-zero flag, `getFlag` reads back what `setFlag` wrote |
| `PathIdentity.IndexOf` | android/src/org/coolreader/crengine/FileInfo.java:227 | `String.indexOf`: -1 when absent, otherwise an occurrence with none before it |
| `PathIdentity.SplitAtFirst` | android/src/org/coolreader/crengine/FileInfo.java:227-231 | cutting at the first occurrence leaves a head free of the pattern, and head + pattern + tail is the input |
| `PathIdentity.SplitArcName` | android/src/org/coolreader/crengine/FileInfo.java:224-236 | the archive part is null exactly when there is no `"@/"`, in which case the member part is the whole path; otherwise archive + `"@/"` + member is the input and the archive part contains no `"@/"` |
| `PathIdentity.SplitOfJoin` | android/src/org/coolreader/crengine/FileInfo.java:224-236 | for an archive path A without `"@/"`, splitting `A + "@/" + M` gives `(M, A)` |
| `PathIdentity.GetPathName` | android/src/org/coolreader/crengine/FileInfo.java:614-619 | without an archive it is the pathname; with one it starts with archive + `"@/"` |
| `PathIdentity.SplitOfPathName` | android/src/org/coolreader/crengine/FileInfo.java:614-626 | splitting `getPathName()` returns the entry's own `(pathname, arcname)`; `getBasePath` is the archive or else the path |
| `PathIdentity.ArchiveMemberExample` | android/src/org/coolreader/crengine/FileInfo.java:404-409 | worked example: `/sdcard/book.zip@/chapter1.fb2` splits into its member and archive; base path and archive item name agree |
| `PathIdentity.VirtualPathsAreSpecial` | android/src/org/coolreader/crengine/FileInfo.java:411-526 | the exact-tag predicates hold exactly for the 13 sentinels, which are pairwise distinct; every exact-tag and prefix predicate implies `isSpecialDir` |
| `PathIdentity.PrefixPrecedence` | android/src/org/coolreader/crengine/FileInfo.java:20-41 | a group path (`@genresGroup:`, `@authorGroup:`, `@seriesGroup:`) is never a leaf directory of its kind; `@opds` is not an OPDS directory or book; `@search` is not the search-results directory |
| `PathIdentity.AllowSortingScope` | android/src/org/coolreader/crengine/FileInfo.java:1463-1465 | `allowSorting`: a file never sorts, an ordinary directory always does, the root, recent, OPDS-directory and series directories never do, and author directories and the search results still do |
| `PathIdentity.OPDSDirOrBook` | android/src/org/coolreader/crengine/FileInfo.java:441-455 | under `"@opds:"` exactly one of `isOPDSDir`/`isOPDSBook` holds, and it is a book exactly when the payload is an OPDS entry with a best acquisition link |
| `PathIdentity.GenreCode` | android/src/org/coolreader/crengine/FileInfo.java:539-544 | null pathname throws; a genre path is `"@genre:"` + result; any other path gives "" |
| `PathIdentity.OPDSUrl` | android/src/org/coolreader/crengine/FileInfo.java:565-570 | null pathname throws; the result is non-null exactly under `"@opds:"`, and then the path is `"@opds:"` + result |
| `PathIdentity.IsHidden` | android/src/org/coolreader/crengine/FileInfo.java:560-563 | null pathname throws; otherwise true exactly when the path starts with `"."` |
| `PathIdentity.PluginPathParts` | android/src/org/coolreader/crengine/FileInfo.java:572-594 | for a package without `':'`, `"@plugin:" + pkg + ":" + path` yields package `pkg` and path `path` |
| `PathIdentity.PluginPackageOnly` | android/src/org/coolreader/crengine/FileInfo.java:572-606 | a plugin path without `':'` is all package, with a null path and a null id |
| `PathIdentity.PluginIdPart` | android/src/org/coolreader/crengine/FileInfo.java:596-606 | the id is the text after the first `'='` of the plugin path |
| `PathIdentity.PluginPathRebuild` | android/src/org/coolreader/crengine/FileInfo.java:572-594 | whenever a plugin path is parsed, the package (which has no `':'`) and the path rebuild the pathname |
| `Entry.Blank` | android/src/org/coolreader/crengine/FileInfo.java:352-356 | a fresh entry has the two engine settings, zero flags, null paths and is neither directory nor archive |
| `Entry.SeriesNumber` | android/src/org/coolreader/crengine/FileInfo.java:1023-1025 | the series number when the series is non-empty, else 0 |
| `Entry.TitleOrFileName` | android/src/org/coolreader/crengine/FileInfo.java:209-217 | the title if non-empty; "" if there is no title but authors or a series; else the file name |
| `Entry.SeriesEqIff` | android/src/org/coolreader/crengine/FileInfo.java:1359-1363 | the series branch of `equals` is equality once null reads as "" |
| `Entry.FieldsEqualIff` | android/src/org/coolreader/crengine/FileInfo.java:1277-1379 | the field part of `equals` is equality of a key that blanks id, genres, username and password and reads a null series as "", hence an equivalence |
| `Entry.BaseEqualsThrowsOnNullAuthors` | android/src/org/coolreader/crengine/FileInfo.java:1381-1438 | as written, `baseEquals` of two distinct entries throws exactly when the compressed sizes agree and both authors are null; otherwise it answers whether the fingerprints agree |
| `Entry.BaseEqualsIntendedIff` | android/src/org/coolreader/crengine/FileInfo.java:1381-1438 | the corrected relation is fingerprint equality, so it is an equivalence, and it agrees with the as-written one wherever that does not throw |
| `Entry.BaseEqualsSymmetric` | android/src/org/coolreader/crengine/FileInfo.java:1381-1438 | `baseEquals` gives the same answer, or the same exception, with its arguments swapped |
| `Entry.EqualityIgnoresGenres` | android/src/org/coolreader/crengine/FileInfo.java:1331-1336 | neither relation depends on genres, id, username or password |
| `Entry.NullSeriesIsEmptySeries` | android/src/org/coolreader/crengine/FileInfo.java:1422-1426 | both relations treat a null series and an empty series as the same |
| `Entry.StateAndTimesOnlyBreakEquals` | android/src/org/coolreader/crengine/FileInfo.java:1297-1343 | an entry differing only in flags, `createTime` or `lastAccessTime` is not `equals`, yet is `baseEquals` (which throws only for null authors) |
| `Entry.NewReadingStateBreaksEquals` | android/src/org/coolreader/crengine/FileInfo.java:1314-1315 | setting a different reading state or rate breaks `equals` and keeps the fingerprint |
| `Entry.FieldsEqualImpliesBaseEquals` | android/src/org/coolreader/crengine/FileInfo.java:1277-1438 | what the field part of `equals` accepts, the corrected `baseEquals` accepts too |
| `Entry.WithFilePropertiesCopies` | android/src/org/coolreader/crengine/FileInfo.java:784-794 | after `setFileProperties(q)`: title, authors and series are `q`'s; the number is `q.getSeriesNumber()`; reading state and rate read as in `q`; info type, profile id, document flags and all other properties keep their values |
| `Entry.WithFilePropertiesIdempotent` | android/src/org/coolreader/crengine/FileInfo.java:784-794 | copying the same file's properties twice is the same as once |
| `Entry.WithFilePropertiesChanges` | android/src/org/coolreader/crengine/FileInfo.java:784-794 | the entry changes exactly when one of title, authors, series, series number, reading state or rate differed |
| `SortOrders.NamesAreDistinct` | android/src/org/coolreader/crengine/FileInfo.java:1080-1168 | every order is among `values()`, and the constant names tell orders apart |
| `SortOrders.FromName` | android/src/org/coolreader/crengine/FileInfo.java:1217-1225 | the order with that name, or `AUTHOR_TITLE` for null or an unknown name |
| `SortOrders.BaseName` | android/src/org/coolreader/crengine/FileInfo.java:318-322 | a stand-in for `File.getName` without its path normalization: a suffix of the path with no `'/'`, preceded by `'/'` when shorter than the path |
| `SortOrders.DisplayName` | android/src/org/coolreader/crengine/FileInfo.java:318-322 | an archive under a non-archive parent shows its archive's file name; everything else shows `filename` |
| `SortOrders.CmpNotNullFirst` | android/src/org/coolreader/crengine/FileInfo.java:1189-1198 | null sorts after any non-null string; two non-null strings compare by the `StrCmp` stand-in for `Utils.cmp`, so the result is in -1..1 (the source returns `Utils.cmp`'s raw value) |
| `SortOrders.Cmp` | android/src/org/coolreader/crengine/FileInfo.java:1200-1207 | negative exactly when `n1 < n2`, positive exactly when `n1 > n2` |
| `SortOrders.FirstNonZero` | android/src/org/coolreader/crengine/FileInfo.java:1209-1216 | 0 exactly when all values are 0, else one of the values |
| `SortOrders.FirstNz` | android/src/org/coolreader/crengine/FileInfo.java:1209-1216 | the `firstNz` loop returns the first non-zero value |
| `SortOrders.FirstNonZeroAt` | android/src/org/coolreader/crengine/FileInfo.java:1209-1216 | behind a run of zeros, the first non-zero value is the result |
| `SortOrders.DescIsSwappedAsc` | android/src/org/coolreader/crengine/FileInfo.java:1080-1168 | each `*_DESC` comparator is its ascending counterpart with the arguments swapped |
| `SortOrders.NullComparesZero` | android/src/org/coolreader/crengine/FileInfo.java:1080-1168 | every comparator returns 0 when either argument is null |
| `SortOrders.CompareIsFirstNonZero` | android/src/org/coolreader/crengine/FileInfo.java:1080-1168 | every comparator is `firstNz` over its list of component comparisons |
| `SortOrders.NullSeriesPlacement` | android/src/org/coolreader/crengine/FileInfo.java:1112-1168 | ascending orders put an entry without a series after one with a series; descending orders put it first |
| `SortOrders.NullTitlePlacement` | android/src/org/coolreader/crengine/FileInfo.java:1112-1168 | likewise for a missing title once series and number agree (and, for the author orders, the authors) |
| `SortOrders.CompareAntisymmetric` | android/src/org/coolreader/crengine/FileInfo.java:1080-1216 | swapping the arguments negates every comparator's result |
| `SortOrders.CompareTransitive` | android/src/org/coolreader/crengine/FileInfo.java:1080-1216 | every comparator is transitive, with strictness carried through |
| `SortOrders.ComparatorIsTotalPreorder` | android/src/org/coolreader/crengine/FileInfo.java:1080-1216 | every order's comparator meets the contract `Collections.sort` demands |
| `SortOrders.Insert` | android/src/org/coolreader/crengine/FileInfo.java:1230-1231 | insertion keeps the elements and adds exactly one |
| `SortOrders.SortBy` | android/src/org/coolreader/crengine/FileInfo.java:1230-1231 | the sort returns a permutation of its input |
| `SortOrders.SortBySorted` | android/src/org/coolreader/crengine/FileInfo.java:1227-1239 | under a total preorder the sort's result is ordered by the comparator |
| `Catalog.Appended` | android/src/org/coolreader/crengine/FileInfo.java:643-656 | appending to a nullable list: the elements are the old ones followed by the new ones, and the list is null only if it was null and nothing was added |
| `Catalog.OfKindMembers` | android/src/org/coolreader/crengine/FileInfo.java:657-666 | the items routed to `dirs` are exactly the directories, those routed to `files` exactly the rest, and the two counts sum to the input's |
| `Catalog.FirstMatch` | android/src/org/coolreader/crengine/FileInfo.java:732-734 | index of the first element with the same kind, archive and path as the given entry (`pathNameEquals`), or the length |
| `Catalog.IndexOfPath` | android/src/org/coolreader/crengine/FileInfo.java:675-676 | the search loop of `updateItem` returns that first match |
| `Catalog.KeptDirs` | android/src/org/coolreader/crengine/FileInfo.java:850-863 | the kept directories are exactly those that are not listed-and-empty, and none is dropped only when the list is unchanged |
| `Catalog.UnmarkedMembers` | android/src/org/coolreader/crengine/FileInfo.java:855-861 | the backward removal loop keeps exactly the unmarked entries |
| `Catalog.FirstEqual` | android/src/org/coolreader/crengine/FileInfo.java:869-878 | `List.indexOf`: the first element that `item.equals`, or the length |
| `Catalog.IndexOfEqual` | android/src/org/coolreader/crengine/FileInfo.java:869-878 | the `indexOf` loop returns that index, or -1 |
| `Catalog.Lower` | android/src/org/coolreader/crengine/FileInfo.java:720 | `toLowerCase` keeps the length and folds each character |
| `Catalog.DirMatches` | android/src/org/coolreader/crengine/FileInfo.java:712-715 | off a card the directory test is exact equality; a null `pathName` throws |
| `Catalog.FileMatches` | android/src/org/coolreader/crengine/FileInfo.java:716-722 | a file matches only with a non-null `pathName` and path |
| `Catalog.FindInDirs` | android/src/org/coolreader/crengine/FileInfo.java:712-715 | the directory found matches, and no result means no directory matches |
| `Catalog.FindInFiles` | android/src/org/coolreader/crengine/FileInfo.java:716-722 | the file found matches, and no result means no file matches |
| `Catalog.ArchiveMemberAlwaysMatches` | android/src/org/coolreader/crengine/FileInfo.java:720-721 | a file whose path continues `pathName + "@/"` matches whether or not the node is on a card |
| `Catalog.CaseFoldingOnlyOnCard` | android/src/org/coolreader/crengine/FileInfo.java:714 | names compare exactly off a card and by lower-case forms on a card |
| `Catalog.CardMatchingIsWeaker` | android/src/org/coolreader/crengine/FileInfo.java:716-722 | what matches off a card also matches on a card |
| `Catalog.SortedChildren` | android/src/org/coolreader/crengine/FileInfo.java:1227-1239 | a sorted copy of a child list: the same elements, ordered by the comparator |
| `Catalog.EqualsTransitive` | android/src/org/coolreader/crengine/FileInfo.java:1277-1379 | `equals` is transitive, through the recursive comparison of children; with reflexivity and symmetry it is an equivalence |
| `Catalog.EqualsSymmetric` | android/src/org/coolreader/crengine/FileInfo.java:1277-1379 | `equals` is symmetric, through the recursive comparison of children |
| `Catalog.EqualsImpliesBaseEquals` | android/src/org/coolreader/crengine/FileInfo.java:1277-1438 | two `equals` nodes also agree under the corrected `baseEquals` |
| `Catalog.FileInfo.ItemCount` | android/src/org/coolreader/crengine/FileInfo.java:628-641 | `itemCount` is the number of children, directories and files |
| `Catalog.FileInfo.IsEmpty` | android/src/org/coolreader/crengine/FileInfo.java:693-696 | empty exactly when there are no children |
| `Catalog.FileInfo.constructor` | android/src/org/coolreader/crengine/FileInfo.java:352-356 | a blank entry without parent, payload or child lists |
| `Catalog.FileInfo.Copy` | android/src/org/coolreader/crengine/FileInfo.java:359-362 | the copy constructor copies the `assign` fields only |
| `Catalog.FileInfo.Assign` | android/src/org/coolreader/crengine/FileInfo.java:364-391 | copies the entry properties; parent, children, marks and payload stay |
| `Catalog.FileInfo.StateField` | android/src/org/coolreader/crengine/FileInfo.java:132-207 | `getReadingState`/`getRate`/`getType`/`getProfileId` return a value within the field's mask |
| `Catalog.FileInfo.SetStateField` | android/src/org/coolreader/crengine/FileInfo.java:140-203 | the named setters rewrite only the state word and report whether it changed |
| `Catalog.FileInfo.GetFlag` | android/src/org/coolreader/crengine/FileInfo.java:186-188 | true when any bit of the flag is set |
| `Catalog.FileInfo.SetFlag` | android/src/org/coolreader/crengine/FileInfo.java:182-184 | the flag's bits become the value (read back by `getFlag` for a non-zero flag), other bits stay |
| `Catalog.FileInfo.SetTitle` | android/src/org/coolreader/crengine/FileInfo.java:998-1003 | stores the title and returns true exactly when it differed |
| `Catalog.FileInfo.SetAuthors` | android/src/org/coolreader/crengine/FileInfo.java:987-992 | stores the authors and returns true exactly when they differed |
| `Catalog.FileInfo.SetSeriesName` | android/src/org/coolreader/crengine/FileInfo.java:1009-1014 | stores the series and returns true exactly when it differed |
| `Catalog.FileInfo.SetSeriesNumber` | android/src/org/coolreader/crengine/FileInfo.java:1016-1021 | stores the number and returns true exactly when it differed |
| `Catalog.FileInfo.SetFileProperties` | android/src/org/coolreader/crengine/FileInfo.java:784-794 | the result is true exactly when one of the six copied properties differed; the new properties are `Entry.WithFileProperties` of the old ones |
| `Catalog.FileInfo.CopyNames` | android/src/org/coolreader/crengine/FileInfo.java:787-790 | the four name setters, each reporting whether its property differed |
| `Catalog.FileInfo.CopyReadingStateAndRate` | android/src/org/coolreader/crengine/FileInfo.java:791-792 | the two state setters, each reporting whether its field differed |
| `Catalog.FileInfo.AddDir` | android/src/org/coolreader/crengine/FileInfo.java:643-650 | appends the directory (creating the list when null) and sets its parent only when it had none |
| `Catalog.FileInfo.AddFile` | android/src/org/coolreader/crengine/FileInfo.java:651-656 | appends the file (creating the list when null); its parent is untouched |
| `Catalog.FileInfo.AddItem` | android/src/org/coolreader/crengine/FileInfo.java:659-664 | one item goes to the list of its kind and becomes a child of this node |
| `Catalog.FileInfo.AddItems` | android/src/org/coolreader/crengine/FileInfo.java:657-666 | directories are appended to `dirs` and the rest to `files`, in input order; every item's parent is this node; `itemCount` grows by the number of items |
| `Catalog.FileInfo.AddAll` | android/src/org/coolreader/crengine/FileInfo.java:659-665 | the `addItems` loop appends the directories and the other items to their lists in input order and parents every item here |
| `Catalog.FileInfo.AddNext` | android/src/org/coolreader/crengine/FileInfo.java:660-664 | one pass of that loop extends the selection of the item's kind by the item |
| `Catalog.FileInfo.Clear` | android/src/org/coolreader/crengine/FileInfo.java:1031-1035 | both child lists become null |
| `Catalog.FileInfo.ReplaceItems` | android/src/org/coolreader/crengine/FileInfo.java:667-672 | the children become exactly the items, split by kind, and `itemCount` is their number |
| `Catalog.FileInfo.SetItemsFrom` | android/src/org/coolreader/crengine/FileInfo.java:816-833 | takes over `copyFrom`'s children (now parented here) and marks; nothing changes when `copyFrom` is this node |
| `Catalog.FileInfo.AdoptFiles` | android/src/org/coolreader/crengine/FileInfo.java:821-825 | the files loop appends every file and reparents it |
| `Catalog.FileInfo.AdoptDirs` | android/src/org/coolreader/crengine/FileInfo.java:826-830 | the directories loop appends every directory and reparents it |
| `Catalog.FileInfo.SetItemsList` | android/src/org/coolreader/crengine/FileInfo.java:835-848 | a null collection only clears; otherwise the children are its items split by kind, all parented here, and the node is listed |
| `Catalog.FileInfo.UpdateItem` | android/src/org/coolreader/crengine/FileInfo.java:673-692 | returns whether some child has `item`'s path identity. The first such directory (searched first) takes `item`'s properties, children and marks; failing that, the first such file takes its properties; with no match nothing changes |
| `Catalog.FileInfo.TakeOver` | android/src/org/coolreader/crengine/FileInfo.java:677-679 | `assign` then `setItems(FileInfo)` on the matched directory |
| `Catalog.FileInfo.GetItem` | android/src/org/coolreader/crengine/FileInfo.java:697-709 | negative index throws; below `itemCount` the child in directories-then-files order; otherwise null |
| `Catalog.FileInfo.GetDir` | android/src/org/coolreader/crengine/FileInfo.java:766-773 | the directory at the index, or an exception out of range |
| `Catalog.FileInfo.GetFile` | android/src/org/coolreader/crengine/FileInfo.java:775-782 | the file at the index (the child at `dirCount() + index`), or an exception out of range |
| `Catalog.FileInfo.GetItemIndex` | android/src/org/coolreader/crengine/FileInfo.java:740-753 | -1 for null; otherwise the `getItem` index of the first child with the item's path identity, or -1 |
| `Catalog.FileInfo.HasItem` | android/src/org/coolreader/crengine/FileInfo.java:736-738 | true exactly when the item is non-null and some child has its path identity |
| `Catalog.FileInfo.GetFileIndex` | android/src/org/coolreader/crengine/FileInfo.java:755-764 | -1 for null; otherwise the position of the first file with the item's path identity, or -1 |
| `Catalog.FileInfo.SetFileAt` | android/src/org/coolreader/crengine/FileInfo.java:796-806 | in range, replaces that file and parents it here; out of range, throws and changes nothing |
| `Catalog.FileInfo.SetFile` | android/src/org/coolreader/crengine/FileInfo.java:808-814 | replaces the first file with the same path identity, or changes nothing |
| `Catalog.FileInfo.RemoveEmptyDirs` | android/src/org/coolreader/crengine/FileInfo.java:850-863 | false and no change without a parent, for a virtual path, for an unlisted node or a null `dirs`; a null pathname under a parent throws; otherwise `dirs` becomes the kept directories in their order, `files` is untouched, and the result says whether any was dropped |
| `Catalog.FileInfo.DropEmptyDirs` | android/src/org/coolreader/crengine/FileInfo.java:854-862 | the backward loop leaves exactly `KeptDirs` and reports a shrink |
| `Catalog.FileInfo.RemoveDirIfEmpty` | android/src/org/coolreader/crengine/FileInfo.java:857-860 | drops the directory at `i` exactly when it is listed and has no children |
| `Catalog.FileInfo.RemoveChild` | android/src/org/coolreader/crengine/FileInfo.java:865-882 | a special item is never removed. Otherwise the first file that `item.equals` is removed; failing that, the first such directory; failing both, nothing changes |
| `Catalog.FileInfo.Equals` | android/src/org/coolreader/crengine/FileInfo.java:1277-1379 | reflexive; never equal to null; two distinct nodes are equal exactly when their fields agree, both child lists are null on the same sides, have equal lengths and pairwise equal elements, and the marks and parent agree |
| `Catalog.FileInfo.BaseEquals` | android/src/org/coolreader/crengine/FileInfo.java:1381-1438 | throws exactly for two distinct entries with equal compressed sizes and null authors; otherwise true exactly for the same object or an equal fingerprint |
| `Catalog.FileInfo.AuthorId` | android/src/org/coolreader/crengine/FileInfo.java:546-551 | 0 outside an author directory; there, the database id, throwing when it is null |
| `Catalog.FileInfo.SeriesId` | android/src/org/coolreader/crengine/FileInfo.java:553-558 | 0 outside a series directory; there, the database id, throwing when it is null |
| `Catalog.FileInfo.IsOnSDCard` | android/src/org/coolreader/crengine/FileInfo.java:528-537 | only a node with a parent is on a card; a card mount directly under the root always is; any other node with a parent is on a card exactly when its parent is |
| `Catalog.FileInfo.IsOnSDCardIff` | android/src/org/coolreader/crengine/FileInfo.java:528-537 | a node is on a card exactly when some ancestor-or-self is a card mount directly under the root |
| `Catalog.FileInfo.IsOnSDCardIndependent` | android/src/org/coolreader/crengine/FileInfo.java:528-537 | the answer does not depend on the ghost termination measure |
| `Catalog.FileInfo.FindItemByPathName` | android/src/org/coolreader/crengine/FileInfo.java:710-724 | the first matching directory, then the first matching file, or null, or the exception met on the way (`Catalog.Find`) |
| `Catalog.FileInfo.Sort` | android/src/org/coolreader/crengine/FileInfo.java:1227-1239 | each non-null child list becomes a sorted permutation of itself; null lists stay null; directories and files are never mixed |

## Left out

- File-system and archive I/O: `FileInfo(String)` with its archive hydration,
  `fromFile`, `FileInfo(File)`, `deleteFile`, `fileExists`, `exists`,
  `isWritableDirectory` and `isReadableDirectory` call into `java.io.File`
  and the engine.
- `Parcel` marshalling (`CREATOR`, `FileInfo(Parcel)`, `writeToParcel`,
  `describeContents`) is Android API serialization.
- `hashCode` depends on `String.hashCode` and 32-bit overflow.
- `eqGenre` is dead code: its only calls are commented out.
- Plain field getters (`getTitle`, `getAuthors`, `getSeriesName`,
  `getLanguage`, `getArchiveName`, `toString`) return a field. They are
  field reads of `props` here.
- `Utils.cmp` is not part of this model. `SortOrders.StrCmp` stands in for it:
  null first, then lexicographic by character code. The total-order facts are
  proved about that stand-in.
- `SortOrders.BaseName`: stands in for `File.getName` without its path
  normalization. `java.io.File` drops a trailing `'/'` first, so for
  `"/a/b.zip/"` it gives `"b.zip"` where the model gives `""`.
- `Utils.formatAuthors` is not part of this model; it is a function parameter of the comparators.
- `DocumentFormat` values are compared by identity only, as ordinals.
- `SortOrders.SortBy` stands in for `Collections.sort`. It is proved to return
  a sorted permutation, but its stability is not proved.
- `Catalog.FileInfo.Equals` compares `parent` by identity. The source calls
  `parent.equals` (FileInfo.java:1344-1348). Take a tree whose children sit in
  their parents' child lists, and two distinct parents. There `parent.equals`
  either returns false before it reaches the child lists, or it compares the
  children (FileInfo.java:1300-1303). Those children compare the same two
  parents again, and the recursion does not end. So identity gives the source's
  answer wherever the source terminates. The non-terminating case, which ends
  in a `StackOverflowError`, is not modelled.
- Node arguments and child-list elements have the non-null type `FileInfo`, so
  the model does not cover what the source does with a null node. That covers
  the `NullPointerException`s it raises, the partial updates made before them,
  and null children stored in a list. The members concerned are listed below.
- `Catalog.FileInfo.AddFile`: `addFile(null)` stores a null child without an
  error (FileInfo.java:651-656). After that, `getItem` returns null for an
  in-range index, and `removeEmptyDirs` and `findItemByPathName` throw. Not
  modelled.
- `Catalog.FileInfo.AddDir`: `addDir(null)` appends the null, then throws at
  FileInfo.java:648. Not modelled.
- `Catalog.FileInfo.AddItems`: a null element throws at FileInfo.java:660, after
  the earlier elements have been added. Not modelled.
- `Catalog.FileInfo.ReplaceItems`: the same throw at FileInfo.java:660, after the
  lists were cleared and the earlier elements added. Not modelled.
- `Catalog.FileInfo.SetItemsList`: a null element throws at FileInfo.java:841,
  after the lists were cleared and the earlier elements added. Not modelled.
- `Catalog.FileInfo.SetItemsFrom`: `setItems((FileInfo) null)` clears the node,
  then throws at FileInfo.java:821. Not modelled.
- `Catalog.FileInfo.UpdateItem`: `updateItem(null)` throws in `pathNameEquals`
  (FileInfo.java:733) as soon as the node has a child. Not modelled.
- `Catalog.FileInfo.SetFileAt`: `setFile(i, null)` stores the null at
  FileInfo.java:801, then throws at :802. Not modelled.
- `Catalog.FileInfo.RemoveChild`: `removeChild(null)` throws at FileInfo.java:867.
  Not modelled.
- `Catalog.FileInfo.SetFileProperties`: `setFileProperties(null)` throws at its
  first property read (FileInfo.java:787). Not modelled.
- `Catalog.FileInfo.Equals`, `Catalog.FileInfo.IsOnSDCard`, `Catalog.FileInfo.RemoveChild`
  and `Catalog.FileInfo.FindItemByPathName` take a ghost ranking of the nodes.
  Their contracts hold only for node graphs where children rank below their
  parent (respectively parents below their children).
- `Catalog.FileInfo.FindItemByPathName` evaluates `isOnSDCard` once per call.
  The source evaluates it once per child. The node's ancestors are not changed
  during the search, so the value is the same.
- `Catalog.Lower` folds ASCII letters only, not the full Unicode case mapping.
  `compareToIgnoreCase(...) == 0` is modelled as equality of the folded strings.
- Java `int` and `long` arithmetic other than the state word is unbounded.
  That includes `seriesNumber`, sizes, times and `crc32`.
- `R.string` resource ids and `Log.e` have no logical content.
- `Catalog.FileInfo.SetStateField`: its contract states the new word as
  `StateFlags.Set` of the old one. That the getter reads back `value & mask`
  and other fields keep their values is proved separately, by
  `StateFlags.GetAfterSet`, `StateFlags.SetKeepsOtherBits` and
  `StateFlags.SetKeepsOtherFields`.
- `Catalog.FileInfo.UpdateItem`: the frame allows the children of `item` to be
  reparented. Its ensures state that they keep their parent when no directory
  matched or the matched directory is `item` itself.
- crengine/include/fc-lang-data.h and crengine/src/locale_data/files/tk_orth.c
  are not part of this model. They hold declarations and a generated table, no logic.

## Findings

| source | as written | input that shows it | evidently intended | confidence | as-written member | corrected member |
|---|---|---|---|---|---|---|
| android/src/org/coolreader/crengine/FileInfo.java:1388-1389 | when `this.authors` is null, `baseEquals` calls `other.authors.length()` | two distinct entries with equal `arcsize` and both `authors` null: `baseEquals` throws `NullPointerException` | a null `authors` matches a null or empty `authors` on the other side, as the mirrored branch and the series comparison do | not executed | `Entry.BaseEqualsThrowsOnNullAuthors` | `Entry.BaseEqualsIntendedIff` |
