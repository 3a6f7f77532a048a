/**
 * The catalog node itself: a `FileInfo` object holding its entry properties,
 * its listing marks, a link to its parent, an untyped payload and two child
 * lists, one for directories and one for files. Either list may be null.
 */
module Catalog {
  import opened Wrappers
  import StateFlags
  import PathIdentity
  import Entry
  import SortOrders

  // ---------------------------------------------------------------------
  // Child lists.

  /** The elements of a nullable child list; a null list reads as empty. */
  function Elems(list: Option<seq<FileInfo>>): seq<FileInfo>
  {
    if list.Some? then list.value else []
  }

  /**
   * A nullable list after `s` has been appended one element at a time the
   * way `addDir`/`addFile` do it: a null list is created on the first append.
   */
  function Appended(list: Option<seq<FileInfo>>, s: seq<FileInfo>): (r: Option<seq<FileInfo>>)
    ensures Elems(r) == Elems(list) + s
    ensures r.None? <==> list.None? && s == []
  {
    if s == [] then list
    else if list.None? then Some(s)
    else Some(list.value + s)
  }

  /** Whether each entry of `items` is a directory. */
  function Kinds(items: seq<FileInfo>): (k: seq<bool>)
    reads (set x | x in items)`props
    ensures |k| == |items| && forall i :: 0 <= i < |items| ==> k[i] == items[i].props.isDirectory
  {
    if items == [] then []
    else
      assert forall x :: x in items[..|items| - 1] ==> x in items;
      Kinds(items[..|items| - 1]) + [items[|items| - 1].props.isDirectory]
  }

  /** The entries of `items` whose kind in `kinds` is `directories`, in input order. */
  function Select(items: seq<FileInfo>, kinds: seq<bool>, directories: bool): (r: seq<FileInfo>)
    requires |kinds| == |items|
    ensures |r| <= |items|
  {
    if items == [] then []
    else
      var n := |items| - 1;
      Select(items[..n], kinds[..n], directories) + (if kinds[n] == directories then [items[n]] else [])
  }

  /** `Select` keeps exactly the entries of the requested kind. */
  lemma {:induction false} SelectMembers(items: seq<FileInfo>, kinds: seq<bool>, directories: bool)
    requires |kinds| == |items|
    ensures forall x :: x in Select(items, kinds, directories) ==> exists i :: 0 <= i < |items| && items[i] == x && kinds[i] == directories
    ensures forall i :: 0 <= i < |items| && kinds[i] == directories ==> items[i] in Select(items, kinds, directories)
  {
    if items != [] {
      var n := |items| - 1;
      SelectMembers(items[..n], kinds[..n], directories);
      forall x | x in Select(items, kinds, directories)
        ensures exists i :: 0 <= i < |items| && items[i] == x && kinds[i] == directories
      {
        if x in Select(items[..n], kinds[..n], directories) {
          var i :| 0 <= i < n && items[..n][i] == x && kinds[..n][i] == directories;
          assert items[i] == x && kinds[i] == directories;
        } else {
          assert items[n] == x && kinds[n] == directories;
        }
      }
      forall i | 0 <= i < |items| && kinds[i] == directories
        ensures items[i] in Select(items, kinds, directories)
      {
        if i < n {
          assert items[..n][i] == items[i] && kinds[..n][i] == kinds[i];
        }
      }
    }
  }

  /** Extending the input by one entry extends the selection by that entry when it is of the requested kind. */
  lemma SelectSnoc(items: seq<FileInfo>, kinds: seq<bool>, i: nat, directories: bool)
    requires |kinds| == |items| && i < |items|
    ensures kinds[i] == directories ==> Select(items[..i + 1], kinds[..i + 1], directories) == Select(items[..i], kinds[..i], directories) + [items[i]]
    ensures kinds[i] != directories ==> Select(items[..i + 1], kinds[..i + 1], directories) == Select(items[..i], kinds[..i], directories)
  {
    assert items[..i + 1][..i] == items[..i] && kinds[..i + 1][..i] == kinds[..i];
    assert Select(items[..i], kinds[..i], directories) + [] == Select(items[..i], kinds[..i], directories);
  }

  /** Appending one more entry to a nullable list yields a non-null list ending in it. */
  lemma AppendedSnoc(list: Option<seq<FileInfo>>, s: seq<FileInfo>, x: FileInfo)
    ensures Appended(list, s + [x]) == Some(Elems(Appended(list, s)) + [x])
  {
    if s == [] {
      assert s + [x] == [x];
    } else if list.Some? {
      assert list.value + (s + [x]) == (list.value + s) + [x];
    }
  }

  /** Selecting the directories and selecting the rest splits the list without loss. */
  lemma {:induction false} SelectPartition(items: seq<FileInfo>, kinds: seq<bool>)
    requires |kinds| == |items|
    ensures |Select(items, kinds, true)| + |Select(items, kinds, false)| == |items|
  {
    if items != [] {
      SelectPartition(items[..|items| - 1], kinds[..|items| - 1]);
    }
  }

  /** The entries of `items` that are directories (or that are not), in input order. */
  function OfKind(items: seq<FileInfo>, directories: bool): (r: seq<FileInfo>)
    reads (set x | x in items)`props
    ensures |r| <= |items|
  {
    Select(items, Kinds(items), directories)
  }

  /** `OfKind` keeps exactly the items of the requested kind, and the two kinds together are the whole list. */
  lemma OfKindMembers(items: seq<FileInfo>, directories: bool)
    ensures forall x :: x in OfKind(items, directories) ==> x in items && x.props.isDirectory == directories
    ensures forall x :: x in items && x.props.isDirectory == directories ==> x in OfKind(items, directories)
    ensures |OfKind(items, true)| + |OfKind(items, false)| == |items|
  {
    SelectMembers(items, Kinds(items), directories);
    SelectPartition(items, Kinds(items));
  }

  /** Index of the first entry of `s` with the path identity of `p` (`pathNameEquals`), or `|s|`. */
  function FirstMatch(s: seq<FileInfo>, p: Entry.Props): (k: nat)
    reads (set x | x in s)`props
    ensures k <= |s|
    ensures k < |s| ==> Entry.PathNameEquals(p, s[k].props)
    ensures forall j :: 0 <= j < k ==> !Entry.PathNameEquals(p, s[j].props)
  {
    if s == [] then 0
    else if Entry.PathNameEquals(p, s[0].props) then 0
    else
      assert forall x :: x in s[1..] ==> x in s;
      1 + FirstMatch(s[1..], p)
  }

  /** The `for (FileInfo x : list) if (x.pathNameEquals(item))` search of `updateItem`: the first match, or `|s|`. */
  method IndexOfPath(s: seq<FileInfo>, p: Entry.Props) returns (k: nat)
    ensures k == FirstMatch(s, p)
  {
    k := 0;
    while k < |s|
      invariant k <= |s|
      invariant forall j :: 0 <= j < k ==> !Entry.PathNameEquals(p, s[j].props)
    {
      if Entry.PathNameEquals(s[k].props, p) {
        return;
      }
      k := k + 1;
    }
  }

  // ---------------------------------------------------------------------
  // Empty directories.

  /** What `removeEmptyDirs` drops: a listed directory with no child directories and no child files. */
  predicate IsEmptyListedDir(d: FileInfo)
    reads d`isListed, d`dirs, d`files
  {
    d.isListed && d.DirCount() == 0 && d.FileCount() == 0
  }

  /** Whether each directory of `s` is one `removeEmptyDirs` drops. */
  function EmptyMarks(s: seq<FileInfo>): (m: seq<bool>)
    reads (set d | d in s)`isListed, (set d | d in s)`dirs, (set d | d in s)`files
    ensures |m| == |s| && forall i :: 0 <= i < |s| ==> m[i] == IsEmptyListedDir(s[i])
  {
    if s == [] then []
    else
      assert forall x :: x in s[1..] ==> x in s;
      [IsEmptyListedDir(s[0])] + EmptyMarks(s[1..])
  }

  /** The entries of `s` whose mark is clear, in their order. */
  function Unmarked(s: seq<FileInfo>, marks: seq<bool>): (r: seq<FileInfo>)
    requires |marks| == |s|
    ensures |r| <= |s|
  {
    if s == [] then []
    else (if marks[0] then [] else [s[0]]) + Unmarked(s[1..], marks[1..])
  }

  /** `Unmarked` keeps exactly the unmarked entries, and drops nothing only when it returns its input. */
  lemma {:induction false} UnmarkedMembers(s: seq<FileInfo>, marks: seq<bool>)
    requires |marks| == |s|
    ensures forall x :: x in Unmarked(s, marks) ==> exists i :: 0 <= i < |s| && s[i] == x && !marks[i]
    ensures forall i :: 0 <= i < |s| && !marks[i] ==> s[i] in Unmarked(s, marks)
    ensures |Unmarked(s, marks)| == |s| ==> Unmarked(s, marks) == s
  {
    if s != [] {
      UnmarkedMembers(s[1..], marks[1..]);
      var rest := Unmarked(s[1..], marks[1..]);
      assert Unmarked(s, marks) == (if marks[0] then [] else [s[0]]) + rest;
      forall x | x in Unmarked(s, marks)
        ensures exists i :: 0 <= i < |s| && s[i] == x && !marks[i]
      {
        if x in rest {
          var j :| 0 <= j < |s[1..]| && s[1..][j] == x && !marks[1..][j];
          assert s[j + 1] == x && !marks[j + 1];
        } else {
          assert s[0] == x && !marks[0];
        }
      }
      forall i | 0 <= i < |s| && !marks[i]
        ensures s[i] in Unmarked(s, marks)
      {
        if i > 0 {
          assert s[1..][i - 1] == s[i] && marks[1..][i - 1] == marks[i];
        }
      }
      if |Unmarked(s, marks)| == |s| {
        assert !marks[0];
        assert s == [s[0]] + s[1..];
      }
    }
  }

  /** Clearing the mark of the first of the entries `s[i..]` keeps it in front of the rest. */
  lemma UnmarkedStep(s: seq<FileInfo>, marks: seq<bool>, i: nat)
    requires |marks| == |s| && i < |s|
    ensures Unmarked(s[i..], marks[i..]) == (if marks[i] then [] else [s[i]]) + Unmarked(s[i + 1..], marks[i + 1..])
  {
    assert s[i..][1..] == s[i + 1..] && marks[i..][1..] == marks[i + 1..];
  }

  /** A prefix one element longer ends in that element. */
  lemma PrefixSnoc<T>(s: seq<T>, i: nat)
    requires i < |s|
    ensures s[..i + 1] == s[..i] + [s[i]]
  {
  }

  /** Taking out the element at `|a|` from `a + [x] + b` leaves `a + b`; keeping it regroups the concatenation. */
  lemma SplitAt<T>(a: seq<T>, x: T, b: seq<T>)
    ensures (a + [x] + b)[..|a|] + (a + [x] + b)[|a| + 1..] == a + ([] + b)
    ensures a + [x] + b == a + ([x] + b)
  {
    assert (a + [x] + b)[..|a|] == a;
    assert (a + [x] + b)[|a| + 1..] == b;
    assert [] + b == b;
  }

  /** The directories of `s` that `removeEmptyDirs` keeps, in their order. */
  function KeptDirs(s: seq<FileInfo>): (r: seq<FileInfo>)
    reads (set d | d in s)`isListed, (set d | d in s)`dirs, (set d | d in s)`files
    ensures |r| <= |s|
    ensures forall d :: d in r ==> d in s && !IsEmptyListedDir(d)
    ensures forall d :: d in s && !IsEmptyListedDir(d) ==> d in r
    ensures |r| == |s| ==> r == s
  {
    var marks := EmptyMarks(s);
    UnmarkedMembers(s, marks);
    Unmarked(s, marks)
  }

  // ---------------------------------------------------------------------
  // Structural equality.

  /**
   * A ranking of the objects `equals` may reach: every child ranks below its
   * node, so comparing children recursively terminates.
   */
  ghost predicate Ranked(rank: map<FileInfo, nat>)
    reads rank.Keys
  {
    && (forall x, i :: x in rank && 0 <= i < |x.Dirs()| ==> x.Dirs()[i] in rank && rank[x.Dirs()[i]] < rank[x])
    && (forall x, i :: x in rank && 0 <= i < |x.Files()| ==> x.Files()[i] in rank && rank[x.Files()[i]] < rank[x])
  }

  /** Index of the first entry of `s` that `item.equals` accepts (`indexOf`), or `|s|`. */
  function FirstEqual(s: seq<FileInfo>, item: FileInfo, ghost rank: map<FileInfo, nat>): (k: nat)
    requires Ranked(rank) && item in rank && forall x :: x in s ==> x in rank
    reads rank.Keys
    ensures k <= |s|
    ensures k < |s| ==> item.Equals(s[k], rank)
    ensures forall j :: 0 <= j < k ==> !item.Equals(s[j], rank)
  {
    if s == [] then 0
    else if item.Equals(s[0], rank) then 0
    else
      assert forall x :: x in s[1..] ==> x in s;
      1 + FirstEqual(s[1..], item, rank)
  }

  /** `List.indexOf(item)`: the position of the first element `item` equals, or -1. */
  method IndexOfEqual(s: seq<FileInfo>, item: FileInfo, ghost rank: map<FileInfo, nat>) returns (n: int)
    requires Ranked(rank) && item in rank && forall x :: x in s ==> x in rank
    ensures n == if FirstEqual(s, item, rank) < |s| then FirstEqual(s, item, rank) else -1
  {
    var i := 0;
    while i < |s|
      invariant 0 <= i <= |s|
      invariant forall j :: 0 <= j < i ==> !item.Equals(s[j], rank)
    {
      if item.Equals(s[i], rank) {
        return i;
      }
      i := i + 1;
    }
    return -1;
  }

  // ---------------------------------------------------------------------
  // Ancestors and path lookup.

  /** A ranking of the ancestors: every parent ranks below its child, so walking up terminates. */
  ghost predicate AncestorsRanked(depth: map<FileInfo, nat>)
    reads depth.Keys
  {
    forall x :: x in depth && x.parent != null ==> x.parent in depth && depth[x.parent] < depth[x]
  }

  /** The card mount points: a plain directory named and titled "SD" or "EXT SD", of size zero. */
  predicate IsCardMount(p: Entry.Props)
  {
    && ((p.filename == Some("SD") && p.title == Some("SD")) || (p.filename == Some("EXT SD") && p.title == Some("EXT SD")))
    && p.isDirectory && !p.isArchive && p.size == 0 && p.arcsize == 0
  }

  /** A card mount point whose parent is the root node: the base case of `isOnSDCard`. */
  predicate MountUnderRoot(x: FileInfo)
    reads x, x.parent
  {
    x.parent != null && IsCardMount(x.props) && x.parent.props.pathname == Some(PathIdentity.ROOT_DIR_TAG)
  }

  /** The ancestor `n` steps above `x` (`x` itself for 0), or null once the parent chain ends. */
  ghost function Ancestor(x: FileInfo, n: nat, depth: map<FileInfo, nat>): (y: FileInfo?)
    requires AncestorsRanked(depth) && x in depth
    reads depth.Keys
    ensures y != null ==> y in depth
    decreases n
  {
    if n == 0 then x
    else if x.parent == null then null
    else Ancestor(x.parent, n - 1, depth)
  }

  /** ASCII lower case of one character. */
  function LowerChar(c: char): char
  {
    if 'A' <= c <= 'Z' then (c as int + 32) as char else c
  }

  /** `toLowerCase`, restricted to ASCII letters. */
  function Lower(s: string): (r: string)
    ensures |r| == |s| && forall i :: 0 <= i < |s| ==> r[i] == LowerChar(s[i])
  {
    seq(|s|, i requires 0 <= i < |s| => LowerChar(s[i]))
  }

  /**
   * The test `findItemByPathName` applies to a child directory's full path:
   * equal ignoring case on a memory card, equal otherwise. A null
   * `pathName`, or a null path compared ignoring case, throws.
   */
  function DirMatches(pathName: Option<string>, onSD: bool, path: Option<string>): (r: Result<bool>)
    ensures r.Ok? ==> pathName.Some?
    ensures !onSD ==> r == if pathName.None? then Throw(NullPointerException) else Ok(pathName == path)
  {
    if pathName.None? then Throw(NullPointerException)
    else if onSD && path.None? then Throw(NullPointerException)
    else if onSD && Lower(pathName.value) == Lower(path.value) then Ok(true)
    else Ok(pathName == path)
  }

  /**
   * The test applied to a child file's full path: the directory test, or the
   * path names a member of the archive `pathName` (`pathName + "@/"` is a
   * prefix), ignoring case on a memory card.
   */
  function FileMatches(pathName: Option<string>, onSD: bool, path: Option<string>): (r: Result<bool>)
    ensures r.Ok? ==> pathName.Some? && path.Some?
  {
    match DirMatches(pathName, onSD, path)
    case Throw(e) => Throw(e)
    case Ok(true) => if path.Some? then Ok(true) else Throw(NullPointerException)
    case Ok(false) =>
      if path.None? then Throw(NullPointerException)
      else if onSD && PathIdentity.StartsWith(Lower(path.value), Lower(pathName.value) + PathIdentity.ARC_SEPARATOR) then Ok(true)
      else Ok(PathIdentity.StartsWith(path.value, pathName.value + PathIdentity.ARC_SEPARATOR))
  }

  /** The full path of a child (`getPathName`). */
  function FullPath(x: FileInfo): Option<string>
    reads x`props
  {
    PathIdentity.GetPathName(x.props.arcname, x.props.pathname)
  }

  /** The first directory of `ds` that matches, or the first exception met on the way. */
  function FindInDirs(pathName: Option<string>, onSD: bool, ds: seq<FileInfo>): (r: Result<Option<FileInfo>>)
    reads (set x | x in ds)`props
    ensures r.Ok? && r.value.Some? ==> r.value.value in ds && DirMatches(pathName, onSD, FullPath(r.value.value)) == Ok(true)
    ensures r == Ok(None) ==> forall x :: x in ds ==> DirMatches(pathName, onSD, FullPath(x)) == Ok(false)
  {
    if ds == [] then Ok(None)
    else
      assert forall x :: x in ds ==> x == ds[0] || x in ds[1..] by {
        assert ds == [ds[0]] + ds[1..];
      }
      assert forall x :: x in ds[1..] ==> x in ds;
      match DirMatches(pathName, onSD, FullPath(ds[0]))
      case Throw(e) => Throw(e)
      case Ok(true) => Ok(Some(ds[0]))
      case Ok(false) => FindInDirs(pathName, onSD, ds[1..])
  }

  /** The first file of `fs` that matches, or the first exception met on the way. */
  function FindInFiles(pathName: Option<string>, onSD: bool, fs: seq<FileInfo>): (r: Result<Option<FileInfo>>)
    reads (set x | x in fs)`props
    ensures r.Ok? && r.value.Some? ==> r.value.value in fs && FileMatches(pathName, onSD, FullPath(r.value.value)) == Ok(true)
    ensures r == Ok(None) ==> forall x :: x in fs ==> FileMatches(pathName, onSD, FullPath(x)) == Ok(false)
  {
    if fs == [] then Ok(None)
    else
      assert forall x :: x in fs ==> x == fs[0] || x in fs[1..] by {
        assert fs == [fs[0]] + fs[1..];
      }
      assert forall x :: x in fs[1..] ==> x in fs;
      match FileMatches(pathName, onSD, FullPath(fs[0]))
      case Throw(e) => Throw(e)
      case Ok(true) => Ok(Some(fs[0]))
      case Ok(false) => FindInFiles(pathName, onSD, fs[1..])
  }

  /** `findItemByPathName` on given child lists: directories first, then files. */
  function Find(pathName: Option<string>, onSD: bool, ds: seq<FileInfo>, fs: seq<FileInfo>): Result<Option<FileInfo>>
    reads (set x | x in ds)`props, (set x | x in fs)`props
  {
    match FindInDirs(pathName, onSD, ds)
    case Throw(e) => Throw(e)
    case Ok(Some(d)) => Ok(Some(d))
    case Ok(None) => FindInFiles(pathName, onSD, fs)
  }

  /** A file whose path continues `pathName + "@/"` matches whether or not the node is on a card. */
  lemma ArchiveMemberAlwaysMatches(pathName: string, path: string, onSD: bool)
    requires PathIdentity.StartsWith(path, pathName + PathIdentity.ARC_SEPARATOR)
    ensures FileMatches(Some(pathName), onSD, Some(path)) == Ok(true)
  {
    var p := pathName + PathIdentity.ARC_SEPARATOR;
    if onSD {
      assert Lower(p) == Lower(pathName) + PathIdentity.ARC_SEPARATOR;
      assert Lower(p) <= Lower(path) by {
        assert forall i :: 0 <= i < |p| ==> Lower(path)[i] == LowerChar(p[i]);
      }
    }
  }

  /**
   * Off a card, names are compared exactly; on a card, two non-null names
   * match exactly when their lower-case forms are equal.
   */
  lemma CaseFoldingOnlyOnCard(pathName: string, path: string)
    ensures DirMatches(Some(pathName), false, Some(path)) == Ok(pathName == path)
    ensures DirMatches(Some(pathName), true, Some(path)) == Ok(Lower(pathName) == Lower(path))
  {
  }

  /** A file of `fs` on a card: the folded tests accept what the exact ones accept. */
  lemma CardMatchingIsWeaker(pathName: string, path: string)
    ensures FileMatches(Some(pathName), false, Some(path)) == Ok(true) ==> FileMatches(Some(pathName), true, Some(path)) == Ok(true)
  {
    if FileMatches(Some(pathName), false, Some(path)) == Ok(true) && pathName != path {
      ArchiveMemberAlwaysMatches(pathName, path, true);
    }
  }

  // ---------------------------------------------------------------------
  // Sort keys.

  /** Whether the parent is an archive; null when there is no parent. */
  function ParentIsArchive(x: FileInfo): Option<bool>
    reads x`parent, (if x.parent != null then {x.parent} else {})`props
  {
    if x.parent == null then None else Some(x.parent.props.isArchive)
  }

  /** What the comparators read of a child, `getFileNameToDisplay` included. */
  function KeyOf(x: FileInfo): SortOrders.SortKey
    reads x`props, x`parent, (if x.parent != null then {x.parent} else {})`props
  {
    SortOrders.KeyOf(x.props, ParentIsArchive(x))
  }

  /** The sort keys of the entries of `s`. */
  function KeyMap(s: seq<FileInfo>): (keys: map<FileInfo, SortOrders.SortKey>)
    reads (set x | x in s)`props, (set x | x in s)`parent, (set x | x in s && x.parent != null :: x.parent)`props
    ensures forall x :: x in s ==> x in keys && keys[x] == KeyOf(x)
  {
    map x | x in s :: KeyOf(x)
  }

  /** A copy of the list `s` sorted under the order's comparator (`Collections.sort` on a copy). */
  function SortedChildren(order: SortOrders.SortOrder, formatAuthors: Option<string> -> Option<string>, s: seq<FileInfo>): (r: seq<FileInfo>)
    reads (set x | x in s)`props, (set x | x in s)`parent, (set x | x in s && x.parent != null :: x.parent)`props
    ensures multiset(r) == multiset(s)
    ensures SortOrders.SortedBy(SortOrders.Comparator(order, formatAuthors), r, KeyMap(r))
  {
    var cmp, keys := SortOrders.Comparator(order, formatAuthors), KeyMap(s);
    SortOrders.ComparatorIsTotalPreorder(order, formatAuthors);
    var r := SortOrders.SortBy(cmp, s, keys);
    SortOrders.SortBySorted(cmp, s, keys);
    assert forall x :: x in r ==> x in s by {
      forall x | x in r ensures x in s {
        assert x in multiset(r);
      }
    }
    SortedUnderAgreeingKeys(cmp, r, keys, KeyMap(r));
    r
  }

  /** Sortedness depends only on the keys of the list's own elements. */
  lemma SortedUnderAgreeingKeys(cmp: (SortOrders.SortKey, SortOrders.SortKey) -> int, s: seq<FileInfo>, k1: map<FileInfo, SortOrders.SortKey>, k2: map<FileInfo, SortOrders.SortKey>)
    requires SortOrders.SortedBy(cmp, s, k1)
    requires forall x :: x in s ==> x in k2 && k2[x] == k1[x]
    ensures SortOrders.SortedBy(cmp, s, k2)
  {
    forall i, j | 0 <= i < j < |s|
      ensures cmp(k2[s[i]], k2[s[j]]) <= 0
    {
      assert k2[s[i]] == k1[s[i]] && k2[s[j]] == k1[s[j]];
    }
  }

  // ---------------------------------------------------------------------
  // The node.

  class FileInfo {
    var props: Entry.Props
    var isListed: bool
    var isScanned: bool
    var parent: FileInfo?
    var tag: PathIdentity.Tag
    var dirs: Option<seq<FileInfo>>
    var files: Option<seq<FileInfo>>

    function Dirs(): seq<FileInfo>
      reads this`dirs
    {
      Elems(dirs)
    }

    function Files(): seq<FileInfo>
      reads this`files
    {
      Elems(files)
    }

    /** The children in `getItem` order: directories, then files. */
    function Children(): seq<FileInfo>
      reads this`dirs, this`files
    {
      Dirs() + Files()
    }

    function DirCount(): nat
      reads this`dirs
    {
      |Dirs()|
    }

    function FileCount(): nat
      reads this`files
    {
      |Files()|
    }

    function ItemCount(): (n: nat)
      reads this`dirs, this`files
      ensures n == |Children()|
    {
      DirCount() + FileCount()
    }

    function IsEmpty(): (b: bool)
      reads this`dirs, this`files
      ensures b <==> Children() == []
    {
      FileCount() == 0 && DirCount() == 0
    }

    /** `FileInfo()`: a fresh entry with no parent and no child lists. */
    constructor (domVersion: int, blockRenderingFlags: int)
      ensures props == Entry.Blank(domVersion, blockRenderingFlags)
      ensures !isListed && !isScanned && parent == null && tag == PathIdentity.NoTag
      ensures dirs == None && files == None
    {
      props := Entry.Blank(domVersion, blockRenderingFlags);
      isListed, isScanned := false, false;
      parent := null;
      tag := PathIdentity.NoTag;
      dirs, files := None, None;
    }

    /** `FileInfo(FileInfo v)`: copies the `assign` fields only, not the parent, the children or the listing marks. */
    constructor Copy(v: FileInfo)
      ensures props == v.props
      ensures !isListed && !isScanned && parent == null && tag == PathIdentity.NoTag
      ensures dirs == None && files == None
    {
      props := v.props;
      isListed, isScanned := false, false;
      parent := null;
      tag := PathIdentity.NoTag;
      dirs, files := None, None;
    }

    /** `assign`: copies the entry properties of `v`; parent, children, listing marks and payload stay. */
    method Assign(v: FileInfo)
      modifies this`props
      ensures props == old(v.props)
    {
      props := v.props;
    }

    // -- the packed state word --

    /** `getReadingState`/`getRate`/`getType`/`getProfileId`. */
    function StateField(f: StateFlags.Field): (r: bv32)
      reads this`props
      ensures r & StateFlags.Mask(f) == r
    {
      StateFlags.GetIsMasked(props.flags, f);
      StateFlags.Get(props.flags, f)
    }

    /**
     * `setReadingState`/`setRate`/`setType`/`setProfileId`: the field then
     * reads `value & mask` and the result says whether `flags` changed
     * (`setProfileId` discards it). What stays unchanged is stated by
     * `StateFlags.SetKeepsOtherBits` and `StateFlags.SetKeepsOtherFields`.
     */
    method SetStateField(f: StateFlags.Field, value: bv32) returns (changed: bool)
      modifies this`props
      ensures props == old(props).(flags := StateFlags.Set(old(props.flags), f, value))
      ensures changed <==> props.flags != old(props.flags)
    {
      var oldFlags := props.flags;
      props := props.(flags := StateFlags.Set(oldFlags, f, value));
      changed := props.flags != oldFlags;
    }

    /** `getFlag`: whether any bit of `flag` is set. */
    function GetFlag(flag: bv32): (b: bool)
      reads this`props
      ensures b <==> props.flags & flag != 0
    {
      StateFlags.GetFlag(props.flags, flag)
    }

    /** `setFlag`: the bits of `flag` become `value`, every other bit stays. */
    method SetFlag(flag: bv32, value: bool)
      modifies this`props
      ensures props == old(props).(flags := StateFlags.SetFlag(old(props.flags), flag, value))
      ensures flag != 0 ==> GetFlag(flag) == value
      ensures props.flags & !flag == old(props.flags) & !flag
    {
      StateFlags.SetFlagKeepsOtherBits(props.flags, flag, value);
      if flag != 0 {
        StateFlags.GetFlagAfterSetFlag(props.flags, flag, value);
      }
      props := props.(flags := StateFlags.SetFlag(props.flags, flag, value));
    }

    // -- change-reporting setters --

    method SetTitle(title: Option<string>) returns (changed: bool)
      modifies this`props
      ensures props == old(props).(title := title)
      ensures changed <==> old(props.title) != title
    {
      if props.title == title {
        return false;
      }
      props := props.(title := title);
      return true;
    }

    method SetAuthors(authors: Option<string>) returns (changed: bool)
      modifies this`props
      ensures props == old(props).(authors := authors)
      ensures changed <==> old(props.authors) != authors
    {
      if props.authors == authors {
        return false;
      }
      props := props.(authors := authors);
      return true;
    }

    method SetSeriesName(series: Option<string>) returns (changed: bool)
      modifies this`props
      ensures props == old(props).(series := series)
      ensures changed <==> old(props.series) != series
    {
      if props.series == series {
        return false;
      }
      props := props.(series := series);
      return true;
    }

    method SetSeriesNumber(seriesNumber: int) returns (changed: bool)
      modifies this`props
      ensures props == old(props).(seriesNumber := seriesNumber)
      ensures changed <==> old(props.seriesNumber) != seriesNumber
    {
      if props.seriesNumber == seriesNumber {
        return false;
      }
      props := props.(seriesNumber := seriesNumber);
      return true;
    }

    /**
     * `setFileProperties`: calls every setter with `file`'s value and reports
     * whether any of them changed something.
     */
    method SetFileProperties(file: FileInfo) returns (modified: bool)
      modifies this`props
      ensures modified <==>
        || old(props.title) != old(file.props.title) || old(props.authors) != old(file.props.authors)
        || old(props.series) != old(file.props.series) || old(props.seriesNumber) != Entry.SeriesNumber(old(file.props))
        || StateFlags.Get(old(props.flags), StateFlags.ReadingState) != StateFlags.Get(old(file.props.flags), StateFlags.ReadingState)
        || StateFlags.Get(old(props.flags), StateFlags.Rate) != StateFlags.Get(old(file.props.flags), StateFlags.Rate)
      ensures props == Entry.WithFileProperties(old(props), old(file.props))
    {
      var q := file.props;
      // Every setter runs whatever the earlier ones returned, so the
      // running `||` of the source is the disjunction of the six results.
      var titleChanged, authorsChanged, seriesChanged, numberChanged := CopyNames(q);
      var stateChanged, rateChanged := CopyReadingStateAndRate(q);
      modified := rateChanged || stateChanged || numberChanged || seriesChanged || authorsChanged || titleChanged;
    }

    /** The first four calls of `setFileProperties`: `setTitle`, `setAuthors`, `setSeriesName`, `setSeriesNumber`, with `q`'s values. */
    method CopyNames(q: Entry.Props) returns (titleChanged: bool, authorsChanged: bool, seriesChanged: bool, numberChanged: bool)
      modifies this`props
      ensures props == old(props).(title := q.title, authors := q.authors, series := q.series, seriesNumber := Entry.SeriesNumber(q))
      ensures titleChanged <==> old(props.title) != q.title
      ensures authorsChanged <==> old(props.authors) != q.authors
      ensures seriesChanged <==> old(props.series) != q.series
      ensures numberChanged <==> old(props.seriesNumber) != Entry.SeriesNumber(q)
    {
      titleChanged := SetTitle(q.title);
      authorsChanged := SetAuthors(q.authors);
      seriesChanged := SetSeriesName(q.series);
      numberChanged := SetSeriesNumber(Entry.SeriesNumber(q));
    }

    /** The last two calls of `setFileProperties`: `setReadingState`, then `setRate`, with `q`'s values. */
    method CopyReadingStateAndRate(q: Entry.Props) returns (stateChanged: bool, rateChanged: bool)
      modifies this`props
      ensures props == old(props).(flags :=
        StateFlags.Set(StateFlags.Set(old(props.flags), StateFlags.ReadingState, StateFlags.Get(q.flags, StateFlags.ReadingState)),
                       StateFlags.Rate, StateFlags.Get(q.flags, StateFlags.Rate)))
      ensures stateChanged <==> StateFlags.Get(old(props.flags), StateFlags.ReadingState) != StateFlags.Get(q.flags, StateFlags.ReadingState)
      ensures rateChanged <==> StateFlags.Get(old(props.flags), StateFlags.Rate) != StateFlags.Get(q.flags, StateFlags.Rate)
    {
      var rs, rate := StateFlags.Get(q.flags, StateFlags.ReadingState), StateFlags.Get(q.flags, StateFlags.Rate);
      StateFlags.GetIsMasked(q.flags, StateFlags.ReadingState);
      StateFlags.GetIsMasked(q.flags, StateFlags.Rate);
      StateFlags.SetChangesIff(props.flags, StateFlags.ReadingState, rs);
      StateFlags.SetChangesIff(StateFlags.Set(props.flags, StateFlags.ReadingState, rs), StateFlags.Rate, rate);
      StateFlags.SetKeepsOtherFields(props.flags, StateFlags.ReadingState, rs, StateFlags.Rate);
      stateChanged := SetStateField(StateFlags.ReadingState, rs);
      rateChanged := SetStateField(StateFlags.Rate, rate);
    }

    // -- adding, replacing and clearing children --

    /** `addDir`: appends, creating the list if null; claims the directory only when it has no parent yet. */
    method AddDir(dir: FileInfo)
      modifies this`dirs, dir`parent
      ensures dirs == Some(old(Dirs()) + [dir])
      ensures dir.parent == if old(dir.parent) == null then this else old(dir.parent)
    {
      if dirs.None? {
        dirs := Some([]);
      }
      dirs := Some(dirs.value + [dir]);
      if dir.parent == null {
        dir.parent := this;
      }
    }

    /** `addFile`: appends, creating the list if null; the file's parent is left alone. */
    method AddFile(file: FileInfo)
      modifies this`files
      ensures files == Some(old(Files()) + [file])
    {
      if files.None? {
        files := Some([]);
      }
      files := Some(files.value + [file]);
    }

    /** The body of the `addItems` loop: files the item by its kind and makes this node its parent. */
    method AddItem(item: FileInfo)
      modifies this`dirs, this`files, item`parent
      ensures dirs == if item.props.isDirectory then Some(old(Dirs()) + [item]) else old(dirs)
      ensures files == if item.props.isDirectory then old(files) else Some(old(Files()) + [item])
      ensures item.parent == this
    {
      if item.props.isDirectory {
        AddDir(item);
      } else {
        AddFile(item);
      }
      item.parent := this;
    }

    /**
     * `addItems`: each item goes to the directories or to the files by its
     * kind, in input order, and becomes a child of this node.
     */
    method AddItems(items: seq<FileInfo>)
      modifies this`dirs, this`files, (set x | x in items)`parent
      ensures dirs == Appended(old(dirs), old(OfKind(items, true)))
      ensures files == Appended(old(files), old(OfKind(items, false)))
      ensures forall x :: x in items ==> x.parent == this
      ensures ItemCount() == old(ItemCount()) + |items|
    {
      ghost var kinds := Kinds(items);
      AddAll(items, kinds);
      SelectPartition(items, kinds);
    }

    /** The loop of `addItems`, over items whose kinds are `kinds`. */
    method AddAll(items: seq<FileInfo>, ghost kinds: seq<bool>)
      requires |kinds| == |items| && forall j :: 0 <= j < |items| ==> items[j].props.isDirectory == kinds[j]
      modifies this`dirs, this`files, (set x | x in items)`parent
      ensures dirs == Appended(old(dirs), Select(items, kinds, true))
      ensures files == Appended(old(files), Select(items, kinds, false))
      ensures forall x :: x in items ==> x.parent == this
    {
      var i := 0;
      while i < |items|
        invariant 0 <= i <= |items|
        invariant dirs == Appended(old(dirs), Select(items[..i], kinds[..i], true))
        invariant files == Appended(old(files), Select(items[..i], kinds[..i], false))
        invariant forall j :: 0 <= j < i ==> items[j].parent == this
      {
        AddNext(items, kinds, i, old(dirs), old(files));
        i := i + 1;
      }
      assert items[..i] == items && kinds[..i] == kinds;
    }

    /**
     * One pass of the `addItems` loop: after the first `i` items have been
     * added to the lists `d0` and `f0`, adding item `i` extends the selection
     * of its kind by it.
     */
    method AddNext(items: seq<FileInfo>, ghost kinds: seq<bool>, i: nat, ghost d0: Option<seq<FileInfo>>, ghost f0: Option<seq<FileInfo>>)
      requires |kinds| == |items| && i < |items| && items[i].props.isDirectory == kinds[i]
      requires dirs == Appended(d0, Select(items[..i], kinds[..i], true))
      requires files == Appended(f0, Select(items[..i], kinds[..i], false))
      modifies this`dirs, this`files, {items[i]}`parent
      ensures dirs == Appended(d0, Select(items[..i + 1], kinds[..i + 1], true))
      ensures files == Appended(f0, Select(items[..i + 1], kinds[..i + 1], false))
      ensures items[i].parent == this
    {
      var item := items[i];
      SelectSnoc(items, kinds, i, true);
      SelectSnoc(items, kinds, i, false);
      AppendedSnoc(d0, Select(items[..i], kinds[..i], true), item);
      AppendedSnoc(f0, Select(items[..i], kinds[..i], false), item);
      AddItem(item);
    }

    /** `clear`: both child lists become null. */
    method Clear()
      modifies this`dirs, this`files
      ensures dirs == None && files == None
    {
      dirs := None;
      files := None;
    }

    /** `replaceItems`: the children become exactly `items`, split by kind. */
    method ReplaceItems(items: seq<FileInfo>)
      modifies this`dirs, this`files, (set x | x in items)`parent
      ensures dirs == Appended(None, old(OfKind(items, true)))
      ensures files == Appended(None, old(OfKind(items, false)))
      ensures forall x :: x in items ==> x.parent == this
      ensures ItemCount() == |items|
    {
      ghost var ds, fs := OfKind(items, true), OfKind(items, false);
      files := None;
      dirs := None;
      assert OfKind(items, true) == ds && OfKind(items, false) == fs;
      AddItems(items);
    }

    /**
     * `setItems(FileInfo)`: takes over the children and listing marks of
     * `copyFrom`, which keeps its own lists; nothing happens when `copyFrom`
     * is this node.
     */
    method SetItemsFrom(copyFrom: FileInfo)
      modifies this`dirs, this`files, this`isListed, this`isScanned, (set x | x in copyFrom.Children())`parent
      ensures this == copyFrom ==> dirs == old(dirs) && files == old(files)
      ensures this == copyFrom ==> isListed == old(isListed) && isScanned == old(isScanned)
      ensures this == copyFrom ==> forall x :: x in old(Children()) ==> x.parent == old(x.parent)
      ensures this != copyFrom ==> dirs == Appended(None, old(copyFrom.Dirs())) && files == Appended(None, old(copyFrom.Files()))
      ensures this != copyFrom ==> isListed == old(copyFrom.isListed) && isScanned == old(copyFrom.isScanned)
      ensures this != copyFrom ==> forall x :: x in old(copyFrom.Children()) ==> x.parent == this
    {
      if this == copyFrom {
        return;
      }
      Clear();
      // `copyFrom` is another node, so its lists stay as they are throughout.
      var fs, ds := copyFrom.Files(), copyFrom.Dirs();
      AdoptFiles(fs);
      AdoptDirs(ds);
      isListed := copyFrom.isListed;
      isScanned := copyFrom.isScanned;
    }

    /** The first loop of `setItems(FileInfo)`: each file becomes a child of this node and is appended to the files. */
    method AdoptFiles(fs: seq<FileInfo>)
      modifies this`files, (set x | x in fs)`parent
      ensures files == Appended(old(files), fs)
      ensures forall x :: x in fs ==> x.parent == this
    {
      var i := 0;
      while i < |fs|
        invariant 0 <= i <= |fs|
        invariant files == Appended(old(files), fs[..i])
        invariant forall j :: 0 <= j < i ==> fs[j].parent == this
      {
        var file := fs[i];
        file.parent := this;
        AppendedSnoc(old(files), fs[..i], file);
        assert fs[..i + 1] == fs[..i] + [file];
        AddFile(file);
        i := i + 1;
      }
      assert fs[..i] == fs;
    }

    /** The second loop of `setItems(FileInfo)`: each directory becomes a child of this node and is appended to the directories. */
    method AdoptDirs(ds: seq<FileInfo>)
      modifies this`dirs, (set x | x in ds)`parent
      ensures dirs == Appended(old(dirs), ds)
      ensures forall x :: x in ds ==> x.parent == this
    {
      var i := 0;
      while i < |ds|
        invariant 0 <= i <= |ds|
        invariant dirs == Appended(old(dirs), ds[..i])
        invariant forall j :: 0 <= j < i ==> ds[j].parent == this
      {
        var dir := ds[i];
        dir.parent := this;
        AppendedSnoc(old(dirs), ds[..i], dir);
        assert ds[..i + 1] == ds[..i] + [dir];
        AddDir(dir);
        i := i + 1;
      }
      assert ds[..i] == ds;
    }

    /**
     * `setItems(Collection)`: clears the children; a null collection leaves
     * it at that, otherwise its items are added and the node becomes listed.
     */
    method SetItemsList(list: Option<seq<FileInfo>>)
      modifies this`dirs, this`files, this`isListed, (set x | list.Some? && x in list.value)`parent
      ensures list.None? ==> dirs == None && files == None && isListed == old(isListed)
      ensures list.Some? ==> dirs == Appended(None, old(OfKind(list.value, true))) && files == Appended(None, old(OfKind(list.value, false)))
      ensures list.Some? ==> isListed && forall x :: x in list.value ==> x.parent == this
    {
      Clear();
      if list.None? {
        return;
      }
      AddItems(list.value);
      isListed := true;
    }

    // -- updating a child in place --

    /** The child directory `updateItem` rewrites: the first one with the path identity of `p`. */
    function DirTarget(p: Entry.Props): set<FileInfo>
      reads this`dirs, (set x | x in Dirs())`props
    {
      var k := FirstMatch(Dirs(), p);
      if k < |Dirs()| then {Dirs()[k]} else {}
    }

    /** The child file `updateItem` rewrites when no directory matched: the first one with the path identity of `p`. */
    function FileTarget(p: Entry.Props): set<FileInfo>
      reads this`dirs, this`files, (set x | x in Dirs())`props, (set x | x in Files())`props
    {
      if FirstMatch(Dirs(), p) < |Dirs()| then {}
      else
        var k := FirstMatch(Files(), p);
        if k < |Files()| then {Files()[k]} else {}
    }

    /**
     * `updateItem`: the first child with the path identity of `item`,
     * directories searched first, takes over `item`'s properties; a
     * directory also takes over its children and listing marks. Returns
     * whether a child matched.
     */
    method UpdateItem(item: FileInfo) returns (updated: bool)
      modifies DirTarget(item.props)`props, DirTarget(item.props)`dirs, DirTarget(item.props)`files
      modifies DirTarget(item.props)`isListed, DirTarget(item.props)`isScanned
      modifies FileTarget(item.props)`props, (set x | x in item.Children())`parent
      ensures updated <==> FirstMatch(old(Dirs()), old(item.props)) < |old(Dirs())| || FirstMatch(old(Files()), old(item.props)) < |old(Files())|
      ensures forall d :: d in old(DirTarget(item.props)) ==> d.props == old(item.props)
      ensures forall d :: d in old(DirTarget(item.props)) && d != item ==>
        && d.dirs == Appended(None, old(item.Dirs())) && d.files == Appended(None, old(item.Files()))
        && d.isListed == old(item.isListed) && d.isScanned == old(item.isScanned)
        && forall x :: x in old(item.Children()) ==> x.parent == d
      ensures old(DirTarget(item.props)) <= {item} ==> forall x :: x in old(item.Children()) ==> x.parent == old(x.parent)
      ensures forall f :: f in old(FileTarget(item.props)) ==> f.props == old(item.props)
    {
      if dirs.Some? {
        var k := IndexOfPath(dirs.value, item.props);
        if k < |dirs.value| {
          var dir := dirs.value[k];
          assert DirTarget(item.props) == {dir};
          dir.TakeOver(item);
          return true;
        }
      }
      assert DirTarget(item.props) == {};
      if files.Some? {
        var k := IndexOfPath(files.value, item.props);
        if k < |files.value| {
          var file := files.value[k];
          assert FileTarget(item.props) == {file};
          file.Assign(item);
          return true;
        }
      }
      return false;
    }

    /** What `updateItem` does to the directory that matched: `assign`, then `setItems(FileInfo)`. */
    method TakeOver(item: FileInfo)
      modifies this`props, this`dirs, this`files, this`isListed, this`isScanned, (set x | x in item.Children())`parent
      ensures props == old(item.props)
      ensures this != item ==>
        && dirs == Appended(None, old(item.Dirs())) && files == Appended(None, old(item.Files()))
        && isListed == old(item.isListed) && isScanned == old(item.isScanned)
        && forall x :: x in old(item.Children()) ==> x.parent == this
      ensures this == item ==> forall x :: x in old(item.Children()) ==> x.parent == old(x.parent)
    {
      Assign(item);
      SetItemsFrom(item);
    }

    // -- indexing --

    /** `getItem`: directories first, then files; a negative index throws, one past the end gives null. */
    function GetItem(index: int): (r: Result<Option<FileInfo>>)
      reads this`dirs, this`files
      ensures index < 0 ==> r == Throw(IndexOutOfBoundsException)
      ensures 0 <= index < ItemCount() ==> r == Ok(Some(Children()[index]))
      ensures index >= ItemCount() ==> r == Ok(None)
    {
      if index < 0 then Throw(IndexOutOfBoundsException)
      else if index < DirCount() then Ok(Some(dirs.value[index]))
      else if index - DirCount() < FileCount() then Ok(Some(files.value[index - DirCount()]))
      else Ok(None)
    }

    /** `getDir`: throws outside `0 <= index < dirCount()`. */
    function GetDir(index: int): (r: Result<FileInfo>)
      reads this`dirs
      ensures 0 <= index < DirCount() ==> r == Ok(Children()[index])
      ensures !(0 <= index < DirCount()) ==> r == Throw(IndexOutOfBoundsException)
    {
      if index < 0 then Throw(IndexOutOfBoundsException)
      else if index < DirCount() then Ok(dirs.value[index])
      else Throw(IndexOutOfBoundsException)
    }

    /** `getFile`: throws outside `0 <= index < fileCount()`. */
    function GetFile(index: int): (r: Result<FileInfo>)
      reads this`dirs, this`files
      ensures 0 <= index < FileCount() ==> r == Ok(Children()[DirCount() + index])
      ensures !(0 <= index < FileCount()) ==> r == Throw(IndexOutOfBoundsException)
    {
      if index < 0 then Throw(IndexOutOfBoundsException)
      else if index < FileCount() then Ok(files.value[index])
      else Throw(IndexOutOfBoundsException)
    }

    /** `getItemIndex`: the `getItem` index of the first child with the path identity of `item`, or -1. */
    method GetItemIndex(item: FileInfo?) returns (r: int)
      ensures item == null ==> r == -1
      ensures item != null ==> r == if FirstMatch(Children(), item.props) < ItemCount() then FirstMatch(Children(), item.props) else -1
    {
      if item == null {
        return -1;
      }
      var i := 0;
      while i < DirCount()
        invariant 0 <= i <= DirCount()
        invariant forall j :: 0 <= j < i ==> !Entry.PathNameEquals(item.props, Children()[j].props)
      {
        assert Children()[i] == Dirs()[i];
        if Entry.PathNameEquals(item.props, Dirs()[i].props) {
          return i;
        }
        i := i + 1;
      }
      i := 0;
      while i < FileCount()
        invariant 0 <= i <= FileCount()
        invariant forall j :: 0 <= j < DirCount() + i ==> !Entry.PathNameEquals(item.props, Children()[j].props)
      {
        assert Children()[DirCount() + i] == Files()[i];
        if Entry.PathNameEquals(item.props, Files()[i].props) {
          return i + DirCount();
        }
        i := i + 1;
      }
      return -1;
    }

    /** `hasItem`: some child has the path identity of `item`. */
    method HasItem(item: FileInfo?) returns (b: bool)
      ensures b <==> item != null && exists i :: 0 <= i < |Children()| && Entry.PathNameEquals(item.props, Children()[i].props)
    {
      var index := GetItemIndex(item);
      b := index >= 0;
    }

    /** `getFileIndex`: the position among the files of the first one with the path identity of `item`, or -1. */
    method GetFileIndex(item: FileInfo?) returns (r: int)
      ensures item == null ==> r == -1
      ensures item != null ==> r == if FirstMatch(Files(), item.props) < FileCount() then FirstMatch(Files(), item.props) else -1
    {
      if item == null {
        return -1;
      }
      var i := 0;
      while i < FileCount()
        invariant 0 <= i <= FileCount()
        invariant forall j :: 0 <= j < i ==> !Entry.PathNameEquals(item.props, Files()[j].props)
      {
        if Entry.PathNameEquals(item.props, Files()[i].props) {
          return i;
        }
        i := i + 1;
      }
      return -1;
    }

    /** `setFile(int, FileInfo)`: replaces one file and makes this node its parent; throws out of range. */
    method SetFileAt(index: int, file: FileInfo) returns (r: Result<()>)
      modifies this`files, file`parent
      ensures 0 <= index < old(FileCount()) ==> r == Ok(()) && files == Some(old(Files())[index := file]) && file.parent == this
      ensures !(0 <= index < old(FileCount())) ==> r == Throw(IndexOutOfBoundsException)
      ensures !(0 <= index < old(FileCount())) ==> files == old(files) && file.parent == old(file.parent)
    {
      if index < 0 {
        return Throw(IndexOutOfBoundsException);
      }
      if index < FileCount() {
        files := Some(files.value[index := file]);
        file.parent := this;
        return Ok(());
      }
      return Throw(IndexOutOfBoundsException);
    }

    /** `setFile(FileInfo)`: replaces the first file with the path identity of `file`, if there is one. */
    method SetFile(file: FileInfo?)
      modifies this`files, (if file != null then {file} else {})`parent
      ensures file == null ==> files == old(files)
      ensures file != null ==>
        var k := FirstMatch(old(Files()), file.props);
        if k < |old(Files())| then files == Some(old(Files())[k := file]) && file.parent == this
        else files == old(files) && file.parent == old(file.parent)
    {
      var index := GetFileIndex(file);
      if index < 0 {
        return;
      }
      var _ := SetFileAt(index, file);
    }

    // -- removing children --

    /**
     * `removeEmptyDirs`: in a listed, non-virtual node that has a parent and
     * a directory list, drops every listed child directory that has no
     * children; reports whether anything was dropped. A node with a parent
     * and a null pathname throws.
     */
    method RemoveEmptyDirs() returns (r: Result<bool>)
      modifies this`dirs
      ensures parent == null ==> r == Ok(false) && dirs == old(dirs)
      ensures parent != null && props.pathname.None? ==> r == Throw(NullPointerException) && dirs == old(dirs)
      ensures parent != null && props.pathname.Some? && (PathIdentity.StartsWith(props.pathname.value, "@") || !isListed || old(dirs).None?) ==>
        r == Ok(false) && dirs == old(dirs)
      ensures parent != null && props.pathname.Some? && !PathIdentity.StartsWith(props.pathname.value, "@") && isListed && old(dirs).Some? ==>
        dirs == Some(old(KeptDirs(Dirs()))) && r == Ok(|Dirs()| < |old(Dirs())|)
    {
      if parent == null {
        return Ok(false);
      }
      if props.pathname.None? {
        return Throw(NullPointerException);
      }
      if PathIdentity.StartsWith(props.pathname.value, "@") || !isListed || dirs.None? {
        return Ok(false);
      }
      var removed := DropEmptyDirs();
      return Ok(removed);
    }

    /** The loop of `removeEmptyDirs`: from the last directory to the first, drops each empty listed one. */
    method DropEmptyDirs() returns (removed: bool)
      requires dirs.Some?
      modifies this`dirs
      ensures dirs == Some(old(KeptDirs(dirs.value)))
      ensures removed <==> |Dirs()| < |old(Dirs())|
    {
      var ds := dirs.value;
      ghost var marks := EmptyMarks(ds);
      ghost var kept := KeptDirs(ds);
      assert kept == Unmarked(ds, marks);
      removed := false;
      var i := |ds|;
      assert ds[..i] == ds && ds[i..] == [] && marks[i..] == [];
      assert ds[..i] + Unmarked(ds[i..], marks[i..]) == ds + [] == ds;
      while i > 0
        invariant 0 <= i <= |ds|
        invariant dirs == Some(ds[..i] + Unmarked(ds[i..], marks[i..]))
        invariant removed <==> |Unmarked(ds[i..], marks[i..])| < |ds[i..]|
        invariant forall j :: 0 <= j < |ds| && ds[j] != this ==> marks[j] == IsEmptyListedDir(ds[j])
        invariant forall j :: 0 <= j < |ds| && ds[j] == this ==> !marks[j]
      {
        i := i - 1;
        ghost var rest := Unmarked(ds[i + 1..], marks[i + 1..]);
        UnmarkedStep(ds, marks, i);
        PrefixSnoc(ds, i);
        SplitAt(ds[..i], ds[i], rest);
        assert marks[i] == IsEmptyListedDir(ds[i]) by {
          if ds[i] == this {
            assert DirCount() > 0;
          }
        }
        var dropped := RemoveDirIfEmpty(i);
        removed := dropped || removed;
      }
      assert ds[0..] == ds && marks[0..] == marks && ds[..0] + kept == kept;
      assert dirs == Some(kept);
    }

    /** The body of the `removeEmptyDirs` loop: drops the directory at `i` when it is listed and has no children. */
    method RemoveDirIfEmpty(i: nat) returns (dropped: bool)
      requires dirs.Some? && i < |dirs.value|
      modifies this`dirs
      ensures dropped <==> old(IsEmptyListedDir(dirs.value[i]))
      ensures dirs == if dropped then Some(old(dirs.value[..i] + dirs.value[i + 1..])) else old(dirs)
    {
      var dir := dirs.value[i];
      if dir.isListed && dir.DirCount() == 0 && dir.FileCount() == 0 {
        dirs := Some(dirs.value[..i] + dirs.value[i + 1..]);
        return true;
      }
      return false;
    }

    /**
     * `removeChild`: removes the first file that `item` equals, or failing
     * that the first such directory; a special (virtual) item is never removed.
     */
    method RemoveChild(item: FileInfo, ghost rank: map<FileInfo, nat>)
      requires Ranked(rank) && item in rank && forall x :: x in Children() ==> x in rank
      modifies this`dirs, this`files
      ensures old(PathIdentity.IsSpecialDir(item.props.pathname)) ==> dirs == old(dirs) && files == old(files)
      ensures old(!PathIdentity.IsSpecialDir(item.props.pathname) && FirstEqual(Files(), item, rank) < FileCount()) ==>
        var kf := old(FirstEqual(Files(), item, rank));
        files == Some(old(Files()[..kf] + Files()[kf + 1..])) && dirs == old(dirs)
      ensures old(!PathIdentity.IsSpecialDir(item.props.pathname) && FirstEqual(Files(), item, rank) == FileCount() && FirstEqual(Dirs(), item, rank) < DirCount()) ==>
        var kd := old(FirstEqual(Dirs(), item, rank));
        dirs == Some(old(Dirs()[..kd] + Dirs()[kd + 1..])) && files == old(files)
      ensures old(FirstEqual(Files(), item, rank) == FileCount() && FirstEqual(Dirs(), item, rank) == DirCount()) ==>
        dirs == old(dirs) && files == old(files)
    {
      if PathIdentity.IsSpecialDir(item.props.pathname) {
        return;
      }
      ghost var kf, kd := FirstEqual(Files(), item, rank), FirstEqual(Dirs(), item, rank);
      if files.Some? {
        var n := IndexOfEqual(files.value, item, rank);
        if n >= 0 && n < |files.value| {
          files := Some(files.value[..n] + files.value[n + 1..]);
          return;
        }
      }
      if dirs.Some? {
        var n := IndexOfEqual(dirs.value, item, rank);
        if n >= 0 && n < |dirs.value| {
          dirs := Some(dirs.value[..n] + dirs.value[n + 1..]);
        }
      }
    }

    // -- structural equality --

    /**
     * `equals`: the same object, or a non-null node with equal fields, child
     * lists of the same shape whose elements are pairwise equal, the same
     * listing marks and the same parent object.
     */
    function Equals(other: FileInfo?, ghost rank: map<FileInfo, nat>): (r: bool)
      requires Ranked(rank) && this in rank && (other != null ==> other in rank)
      reads rank.Keys
      ensures other == this ==> r
      ensures other == null ==> !r
      ensures other != null && other != this ==>
        (r <==> && Entry.FieldsEqual(props, other.props)
                && (dirs.None? <==> other.dirs.None?) && (files.None? <==> other.files.None?)
                && |Dirs()| == |other.Dirs()| && |Files()| == |other.Files()|
                && (forall i :: 0 <= i < |Dirs()| ==> Dirs()[i].Equals(other.Dirs()[i], rank))
                && (forall i :: 0 <= i < |Files()| ==> Files()[i].Equals(other.Files()[i], rank))
                && isListed == other.isListed && isScanned == other.isScanned && parent == other.parent)
      decreases rank[this]
    {
      if this == other then true
      else if other == null then false
      else
        && Entry.FieldsEqual(props, other.props)
        && (dirs.None? <==> other.dirs.None?)
        && |Dirs()| == |other.Dirs()|
        && (forall i :: 0 <= i < |Dirs()| ==> Dirs()[i].Equals(other.Dirs()[i], rank))
        && (files.None? <==> other.files.None?)
        && |Files()| == |other.Files()|
        && (forall i :: 0 <= i < |Files()| ==> Files()[i].Equals(other.Files()[i], rank))
        && isListed == other.isListed
        && isScanned == other.isScanned
        && parent == other.parent
    }

    /**
     * `baseEquals`: true for the same object, false for null, otherwise the
     * fingerprint comparison of `Entry.BaseEquals`, which throws when the
     * compressed sizes agree and both authors are null.
     */
    function BaseEquals(other: FileInfo?): (r: Result<bool>)
      reads this, other
      ensures r.Throw? <==> other != null && other != this && props.arcsize == other.props.arcsize && props.authors.None? && other.props.authors.None?
      ensures r.Ok? ==> (r.value <==> other == this || (other != null && Entry.FingerprintOf(props) == Entry.FingerprintOf(other.props)))
    {
      if this == other then Ok(true)
      else if other == null then Ok(false)
      else
        Entry.BaseEqualsThrowsOnNullAuthors(props, other.props);
        Entry.BaseEquals(props, other.props)
    }

    /** `getAuthorId`: the database id of an author directory, 0 for any other node; unboxing a null id throws. */
    function AuthorId(): (r: Result<int>)
      reads this`props
      ensures !PathIdentity.IsBooksByAuthorDir(props.pathname) ==> r == Ok(0)
      ensures PathIdentity.IsBooksByAuthorDir(props.pathname) ==> (r.Throw? <==> props.id.None?) && (r.Ok? ==> props.id == Some(r.value))
    {
      if !PathIdentity.IsBooksByAuthorDir(props.pathname) then Ok(0)
      else if props.id.None? then Throw(NullPointerException)
      else Ok(props.id.value)
    }

    /** `getSeriesId`: the database id of a series directory, 0 for any other node; unboxing a null id throws. */
    function SeriesId(): (r: Result<int>)
      reads this`props
      ensures !PathIdentity.IsBooksBySeriesDir(props.pathname) ==> r == Ok(0)
      ensures PathIdentity.IsBooksBySeriesDir(props.pathname) ==> (r.Throw? <==> props.id.None?) && (r.Ok? ==> props.id == Some(r.value))
    {
      if !PathIdentity.IsBooksBySeriesDir(props.pathname) then Ok(0)
      else if props.id.None? then Throw(NullPointerException)
      else Ok(props.id.value)
    }

    // -- ancestors, lookup and sorting --

    /** `isOnSDCard`: some ancestor-or-self is a card mount point directly under the root node. */
    function IsOnSDCard(ghost depth: map<FileInfo, nat>): (r: bool)
      requires AncestorsRanked(depth) && this in depth
      reads depth.Keys
      ensures r ==> parent != null
      ensures MountUnderRoot(this) ==> r
      ensures parent != null && !MountUnderRoot(this) ==> r == parent.IsOnSDCard(depth)
      decreases depth[this]
    {
      if parent == null then false
      else if MountUnderRoot(this) then true
      else parent.IsOnSDCard(depth)
    }

    /** On a card exactly when some ancestor-or-self is a card mount directly under the root. */
    lemma {:induction false} IsOnSDCardIff(depth: map<FileInfo, nat>)
      requires AncestorsRanked(depth) && this in depth
      ensures IsOnSDCard(depth) <==> exists n: nat :: Ancestor(this, n, depth) != null && MountUnderRoot(Ancestor(this, n, depth))
      decreases depth[this]
    {
      if parent == null {
        forall n: nat | Ancestor(this, n, depth) != null
          ensures !MountUnderRoot(Ancestor(this, n, depth))
        {
        }
      } else if MountUnderRoot(this) {
        assert Ancestor(this, 0, depth) == this;
      } else {
        parent.IsOnSDCardIff(depth);
        if IsOnSDCard(depth) {
          var m: nat :| Ancestor(parent, m, depth) != null && MountUnderRoot(Ancestor(parent, m, depth));
          assert Ancestor(this, m + 1, depth) == Ancestor(parent, m, depth);
        } else {
          forall n: nat | Ancestor(this, n, depth) != null
            ensures !MountUnderRoot(Ancestor(this, n, depth))
          {
            if n > 0 {
              assert Ancestor(this, n, depth) == Ancestor(parent, n - 1, depth);
            }
          }
        }
      }
    }

    /** The ghost measure only proves termination: any two valid measures give the same answer. */
    lemma {:induction false} IsOnSDCardIndependent(d1: map<FileInfo, nat>, d2: map<FileInfo, nat>)
      requires AncestorsRanked(d1) && this in d1
      requires AncestorsRanked(d2) && this in d2
      ensures IsOnSDCard(d1) == IsOnSDCard(d2)
      decreases d1[this]
    {
      if parent != null {
        parent.IsOnSDCardIndependent(d1, d2);
      }
    }

    /**
     * `findItemByPathName`: the first child directory, then the first child
     * file, whose full path matches `pathName`.
     */
    method FindItemByPathName(pathName: Option<string>, ghost depth: map<FileInfo, nat>) returns (r: Result<Option<FileInfo>>)
      requires AncestorsRanked(depth) && this in depth
      ensures r == Find(pathName, IsOnSDCard(depth), Dirs(), Files())
    {
      var onSD := IsOnSDCard(depth);
      var ds, fs := Dirs(), Files();
      var i := 0;
      while i < |ds|
        invariant 0 <= i <= |ds|
        invariant FindInDirs(pathName, onSD, ds) == FindInDirs(pathName, onSD, ds[i..])
      {
        assert ds[i..][1..] == ds[i + 1..];
        var m := DirMatches(pathName, onSD, FullPath(ds[i]));
        if m.Throw? {
          return Throw(m.exception);
        }
        if m.value {
          return Ok(Some(ds[i]));
        }
        i := i + 1;
      }
      i := 0;
      while i < |fs|
        invariant 0 <= i <= |fs|
        invariant FindInFiles(pathName, onSD, fs) == FindInFiles(pathName, onSD, fs[i..])
      {
        assert fs[i..][1..] == fs[i + 1..];
        var m := FileMatches(pathName, onSD, FullPath(fs[i]));
        if m.Throw? {
          return Throw(m.exception);
        }
        if m.value {
          return Ok(Some(fs[i]));
        }
        i := i + 1;
      }
      return Ok(None);
    }

    /**
     * `sort`: each non-null child list is replaced by a sorted copy of itself
     * (`SortedChildren`, which keeps the elements and orders them by the
     * order's comparator); a null list stays null.
     */
    method Sort(order: SortOrders.SortOrder, formatAuthors: Option<string> -> Option<string>)
      modifies this`dirs, this`files
      ensures dirs == if old(dirs).None? then None else Some(old(SortedChildren(order, formatAuthors, dirs.value)))
      ensures files == if old(files).None? then None else Some(old(SortedChildren(order, formatAuthors, files.value)))
    {
      if dirs.Some? {
        dirs := Some(SortedChildren(order, formatAuthors, dirs.value));
      }
      if files.Some? {
        files := Some(SortedChildren(order, formatAuthors, files.value));
      }
    }
  }

  /** `equals` is transitive: equal fields, list shapes and marks chain, and so do the paired children. */
  lemma {:induction false} EqualsTransitive(a: FileInfo, b: FileInfo, c: FileInfo, rank: map<FileInfo, nat>)
    requires Ranked(rank) && a in rank && b in rank && c in rank
    requires a.Equals(b, rank) && b.Equals(c, rank)
    ensures a.Equals(c, rank)
    decreases rank[a]
  {
    if a != b && b != c && a != c {
      Entry.FieldsEqualIff(a.props, b.props);
      Entry.FieldsEqualIff(b.props, c.props);
      Entry.FieldsEqualIff(a.props, c.props);
      forall i | 0 <= i < |a.Dirs()|
        ensures a.Dirs()[i].Equals(c.Dirs()[i], rank)
      {
        EqualsTransitive(a.Dirs()[i], b.Dirs()[i], c.Dirs()[i], rank);
      }
      forall i | 0 <= i < |a.Files()|
        ensures a.Files()[i].Equals(c.Files()[i], rank)
      {
        EqualsTransitive(a.Files()[i], b.Files()[i], c.Files()[i], rank);
      }
    }
  }

  /** `equals` is symmetric. */
  lemma {:induction false} EqualsSymmetric(a: FileInfo, b: FileInfo, rank: map<FileInfo, nat>)
    requires Ranked(rank) && a in rank && b in rank
    ensures a.Equals(b, rank) == b.Equals(a, rank)
    decreases rank[a] + rank[b]
  {
    if a != b {
      Entry.SeriesEqIff(a.props.series, b.props.series);
      Entry.SeriesEqIff(b.props.series, a.props.series);
      forall i | 0 <= i < |a.Dirs()| && i < |b.Dirs()|
        ensures a.Dirs()[i].Equals(b.Dirs()[i], rank) == b.Dirs()[i].Equals(a.Dirs()[i], rank)
      {
        EqualsSymmetric(a.Dirs()[i], b.Dirs()[i], rank);
      }
      forall i | 0 <= i < |a.Files()| && i < |b.Files()|
        ensures a.Files()[i].Equals(b.Files()[i], rank) == b.Files()[i].Equals(a.Files()[i], rank)
      {
        EqualsSymmetric(a.Files()[i], b.Files()[i], rank);
      }
    }
  }

  /** Two `equals` nodes also agree under the fingerprint comparison. */
  lemma EqualsImpliesBaseEquals(a: FileInfo, b: FileInfo, rank: map<FileInfo, nat>)
    requires Ranked(rank) && a in rank && b in rank
    requires a.Equals(b, rank)
    ensures Entry.BaseEqualsIntended(a.props, b.props)
  {
    if a != b {
      Entry.FieldsEqualImpliesBaseEquals(a.props, b.props);
    }
  }
}
