/**
 * Path identity of a catalog entry: the composite `archive@/member` path
 * syntax, the reserved sentinel paths of virtual directories, and the small
 * parsers that pick parameters out of virtual paths.
 *
 * A Java `String` field that may be null is an `Option<string>`; a call that
 * would dereference null yields `Throw(NullPointerException)`.
 */
module PathIdentity {
  import opened Wrappers

  /** Separates an archive's path from the member path inside it. */
  const ARC_SEPARATOR: string := "@/"

  // Sentinel paths of virtual directories, matched exactly.
  const RECENT_DIR_TAG: string := "@recent"
  const SEARCH_RESULT_DIR_TAG: string := "@searchResults"
  const ROOT_DIR_TAG: string := "@root"
  const OPDS_LIST_TAG: string := "@opds"
  const GENRES_TAG: string := "@genresRoot"
  const AUTHORS_TAG: string := "@authorsRoot"
  const SERIES_TAG: string := "@seriesRoot"
  const RATING_TAG: string := "@ratingRoot"
  const STATE_TO_READ_TAG: string := "@stateToReadRoot"
  const STATE_READING_TAG: string := "@stateReadingRoot"
  const STATE_FINISHED_TAG: string := "@stateFinishedRoot"
  const TITLE_TAG: string := "@titlesRoot"
  const SEARCH_SHORTCUT_TAG: string := "@search"

  // Prefixes of parametrised virtual directories.
  const OPDS_DIR_PREFIX: string := "@opds:"
  const ONLINE_CATALOG_PLUGIN_PREFIX: string := "@plugin:"
  const GENRES_GROUP_PREFIX: string := "@genresGroup:"
  const GENRES_PREFIX: string := "@genre:"
  const AUTHOR_GROUP_PREFIX: string := "@authorGroup:"
  const AUTHOR_PREFIX: string := "@author:"
  const SERIES_GROUP_PREFIX: string := "@seriesGroup:"
  const SERIES_PREFIX: string := "@series:"
  const TITLE_GROUP_PREFIX: string := "@titleGroup:"

  /**
   * The untyped `tag` payload of an entry, reduced to what the predicates
   * inspect: an OPDS feed entry (with or without a best acquisition link),
   * an online-store book, something else, or null.
   */
  datatype Tag = NoTag | OPDSEntry(hasBestAcquisitionLink: bool) | StoreBook | OtherTag

  /** Java `s.startsWith(prefix)`. */
  predicate StartsWith(s: string, prefix: string)
  {
    prefix <= s
  }

  /** `pat` occurs in `s` starting at index `k`. */
  predicate OccursAt(s: string, pat: string, k: int)
  {
    0 <= k <= |s| && pat <= s[k..]
  }

  /** Java `s.contains(pat)`. */
  predicate Contains(s: string, pat: string)
  {
    exists k :: 0 <= k <= |s| && pat <= s[k..]
  }

  /** Java `s.indexOf(pat)`: the first index at which `pat` occurs in `s`, or -1 when it does not. */
  function IndexOf(s: string, pat: string): (r: int)
    ensures -1 <= r <= |s|
    ensures r >= 0 ==> OccursAt(s, pat, r)
    ensures forall k :: 0 <= k && (r < 0 || k < r) ==> !OccursAt(s, pat, k)
    decreases |s|
  {
    if pat <= s then 0
    else if s == [] then -1
    else
      var r := IndexOf(s[1..], pat);
      assert forall k :: 1 <= k <= |s| ==> s[k..] == s[1..][k - 1..];
      assert forall k :: 1 <= k && OccursAt(s, pat, k) ==> OccursAt(s[1..], pat, k - 1);
      if r < 0 then -1 else r + 1
  }

  /** `Contains` is decided by `IndexOf`. */
  lemma ContainsIffIndexOf(s: string, pat: string)
    ensures Contains(s, pat) <==> IndexOf(s, pat) >= 0
  {
    var r := IndexOf(s, pat);
    if r >= 0 {
      assert OccursAt(s, pat, r);
      assert pat <= s[r..];
    } else {
      forall k | 0 <= k <= |s|
        ensures !(pat <= s[k..])
      {
        assert !OccursAt(s, pat, k);
      }
    }
  }

  /** The first occurrence of `pat` is at `k` when it occurs there and nowhere before. */
  lemma IndexOfIs(s: string, pat: string, k: nat)
    requires OccursAt(s, pat, k)
    requires forall j :: 0 <= j < k ==> !OccursAt(s, pat, j)
    ensures IndexOf(s, pat) == k
  {
  }

  /** A text `A` that does not contain `pat` has no occurrence of `pat` lying wholly inside `A + B`'s first `|A|` characters. */
  lemma NoOccurrenceInside(A: string, B: string, pat: string, j: nat)
    requires !Contains(A, pat)
    requires j + |pat| <= |A|
    ensures !OccursAt(A + B, pat, j)
  {
    assert (A + B)[j..][..|pat|] == A[j..][..|pat|];
    assert !(pat <= A[j..]);
  }

  /** A text without the first character of `pat` does not contain `pat`. */
  lemma NoFirstCharNoOccurrence(s: string, pat: string)
    requires |pat| > 0 && pat[0] !in s
    ensures !Contains(s, pat)
  {
    forall k | 0 <= k <= |s|
      ensures !(pat <= s[k..])
    {
      if k < |s| {
        assert s[k..][0] == s[k];
      }
    }
  }

  /** In `A + [c] + B` with `c` absent from `A`, the first `c` is the one after `A`. */
  lemma IndexOfCharAfter(A: string, c: char, B: string)
    requires c !in A
    ensures IndexOf(A + [c] + B, [c]) == |A|
  {
    var s := A + [c] + B;
    assert s[|A|..][..1] == [c];
    forall j | 0 <= j < |A|
      ensures !OccursAt(s, [c], j)
    {
      assert s[j] == A[j];
    }
    IndexOfIs(s, [c], |A|);
  }

  /** In a text without `c`, `indexOf` of `c` is -1. */
  lemma IndexOfCharAbsent(s: string, c: char)
    requires c !in s
    ensures IndexOf(s, [c]) == -1
  {
    NoFirstCharNoOccurrence(s, [c]);
    ContainsIffIndexOf(s, [c]);
  }

  /** Cutting `s` around the first occurrence of `pat` gives a head free of `pat` that rejoins to `s`. */
  lemma SplitAtFirst(s: string, pat: string, pos: int)
    requires pat != [] && pos == IndexOf(s, pat) && pos >= 0
    ensures pos + |pat| <= |s|
    ensures s[..pos] + pat + s[pos + |pat|..] == s
    ensures !Contains(s[..pos], pat)
  {
    JoinAt(s, pat, pos);
    HeadFree(s, pat, pos);
  }

  /** Around an occurrence of `pat` at `pos`, `s` is its head, `pat` and its tail. */
  lemma JoinAt(s: string, pat: string, pos: nat)
    requires OccursAt(s, pat, pos)
    ensures pos + |pat| <= |s|
    ensures s[..pos] + pat + s[pos + |pat|..] == s
  {
    assert s[pos..] == pat + s[pos + |pat|..];
    assert s == s[..pos] + s[pos..];
  }

  /** The text before the first occurrence of a non-empty `pat` does not contain `pat`. */
  lemma HeadFree(s: string, pat: string, pos: nat)
    requires pat != [] && pos <= |s|
    requires forall k :: 0 <= k < pos ==> !OccursAt(s, pat, k)
    ensures !Contains(s[..pos], pat)
  {
    var head := s[..pos];
    forall k | 0 <= k <= |head|
      ensures !(pat <= head[k..])
    {
      if k < pos {
        assert !OccursAt(s, pat, k);
        assert head[k..] <= s[k..];
      }
    }
  }

  /**
   * `splitArcName`: splits a path at the first `"@/"` into (member path,
   * archive path); a path without the separator is (path, null).
   * The archive part never contains the separator, and joining the parts
   * back gives the input.
   */
  function SplitArcName(pathName: string): (r: (string, Option<string>))
    ensures r.1.None? <==> !Contains(pathName, ARC_SEPARATOR)
    ensures r.1.None? ==> r.0 == pathName
    ensures r.1.Some? ==> r.1.value + ARC_SEPARATOR + r.0 == pathName && !Contains(r.1.value, ARC_SEPARATOR)
  {
    var pos := IndexOf(pathName, ARC_SEPARATOR);
    ContainsIffIndexOf(pathName, ARC_SEPARATOR);
    if pos >= 0 then
      var archive := pathName[..pos];
      SplitAtFirst(pathName, ARC_SEPARATOR, pos);
      (pathName[pos + |ARC_SEPARATOR|..], Some(archive))
    else
      (pathName, None)
  }

  /** Composite paths round-trip: splitting `A + "@/" + M` gives back `(M, A)` when `A` has no separator. */
  lemma SplitOfJoin(archive: string, member: string)
    requires !Contains(archive, ARC_SEPARATOR)
    ensures SplitArcName(archive + ARC_SEPARATOR + member) == (member, Some(archive))
  {
    var s := archive + ARC_SEPARATOR + member;
    assert s[|archive|..][..2] == ARC_SEPARATOR;
    forall j | 0 <= j < |archive|
      ensures !OccursAt(s, ARC_SEPARATOR, j)
    {
      if j + 2 <= |archive| {
        NoOccurrenceInside(archive, ARC_SEPARATOR + member, ARC_SEPARATOR, j);
      } else {
        assert s[j + 1] == '@';
      }
    }
    IndexOfIs(s, ARC_SEPARATOR, |archive|);
    assert s[|archive| + 2..] == member;
    assert s[..|archive|] == archive;
  }

  /** `getPathName`: `arcname + "@/" + pathname` for an archive member, else `pathname` (Java prints a null member as "null"). */
  function GetPathName(arcname: Option<string>, pathname: Option<string>): (r: Option<string>)
    ensures arcname.None? ==> r == pathname
    ensures arcname.Some? ==> r.Some? && StartsWith(r.value, arcname.value + ARC_SEPARATOR)
  {
    if arcname.Some? then Some(arcname.value + ARC_SEPARATOR + JavaString(pathname)) else pathname
  }

  /** `getBasePath`: the archive path of an archive member, else the path itself. */
  function GetBasePath(arcname: Option<string>, pathname: Option<string>): Option<string>
  {
    if arcname.Some? then arcname else pathname
  }

  /** `getArchiveItemName`: the member path of an archive member that is not a directory, else null. */
  function GetArchiveItemName(isArchive: bool, isDirectory: bool, pathname: Option<string>): Option<string>
  {
    if isArchive && !isDirectory && pathname.Some? then pathname else None
  }

  /**
   * Splitting the full path of an entry gives back its own (pathname, arcname)
   * pair, for an archive member whose archive path has no separator and for a
   * plain entry whose path has none.
   */
  lemma SplitOfPathName(arcname: Option<string>, pathname: string)
    requires arcname.Some? ==> !Contains(arcname.value, ARC_SEPARATOR)
    requires arcname.None? ==> !Contains(pathname, ARC_SEPARATOR)
    ensures GetPathName(arcname, Some(pathname)).Some?
    ensures SplitArcName(GetPathName(arcname, Some(pathname)).value) == (pathname, arcname)
    ensures GetBasePath(arcname, Some(pathname)) == if arcname.Some? then arcname else Some(pathname)
  {
    if arcname.Some? {
      SplitOfJoin(arcname.value, pathname);
    }
  }

  /** The worked example of an archive member path. */
  lemma ArchiveMemberExample()
    ensures SplitArcName("/sdcard/book.zip@/chapter1.fb2") == ("chapter1.fb2", Some("/sdcard/book.zip"))
    ensures GetBasePath(Some("/sdcard/book.zip"), Some("chapter1.fb2")) == Some("/sdcard/book.zip")
    ensures GetArchiveItemName(true, false, Some("chapter1.fb2")) == Some("chapter1.fb2")
  {
    var archive := "/sdcard/book.zip";
    NoFirstCharNoOccurrence(archive, ARC_SEPARATOR);
    SplitOfJoin(archive, "chapter1.fb2");
    assert archive + ARC_SEPARATOR + "chapter1.fb2" == "/sdcard/book.zip@/chapter1.fb2";
  }

  // ---------------------------------------------------------------------
  // Classification of virtual directories.

  /** `pathname != null && pathname.startsWith(prefix)`. */
  predicate HasPrefix(pathname: Option<string>, prefix: string)
  {
    pathname.Some? && StartsWith(pathname.value, prefix)
  }

  predicate IsRecentDir(pathname: Option<string>) { pathname == Some(RECENT_DIR_TAG) }
  predicate IsSearchDir(pathname: Option<string>) { pathname == Some(SEARCH_RESULT_DIR_TAG) }
  predicate IsRootDir(pathname: Option<string>) { pathname == Some(ROOT_DIR_TAG) }
  predicate IsOPDSRoot(pathname: Option<string>) { pathname == Some(OPDS_LIST_TAG) }
  predicate IsSearchShortcut(pathname: Option<string>) { pathname == Some(SEARCH_SHORTCUT_TAG) }
  predicate IsBooksByGenreRoot(pathname: Option<string>) { pathname == Some(GENRES_TAG) }
  predicate IsBooksByAuthorRoot(pathname: Option<string>) { pathname == Some(AUTHORS_TAG) }
  predicate IsBooksBySeriesRoot(pathname: Option<string>) { pathname == Some(SERIES_TAG) }
  predicate IsBooksByRatingRoot(pathname: Option<string>) { pathname == Some(RATING_TAG) }
  predicate IsBooksByStateToReadRoot(pathname: Option<string>) { pathname == Some(STATE_TO_READ_TAG) }
  predicate IsBooksByStateReadingRoot(pathname: Option<string>) { pathname == Some(STATE_READING_TAG) }
  predicate IsBooksByStateFinishedRoot(pathname: Option<string>) { pathname == Some(STATE_FINISHED_TAG) }
  predicate IsBooksByTitleRoot(pathname: Option<string>) { pathname == Some(TITLE_TAG) }

  /** `isSpecialDir`: every virtual path starts with `"@"`. */
  predicate IsSpecialDir(pathname: Option<string>) { HasPrefix(pathname, "@") }

  predicate IsOnlineCatalogPluginDir(pathname: Option<string>) { HasPrefix(pathname, ONLINE_CATALOG_PLUGIN_PREFIX) }
  predicate IsBooksByGenreDir(pathname: Option<string>) { HasPrefix(pathname, GENRES_PREFIX) }
  predicate IsBooksByAuthorDir(pathname: Option<string>) { HasPrefix(pathname, AUTHOR_PREFIX) }
  predicate IsBooksBySeriesDir(pathname: Option<string>) { HasPrefix(pathname, SERIES_PREFIX) }

  /** `isOnlineCatalogPluginBook`: a non-directory under the plugin prefix whose payload is a store book. */
  predicate IsOnlineCatalogPluginBook(isDirectory: bool, pathname: Option<string>, tag: Tag)
  {
    !isDirectory && HasPrefix(pathname, ONLINE_CATALOG_PLUGIN_PREFIX) && tag.StoreBook?
  }

  /** `isOPDSDir`: under the OPDS prefix, unless the payload is a feed entry with a best acquisition link. */
  predicate IsOPDSDir(pathname: Option<string>, tag: Tag)
  {
    HasPrefix(pathname, OPDS_DIR_PREFIX) && (!tag.OPDSEntry? || !tag.hasBestAcquisitionLink)
  }

  /** `isOPDSBook`: under the OPDS prefix, with a feed-entry payload that has a best acquisition link. */
  predicate IsOPDSBook(pathname: Option<string>, tag: Tag)
  {
    HasPrefix(pathname, OPDS_DIR_PREFIX) && tag.OPDSEntry? && tag.hasBestAcquisitionLink
  }

  /** `allowSorting`: directories other than the root, recent, OPDS and series directories. */
  predicate AllowSorting(isDirectory: bool, pathname: Option<string>, tag: Tag)
  {
    isDirectory && !IsRootDir(pathname) && !IsRecentDir(pathname) && !IsOPDSDir(pathname, tag) && !IsBooksBySeriesDir(pathname)
  }

  /** The sentinels matched exactly, in declaration order. */
  const EXACT_TAGS: seq<string> := [RECENT_DIR_TAG, SEARCH_RESULT_DIR_TAG, ROOT_DIR_TAG, OPDS_LIST_TAG,
    GENRES_TAG, AUTHORS_TAG, SERIES_TAG, RATING_TAG, STATE_TO_READ_TAG, STATE_READING_TAG,
    STATE_FINISHED_TAG, TITLE_TAG, SEARCH_SHORTCUT_TAG]

  /** One of the exact-match predicates holds. */
  predicate IsExactTagDir(pathname: Option<string>)
  {
    || IsRecentDir(pathname) || IsSearchDir(pathname) || IsRootDir(pathname) || IsOPDSRoot(pathname)
    || IsBooksByGenreRoot(pathname) || IsBooksByAuthorRoot(pathname) || IsBooksBySeriesRoot(pathname)
    || IsBooksByRatingRoot(pathname) || IsBooksByStateToReadRoot(pathname) || IsBooksByStateReadingRoot(pathname)
    || IsBooksByStateFinishedRoot(pathname) || IsBooksByTitleRoot(pathname) || IsSearchShortcut(pathname)
  }

  /**
   * Every exact-tag and prefix predicate implies `isSpecialDir`; the exact
   * sentinels are pairwise distinct, so at most one exact predicate holds.
   */
  lemma VirtualPathsAreSpecial(pathname: Option<string>, isDirectory: bool, tag: Tag)
    ensures IsExactTagDir(pathname) <==> pathname.Some? && pathname.value in EXACT_TAGS
    ensures IsExactTagDir(pathname) ==> IsSpecialDir(pathname)
    ensures (|| IsOnlineCatalogPluginDir(pathname) || IsBooksByGenreDir(pathname) || IsBooksByAuthorDir(pathname)
             || IsBooksBySeriesDir(pathname) || IsOPDSDir(pathname, tag) || IsOPDSBook(pathname, tag)
             || IsOnlineCatalogPluginBook(isDirectory, pathname, tag))
            ==> IsSpecialDir(pathname)
    ensures forall i, j :: 0 <= i < j < |EXACT_TAGS| ==> EXACT_TAGS[i] != EXACT_TAGS[j]
  {
  }

  /**
   * Prefix precedence: a group path is never taken for the leaf directory of
   * the same kind, the OPDS list root is not an OPDS directory, and the
   * search shortcut is not the search-results directory.
   */
  lemma PrefixPrecedence(rest: string, tag: Tag)
    ensures !IsBooksByGenreDir(Some(GENRES_GROUP_PREFIX + rest))
    ensures !IsBooksByAuthorDir(Some(AUTHOR_GROUP_PREFIX + rest))
    ensures !IsBooksBySeriesDir(Some(SERIES_GROUP_PREFIX + rest))
    ensures !IsOPDSDir(Some(OPDS_LIST_TAG), tag) && !IsOPDSBook(Some(OPDS_LIST_TAG), tag)
    ensures !IsSearchDir(Some(SEARCH_SHORTCUT_TAG))
  {
    assert (GENRES_GROUP_PREFIX + rest)[6] != GENRES_PREFIX[6];
    assert (AUTHOR_GROUP_PREFIX + rest)[7] != AUTHOR_PREFIX[7];
    assert (SERIES_GROUP_PREFIX + rest)[7] != SERIES_PREFIX[7];
  }

  /**
   * `allowSorting` in terms of the path kinds: a file never sorts, an ordinary
   * (non-`@`) directory always does, the root, recent, OPDS-directory and
   * series directories never do, and other virtual directories (an author
   * directory, the search results) still do.
   */
  lemma AllowSortingScope(isDirectory: bool, pathname: Option<string>, tag: Tag, rest: string)
    ensures !AllowSorting(false, pathname, tag)
    ensures !IsSpecialDir(pathname) ==> (AllowSorting(isDirectory, pathname, tag) <==> isDirectory)
    ensures !AllowSorting(isDirectory, Some(ROOT_DIR_TAG), tag) && !AllowSorting(isDirectory, Some(RECENT_DIR_TAG), tag)
    ensures !AllowSorting(isDirectory, Some(SERIES_PREFIX + rest), tag)
    ensures !tag.OPDSEntry? ==> !AllowSorting(isDirectory, Some(OPDS_DIR_PREFIX + rest), tag)
    ensures AllowSorting(true, Some(AUTHOR_PREFIX + rest), tag) && AllowSorting(true, Some(SEARCH_RESULT_DIR_TAG), tag)
  {
    assert (AUTHOR_PREFIX + rest)[1] != SERIES_PREFIX[1];
    assert (AUTHOR_PREFIX + rest)[1] != OPDS_DIR_PREFIX[1];
    assert (AUTHOR_PREFIX + rest) != ROOT_DIR_TAG by { assert (AUTHOR_PREFIX + rest)[1] != ROOT_DIR_TAG[1]; }
    assert (AUTHOR_PREFIX + rest) != RECENT_DIR_TAG by { assert (AUTHOR_PREFIX + rest)[1] != RECENT_DIR_TAG[1]; }
    assert !StartsWith(SEARCH_RESULT_DIR_TAG, SERIES_PREFIX) by { assert SEARCH_RESULT_DIR_TAG[3] != SERIES_PREFIX[3]; }
    assert !StartsWith(SEARCH_RESULT_DIR_TAG, OPDS_DIR_PREFIX) by { assert SEARCH_RESULT_DIR_TAG[1] != OPDS_DIR_PREFIX[1]; }
    assert (SERIES_PREFIX + rest)[..|SERIES_PREFIX|] == SERIES_PREFIX;
    assert (OPDS_DIR_PREFIX + rest)[..|OPDS_DIR_PREFIX|] == OPDS_DIR_PREFIX;
  }

  /**
   * Under the OPDS prefix exactly one of `isOPDSDir` / `isOPDSBook` holds, and
   * it is a book exactly when the payload is a feed entry with a best
   * acquisition link.
   */
  lemma OPDSDirOrBook(pathname: Option<string>, tag: Tag)
    requires HasPrefix(pathname, OPDS_DIR_PREFIX)
    ensures IsOPDSDir(pathname, tag) != IsOPDSBook(pathname, tag)
    ensures IsOPDSBook(pathname, tag) <==> tag == OPDSEntry(true)
  {
  }

  // ---------------------------------------------------------------------
  // Parameters of virtual paths.

  /** `getGenreCode`: the text after `"@genre:"`, or "" for any other path. */
  function GenreCode(pathname: Option<string>): (r: Result<string>)
    ensures pathname.None? <==> r == Throw(NullPointerException)
    ensures IsBooksByGenreDir(pathname) ==> r.Ok? && pathname.value == GENRES_PREFIX + r.value
    ensures pathname.Some? && !IsBooksByGenreDir(pathname) ==> r == Ok("")
  {
    if pathname.None? then Throw(NullPointerException)
    else if StartsWith(pathname.value, GENRES_PREFIX) then Ok(pathname.value[|GENRES_PREFIX|..])
    else Ok("")
  }

  /** `getOPDSUrl`: the text after `"@opds:"`, or null for any other path. */
  function OPDSUrl(pathname: Option<string>): (r: Result<Option<string>>)
    ensures pathname.None? <==> r == Throw(NullPointerException)
    ensures pathname.Some? ==> r.Ok? && (r.value.Some? <==> HasPrefix(pathname, OPDS_DIR_PREFIX))
    ensures r.Ok? && r.value.Some? ==> pathname.value == OPDS_DIR_PREFIX + r.value.value
  {
    if pathname.None? then Throw(NullPointerException)
    else if !StartsWith(pathname.value, OPDS_DIR_PREFIX) then Ok(None)
    else Ok(Some(pathname.value[|OPDS_DIR_PREFIX|..]))
  }

  /** `isHidden`: the path starts with a dot. */
  function IsHidden(pathname: Option<string>): (r: Result<bool>)
    ensures pathname.None? <==> r.Throw?
    ensures r.Ok? ==> (r.value <==> HasPrefix(pathname, "."))
  {
    if pathname.None? then Throw(NullPointerException) else Ok(StartsWith(pathname.value, "."))
  }

  /** `getOnlineCatalogPluginPackage`: after the plugin prefix, the text up to the first `':'` (all of it when there is none). */
  function PluginPackage(pathname: Option<string>): Result<Option<string>>
  {
    if pathname.None? then Throw(NullPointerException)
    else if !StartsWith(pathname.value, ONLINE_CATALOG_PLUGIN_PREFIX) then Ok(None)
    else
      var s := pathname.value[|ONLINE_CATALOG_PLUGIN_PREFIX|..];
      var p := IndexOf(s, ":");
      if p < 0 then Ok(Some(s)) else Ok(Some(s[..p]))
  }

  /** `getOnlineCatalogPluginPath`: after the plugin prefix, the text after the first `':'` (null when there is none). */
  function PluginPath(pathname: Option<string>): Result<Option<string>>
  {
    if pathname.None? then Throw(NullPointerException)
    else if !StartsWith(pathname.value, ONLINE_CATALOG_PLUGIN_PREFIX) then Ok(None)
    else
      var s := pathname.value[|ONLINE_CATALOG_PLUGIN_PREFIX|..];
      var p := IndexOf(s, ":");
      if p < 0 then Ok(None) else Ok(Some(s[p + 1..]))
  }

  /** `getOnlineCatalogPluginId`: the text of the plugin path after its first `'='` (null when there is none). */
  function PluginId(pathname: Option<string>): Result<Option<string>>
  {
    match PluginPath(pathname)
    case Throw(e) => Throw(e)
    case Ok(None) => Ok(None)
    case Ok(Some(s)) =>
      var p := IndexOf(s, "=");
      if p < 0 then Ok(None) else Ok(Some(s[p + 1..]))
  }

  /**
   * Plugin paths parse back into their parts: for a package name without
   * `':'`, `"@plugin:" + pkg + ":" + path` yields `pkg` and `path`.
   */
  lemma PluginPathParts(pkg: string, path: string)
    requires ':' !in pkg
    ensures PluginPackage(Some(ONLINE_CATALOG_PLUGIN_PREFIX + pkg + ":" + path)) == Ok(Some(pkg))
    ensures PluginPath(Some(ONLINE_CATALOG_PLUGIN_PREFIX + pkg + ":" + path)) == Ok(Some(path))
  {
    var full := ONLINE_CATALOG_PLUGIN_PREFIX + pkg + ":" + path;
    assert full[|ONLINE_CATALOG_PLUGIN_PREFIX|..] == pkg + [':'] + path;
    IndexOfCharAfter(pkg, ':', path);
    assert (pkg + [':'] + path)[..|pkg|] == pkg;
    assert (pkg + [':'] + path)[|pkg| + 1..] == path;
  }

  /** A plugin path without `':'` names only a package. */
  lemma PluginPackageOnly(pkg: string)
    requires ':' !in pkg
    ensures PluginPackage(Some(ONLINE_CATALOG_PLUGIN_PREFIX + pkg)) == Ok(Some(pkg))
    ensures PluginPath(Some(ONLINE_CATALOG_PLUGIN_PREFIX + pkg)) == Ok(None)
    ensures PluginId(Some(ONLINE_CATALOG_PLUGIN_PREFIX + pkg)) == Ok(None)
  {
    assert (ONLINE_CATALOG_PLUGIN_PREFIX + pkg)[|ONLINE_CATALOG_PLUGIN_PREFIX|..] == pkg;
    IndexOfCharAbsent(pkg, ':');
  }

  /** The id is the text after the first `'='` of the plugin path: with a key without `'='`, a path `key + "=" + id` yields the id. */
  lemma PluginIdPart(pkg: string, key: string, id: string)
    requires ':' !in pkg && '=' !in key
    ensures PluginId(Some(ONLINE_CATALOG_PLUGIN_PREFIX + pkg + ":" + key + "=" + id)) == Ok(Some(id))
  {
    var path := key + "=" + id;
    assert ONLINE_CATALOG_PLUGIN_PREFIX + pkg + ":" + key + "=" + id == ONLINE_CATALOG_PLUGIN_PREFIX + pkg + ":" + path;
    PluginPathParts(pkg, path);
    IndexOfCharAfter(key, '=', id);
    assert (key + ['='] + id)[|key| + 1..] == id;
  }

  /** Conversely, a package and a path parsed out of a plugin path rebuild it. */
  lemma PluginPathRebuild(pathname: Option<string>)
    requires PluginPath(pathname).Ok? && PluginPath(pathname).value.Some?
    ensures PluginPackage(pathname).Ok? && PluginPackage(pathname).value.Some?
    ensures pathname == Some(ONLINE_CATALOG_PLUGIN_PREFIX + PluginPackage(pathname).value.value + ":" + PluginPath(pathname).value.value)
    ensures ':' !in PluginPackage(pathname).value.value
  {
    var s := pathname.value[|ONLINE_CATALOG_PLUGIN_PREFIX|..];
    var p := IndexOf(s, ":");
    assert PluginPackage(pathname) == Ok(Some(s[..p]));
    assert PluginPath(pathname) == Ok(Some(s[p + 1..]));
    assert s[p..][..1] == ":";
    assert s == s[..p] + ":" + s[p + 1..];
    assert pathname.value == ONLINE_CATALOG_PLUGIN_PREFIX + s;
    assert ONLINE_CATALOG_PLUGIN_PREFIX + s == ONLINE_CATALOG_PLUGIN_PREFIX + s[..p] + ":" + s[p + 1..];
    forall j | 0 <= j < p
      ensures s[..p][j] != ':'
    {
      assert !OccursAt(s, ":", j);
      assert s[j..][..1] == [s[j]];
    }
  }
}
