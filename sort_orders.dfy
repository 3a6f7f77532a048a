/**
 * The eight sort orders of a directory listing and their comparators.
 *
 * A comparator sees, of each entry, only the fields gathered in `SortKey`.
 * `Utils.cmp` (the library's string comparison, which is not part of this
 * model) is stood in for by `StrCmp`: null first, then lexicographic by
 * character code. `Utils.formatAuthors` is a function parameter.
 */
module SortOrders {
  import opened Wrappers
  import Entry

  datatype SortOrder =
    | FileName | FileNameDesc
    | Timestamp | TimestampDesc
    | AuthorTitle | AuthorTitleDesc
    | TitleAuthor | TitleAuthorDesc

  /** `SortOrder.values()`, in declaration order. */
  const VALUES: seq<SortOrder> := [FileName, FileNameDesc, Timestamp, TimestampDesc,
    AuthorTitle, AuthorTitleDesc, TitleAuthor, TitleAuthorDesc]

  /** `DEF_SORT_ORDER`. */
  const DEF_SORT_ORDER: SortOrder := AuthorTitle

  /** `order.name()`: the Java constant's name. */
  function Name(order: SortOrder): string
  {
    match order
    case FileName => "FILENAME"
    case FileNameDesc => "FILENAME_DESC"
    case Timestamp => "TIMESTAMP"
    case TimestampDesc => "TIMESTAMP_DESC"
    case AuthorTitle => "AUTHOR_TITLE"
    case AuthorTitleDesc => "AUTHOR_TITLE_DESC"
    case TitleAuthor => "TITLE_AUTHOR"
    case TitleAuthorDesc => "TITLE_AUTHOR_DESC"
  }

  /** Every order is listed once in `VALUES`, and names tell orders apart. */
  lemma NamesAreDistinct(a: SortOrder, b: SortOrder)
    ensures a in VALUES
    ensures Name(a) == Name(b) ==> a == b
  {
  }

  /** `fromName`: the order with the given name, `AUTHOR_TITLE` for null or an unknown name. */
  method FromName(name: Option<string>) returns (order: SortOrder)
    ensures forall o :: name == Some(Name(o)) ==> order == o
    ensures (forall o :: name != Some(Name(o))) ==> order == DEF_SORT_ORDER
  {
    if name.Some? {
      var i := 0;
      while i < |VALUES|
        invariant 0 <= i <= |VALUES|
        invariant forall j :: 0 <= j < i ==> name.value != Name(VALUES[j])
      {
        if Name(VALUES[i]) == name.value {
          order := VALUES[i];
          forall o | name == Some(Name(o))
            ensures order == o
          {
            NamesAreDistinct(o, order);
          }
          return;
        }
        i := i + 1;
      }
      forall o
        ensures name != Some(Name(o))
      {
        NamesAreDistinct(o, o);
      }
    }
    order := DEF_SORT_ORDER;
  }

  // ---------------------------------------------------------------------
  // What a comparator reads of an entry.

  datatype SortKey = SortKey(
    displayName: Option<string>,   // getFileNameToDisplay()
    createTime: int,
    filename: Option<string>,
    authors: Option<string>,
    series: Option<string>,
    seriesNumber: int,             // getSeriesNumber()
    title: Option<string>)

  /** `new File(path).getName()`: the text after the last `'/'`. */
  function BaseName(path: string): (r: string)
    ensures '/' !in r
    ensures |r| <= |path| && r <= path[|path| - |r|..]
    ensures |r| < |path| ==> path[|path| - |r| - 1] == '/'
  {
    if path == [] then ""
    else if path[|path| - 1] == '/' then ""
    else
      var r := BaseName(path[..|path| - 1]);
      assert path[..|path| - 1][|path| - 1 - |r|..] + [path[|path| - 1]] == path[|path| - |r| - 1..];
      r + [path[|path| - 1]]
  }

  /**
   * `getFileNameToDisplay`: for an archive whose parent is a directory that is
   * not itself an archive, the archive's own file name; otherwise `filename`.
   * `parentIsArchive` is null when the entry has no parent.
   */
  function DisplayName(p: Entry.Props, parentIsArchive: Option<bool>): (r: Option<string>)
    ensures p.isArchive && parentIsArchive == Some(false) && p.arcname.Some? ==> r == Some(BaseName(p.arcname.value))
    ensures !(p.isArchive && parentIsArchive == Some(false) && p.arcname.Some?) ==> r == p.filename
  {
    var isSingleFileArchive := p.isArchive && parentIsArchive.Some? && !parentIsArchive.value && p.arcname.Some?;
    if isSingleFileArchive then Some(BaseName(p.arcname.value)) else p.filename
  }

  function KeyOf(p: Entry.Props, parentIsArchive: Option<bool>): SortKey
  {
    SortKey(DisplayName(p, parentIsArchive), p.createTime, p.filename, p.authors, p.series, Entry.SeriesNumber(p), p.title)
  }

  // ---------------------------------------------------------------------
  // Component comparisons.

  /** Lexicographic comparison of two strings by character code: -1, 0 or 1. */
  function Lex(s: string, t: string): (r: int)
    ensures -1 <= r <= 1
  {
    if s == [] && t == [] then 0
    else if s == [] then -1
    else if t == [] then 1
    else if s[0] < t[0] then -1
    else if s[0] > t[0] then 1
    else Lex(s[1..], t[1..])
  }

  /** Stand-in for `Utils.cmp`: null before any string, then `Lex`. */
  function StrCmp(a: Option<string>, b: Option<string>): (r: int)
    ensures -1 <= r <= 1
  {
    if a.None? && b.None? then 0
    else if a.None? then -1
    else if b.None? then 1
    else Lex(a.value, b.value)
  }

  /** `cmpNotNullFirst`: like `StrCmp`, but a null string sorts after every non-null one. */
  function CmpNotNullFirst(a: Option<string>, b: Option<string>): (r: int)
    ensures -1 <= r <= 1
    ensures a.None? && b.Some? ==> r == 1
    ensures a.Some? && b.None? ==> r == -1
  {
    if a.None? && b.None? then 0
    else if a.None? then 1
    else if b.None? then -1
    else StrCmp(a, b)
  }

  /** `cmp(long, long)`: -1, 0 or 1 by numeric order. */
  function Cmp(n1: int, n2: int): (r: int)
    ensures r < 0 <==> n1 < n2
    ensures r > 0 <==> n1 > n2
  {
    if n1 < n2 then -1 else if n1 > n2 then 1 else 0
  }

  /** The first non-zero value of `v`, or 0 when all are zero. */
  function FirstNonZero(v: seq<int>): (r: int)
    ensures r == 0 <==> forall i :: 0 <= i < |v| ==> v[i] == 0
    ensures r != 0 ==> r in v
  {
    if v == [] then 0
    else if v[0] != 0 then v[0]
    else
      assert forall i :: 1 <= i < |v| ==> v[i] == v[1..][i - 1];
      FirstNonZero(v[1..])
  }

  /** `firstNz`: the loop that scans for the first non-zero comparison result. */
  method FirstNz(v: seq<int>) returns (r: int)
    ensures r == FirstNonZero(v)
  {
    var i := 0;
    while i < |v|
      invariant 0 <= i <= |v|
      invariant forall j :: 0 <= j < i ==> v[j] == 0
    {
      if v[i] != 0 {
        FirstNonZeroAt(v, i);
        return v[i];
      }
      i := i + 1;
    }
    return 0;
  }

  /** Behind a prefix of zeros, the first non-zero value is the first one met. */
  lemma {:induction false} FirstNonZeroAt(v: seq<int>, i: nat)
    requires i < |v| && v[i] != 0
    requires forall j :: 0 <= j < i ==> v[j] == 0
    ensures FirstNonZero(v) == v[i]
  {
    if i > 0 {
      FirstNonZeroAt(v[1..], i - 1);
    }
  }

  // ---------------------------------------------------------------------
  // The comparators.

  /** The comparator of `order`, on possibly null entries. */
  function Compare(order: SortOrder, f1: Option<SortKey>, f2: Option<SortKey>, formatAuthors: Option<string> -> Option<string>): int
  {
    if f1.None? || f2.None? then 0
    else
      var a, b := f1.value, f2.value;
      match order
      case FileName => StrCmp(a.displayName, b.displayName)
      case FileNameDesc => StrCmp(b.displayName, a.displayName)
      case Timestamp => FirstNonZero([Cmp(a.createTime, b.createTime), StrCmp(a.filename, b.filename)])
      case TimestampDesc => FirstNonZero([Cmp(b.createTime, a.createTime), StrCmp(b.filename, a.filename)])
      case AuthorTitle => FirstNonZero([
          CmpNotNullFirst(formatAuthors(a.authors), formatAuthors(b.authors)),
          CmpNotNullFirst(a.series, b.series),
          Cmp(a.seriesNumber, b.seriesNumber),
          CmpNotNullFirst(a.title, b.title),
          StrCmp(a.filename, b.filename)])
      case AuthorTitleDesc => FirstNonZero([
          CmpNotNullFirst(formatAuthors(b.authors), formatAuthors(a.authors)),
          CmpNotNullFirst(b.series, a.series),
          Cmp(b.seriesNumber, a.seriesNumber),
          CmpNotNullFirst(b.title, a.title),
          StrCmp(b.filename, a.filename)])
      case TitleAuthor => FirstNonZero([
          CmpNotNullFirst(a.series, b.series),
          Cmp(a.seriesNumber, b.seriesNumber),
          CmpNotNullFirst(a.title, b.title),
          CmpNotNullFirst(formatAuthors(a.authors), formatAuthors(b.authors)),
          StrCmp(a.filename, b.filename)])
      case TitleAuthorDesc => FirstNonZero([
          CmpNotNullFirst(b.series, a.series),
          Cmp(b.seriesNumber, a.seriesNumber),
          CmpNotNullFirst(b.title, a.title),
          CmpNotNullFirst(formatAuthors(b.authors), formatAuthors(a.authors)),
          StrCmp(b.filename, a.filename)])
  }

  /** The ascending order a descending one reverses. */
  function Ascending(order: SortOrder): SortOrder
  {
    match order
    case FileNameDesc => FileName
    case TimestampDesc => Timestamp
    case AuthorTitleDesc => AuthorTitle
    case TitleAuthorDesc => TitleAuthor
    case _ => order
  }

  predicate IsDescending(order: SortOrder)
  {
    order.FileNameDesc? || order.TimestampDesc? || order.AuthorTitleDesc? || order.TitleAuthorDesc?
  }

  /** Each `*_DESC` comparator is its ascending counterpart with the arguments swapped. */
  lemma DescIsSwappedAsc(order: SortOrder, f1: Option<SortKey>, f2: Option<SortKey>, formatAuthors: Option<string> -> Option<string>)
    requires IsDescending(order)
    ensures Compare(order, f1, f2, formatAuthors) == Compare(Ascending(order), f2, f1, formatAuthors)
  {
  }

  /** Every comparator answers 0 when either argument is null. */
  lemma NullComparesZero(order: SortOrder, f: Option<SortKey>, formatAuthors: Option<string> -> Option<string>)
    ensures Compare(order, None, f, formatAuthors) == 0
    ensures Compare(order, f, None, formatAuthors) == 0
  {
  }

  // ---------------------------------------------------------------------
  // The comparators are total preorders.

  lemma {:induction false} LexReflexive(s: string)
    ensures Lex(s, s) == 0
  {
    if s != [] {
      LexReflexive(s[1..]);
    }
  }

  lemma {:induction false} LexAntisymmetric(s: string, t: string)
    ensures Lex(s, t) == -Lex(t, s)
    ensures Lex(s, t) == 0 ==> s == t
  {
    if s != [] && t != [] && s[0] == t[0] {
      LexAntisymmetric(s[1..], t[1..]);
      assert s == [s[0]] + s[1..] && t == [t[0]] + t[1..];
    }
  }

  /**
   * The sign pattern a total preorder gives three pairwise comparisons:
   * `u` compares a with b, `v` b with c, `w` a with c.
   */
  predicate Consistent(u: int, v: int, w: int)
  {
    && (u <= 0 && v <= 0 ==> w <= 0)
    && (u < 0 && v <= 0 ==> w < 0)
    && (u <= 0 && v < 0 ==> w < 0)
    && (u == 0 && v == 0 ==> w == 0)
  }

  lemma {:induction false} LexTransitive(a: string, b: string, c: string)
    ensures Consistent(Lex(a, b), Lex(b, c), Lex(a, c))
  {
    if a != [] && b != [] && c != [] && a[0] == b[0] && b[0] == c[0] {
      LexTransitive(a[1..], b[1..], c[1..]);
    }
    if a != [] && b != [] && a[0] == b[0] {
      LexAntisymmetric(a[1..], b[1..]);
    }
    if b != [] && c != [] && b[0] == c[0] {
      LexAntisymmetric(b[1..], c[1..]);
    }
    if Lex(a, b) == 0 {
      LexAntisymmetric(a, b);
    }
    if Lex(b, c) == 0 {
      LexAntisymmetric(b, c);
    }
  }

  lemma StrCmpReflexive(a: Option<string>)
    ensures StrCmp(a, a) == 0 && CmpNotNullFirst(a, a) == 0
  {
    if a.Some? {
      LexReflexive(a.value);
    }
  }

  lemma StrCmpAntisymmetric(a: Option<string>, b: Option<string>)
    ensures StrCmp(a, b) == -StrCmp(b, a)
    ensures CmpNotNullFirst(a, b) == -CmpNotNullFirst(b, a)
  {
    if a.Some? && b.Some? {
      LexAntisymmetric(a.value, b.value);
    }
  }

  lemma StrCmpTransitive(a: Option<string>, b: Option<string>, c: Option<string>)
    ensures Consistent(StrCmp(a, b), StrCmp(b, c), StrCmp(a, c))
    ensures Consistent(CmpNotNullFirst(a, b), CmpNotNullFirst(b, c), CmpNotNullFirst(a, c))
  {
    if a.Some? && b.Some? && c.Some? {
      LexTransitive(a.value, b.value, c.value);
    }
    if a.Some? && b.Some? {
      LexAntisymmetric(a.value, b.value);
    }
    if b.Some? && c.Some? {
      LexAntisymmetric(b.value, c.value);
    }
  }

  /** Lexicographic combination keeps the preorder pattern. */
  lemma {:induction false} FirstNonZeroConsistent(u: seq<int>, v: seq<int>, w: seq<int>)
    requires |u| == |v| == |w|
    requires forall i :: 0 <= i < |u| ==> Consistent(u[i], v[i], w[i])
    ensures Consistent(FirstNonZero(u), FirstNonZero(v), FirstNonZero(w))
  {
    if u != [] && u[0] == 0 && v[0] == 0 {
      assert w[0] == 0;
      assert forall i :: 0 <= i < |u| - 1 ==> u[1..][i] == u[i + 1] && v[1..][i] == v[i + 1] && w[1..][i] == w[i + 1];
      FirstNonZeroConsistent(u[1..], v[1..], w[1..]);
    }
  }

  /** Negating every component negates the first non-zero one. */
  lemma {:induction false} FirstNonZeroNegated(u: seq<int>, v: seq<int>)
    requires |u| == |v|
    requires forall i :: 0 <= i < |u| ==> u[i] == -v[i]
    ensures FirstNonZero(u) == -FirstNonZero(v)
  {
    if u != [] && u[0] == 0 {
      FirstNonZeroNegated(u[1..], v[1..]);
    }
  }

  /**
   * The comparison results an ascending comparator combines with `firstNz`,
   * in order; a descending comparator combines the same list for the swapped
   * arguments.
   */
  function Components(order: SortOrder, a: SortKey, b: SortKey, formatAuthors: Option<string> -> Option<string>): seq<int>
  {
    match Ascending(order)
    case Timestamp => [Cmp(a.createTime, b.createTime), StrCmp(a.filename, b.filename)]
    case AuthorTitle => [
        CmpNotNullFirst(formatAuthors(a.authors), formatAuthors(b.authors)),
        CmpNotNullFirst(a.series, b.series),
        Cmp(a.seriesNumber, b.seriesNumber),
        CmpNotNullFirst(a.title, b.title),
        StrCmp(a.filename, b.filename)]
    case TitleAuthor => [
        CmpNotNullFirst(a.series, b.series),
        Cmp(a.seriesNumber, b.seriesNumber),
        CmpNotNullFirst(a.title, b.title),
        CmpNotNullFirst(formatAuthors(a.authors), formatAuthors(b.authors)),
        StrCmp(a.filename, b.filename)]
    case _ => [StrCmp(a.displayName, b.displayName)]
  }

  /** Every comparator is `firstNz` over its components, taken in swapped order for a descending one. */
  lemma CompareIsFirstNonZero(order: SortOrder, a: SortKey, b: SortKey, formatAuthors: Option<string> -> Option<string>)
    ensures Compare(order, Some(a), Some(b), formatAuthors)
            == FirstNonZero(if IsDescending(order) then Components(order, b, a, formatAuthors) else Components(order, a, b, formatAuthors))
  {
    var v := if IsDescending(order) then Components(order, b, a, formatAuthors) else Components(order, a, b, formatAuthors);
    if Ascending(order) == FileName {
      assert v[1..] == [];
    }
  }

  /**
   * Ascending orders put an entry without a series after one with a series
   * (other keys before it being equal), descending orders put it first.
   */
  lemma NullSeriesPlacement(a: SortKey, b: SortKey, formatAuthors: Option<string> -> Option<string>)
    requires a.series.Some? && b.series.None?
    ensures Compare(TitleAuthor, Some(a), Some(b), formatAuthors) < 0
    ensures Compare(TitleAuthorDesc, Some(a), Some(b), formatAuthors) > 0
    ensures formatAuthors(a.authors) == formatAuthors(b.authors) ==> Compare(AuthorTitle, Some(a), Some(b), formatAuthors) < 0
    ensures formatAuthors(a.authors) == formatAuthors(b.authors) ==> Compare(AuthorTitleDesc, Some(a), Some(b), formatAuthors) > 0
  {
    CompareIsFirstNonZero(TitleAuthor, a, b, formatAuthors);
    FirstNonZeroAt(Components(TitleAuthor, a, b, formatAuthors), 0);
    CompareIsFirstNonZero(TitleAuthorDesc, a, b, formatAuthors);
    FirstNonZeroAt(Components(TitleAuthorDesc, b, a, formatAuthors), 0);
    if formatAuthors(a.authors) == formatAuthors(b.authors) {
      StrCmpReflexive(formatAuthors(a.authors));
      CompareIsFirstNonZero(AuthorTitle, a, b, formatAuthors);
      FirstNonZeroAt(Components(AuthorTitle, a, b, formatAuthors), 1);
      CompareIsFirstNonZero(AuthorTitleDesc, a, b, formatAuthors);
      FirstNonZeroAt(Components(AuthorTitleDesc, b, a, formatAuthors), 1);
    }
  }

  /** The decisive component of a missing title, once series and series number agree. */
  lemma NullTitleComponents(a: SortKey, b: SortKey, formatAuthors: Option<string> -> Option<string>)
    requires a.title.Some? && b.title.None?
    requires a.series == b.series && a.seriesNumber == b.seriesNumber
    ensures FirstNonZero(Components(TitleAuthor, a, b, formatAuthors)) == -1
    ensures FirstNonZero(Components(TitleAuthor, b, a, formatAuthors)) == 1
  {
    StrCmpReflexive(a.series);
    FirstNonZeroAt(Components(TitleAuthor, a, b, formatAuthors), 2);
    FirstNonZeroAt(Components(TitleAuthor, b, a, formatAuthors), 2);
  }

  /** The decisive component of a missing title in the author orders, once the authors agree too. */
  lemma NullTitleAuthorComponents(a: SortKey, b: SortKey, formatAuthors: Option<string> -> Option<string>)
    requires a.title.Some? && b.title.None?
    requires a.series == b.series && a.seriesNumber == b.seriesNumber
    requires formatAuthors(a.authors) == formatAuthors(b.authors)
    ensures FirstNonZero(Components(AuthorTitle, a, b, formatAuthors)) == -1
    ensures FirstNonZero(Components(AuthorTitle, b, a, formatAuthors)) == 1
  {
    StrCmpReflexive(a.series);
    StrCmpReflexive(formatAuthors(a.authors));
    FirstNonZeroAt(Components(AuthorTitle, a, b, formatAuthors), 3);
    FirstNonZeroAt(Components(AuthorTitle, b, a, formatAuthors), 3);
  }

  /** Likewise for a missing title, once series and series number agree (and, for the author orders, the authors). */
  lemma NullTitlePlacement(a: SortKey, b: SortKey, formatAuthors: Option<string> -> Option<string>)
    requires a.title.Some? && b.title.None?
    requires a.series == b.series && a.seriesNumber == b.seriesNumber
    ensures Compare(TitleAuthor, Some(a), Some(b), formatAuthors) < 0
    ensures Compare(TitleAuthorDesc, Some(a), Some(b), formatAuthors) > 0
    ensures formatAuthors(a.authors) == formatAuthors(b.authors) ==> Compare(AuthorTitle, Some(a), Some(b), formatAuthors) < 0
    ensures formatAuthors(a.authors) == formatAuthors(b.authors) ==> Compare(AuthorTitleDesc, Some(a), Some(b), formatAuthors) > 0
  {
    NullTitleComponents(a, b, formatAuthors);
    CompareIsFirstNonZero(TitleAuthor, a, b, formatAuthors);
    CompareIsFirstNonZero(TitleAuthorDesc, a, b, formatAuthors);
    if formatAuthors(a.authors) == formatAuthors(b.authors) {
      NullTitleAuthorComponents(a, b, formatAuthors);
      CompareIsFirstNonZero(AuthorTitle, a, b, formatAuthors);
      CompareIsFirstNonZero(AuthorTitleDesc, a, b, formatAuthors);
    }
  }

  /** Swapping the arguments negates every component. */
  lemma ComponentsAntisymmetric(order: SortOrder, a: SortKey, b: SortKey, formatAuthors: Option<string> -> Option<string>)
    ensures |Components(order, a, b, formatAuthors)| == |Components(order, b, a, formatAuthors)|
    ensures forall i :: 0 <= i < |Components(order, a, b, formatAuthors)| ==>
              Components(order, a, b, formatAuthors)[i] == -Components(order, b, a, formatAuthors)[i]
  {
    match Ascending(order)
    case Timestamp =>
      StrCmpAntisymmetric(a.filename, b.filename);
    case AuthorTitle =>
      StrCmpAntisymmetric(a.filename, b.filename);
      StrCmpAntisymmetric(formatAuthors(a.authors), formatAuthors(b.authors));
      StrCmpAntisymmetric(a.series, b.series);
      StrCmpAntisymmetric(a.title, b.title);
    case TitleAuthor =>
      StrCmpAntisymmetric(a.filename, b.filename);
      StrCmpAntisymmetric(formatAuthors(a.authors), formatAuthors(b.authors));
      StrCmpAntisymmetric(a.series, b.series);
      StrCmpAntisymmetric(a.title, b.title);
    case _ =>
      StrCmpAntisymmetric(a.displayName, b.displayName);
  }

  /** Each component of the author-first orders is a total preorder on its own. */
  lemma AuthorTitleComponentsConsistent(a: SortKey, b: SortKey, c: SortKey, formatAuthors: Option<string> -> Option<string>)
    ensures var u, v, w := Components(AuthorTitle, a, b, formatAuthors), Components(AuthorTitle, b, c, formatAuthors), Components(AuthorTitle, a, c, formatAuthors);
      |u| == |v| == |w| == 5 && forall i :: 0 <= i < 5 ==> Consistent(u[i], v[i], w[i])
  {
    var u, v, w := Components(AuthorTitle, a, b, formatAuthors), Components(AuthorTitle, b, c, formatAuthors), Components(AuthorTitle, a, c, formatAuthors);
    forall i | 0 <= i < 5
      ensures Consistent(u[i], v[i], w[i])
    {
      if i == 0 {
        StrCmpTransitive(formatAuthors(a.authors), formatAuthors(b.authors), formatAuthors(c.authors));
      } else if i == 1 {
        StrCmpTransitive(a.series, b.series, c.series);
      } else if i == 3 {
        StrCmpTransitive(a.title, b.title, c.title);
      } else if i == 4 {
        StrCmpTransitive(a.filename, b.filename, c.filename);
      }
    }
  }

  /** Each component of the title-first orders is a total preorder on its own. */
  lemma TitleAuthorComponentsConsistent(a: SortKey, b: SortKey, c: SortKey, formatAuthors: Option<string> -> Option<string>)
    ensures var u, v, w := Components(TitleAuthor, a, b, formatAuthors), Components(TitleAuthor, b, c, formatAuthors), Components(TitleAuthor, a, c, formatAuthors);
      |u| == |v| == |w| == 5 && forall i :: 0 <= i < 5 ==> Consistent(u[i], v[i], w[i])
  {
    var u, v, w := Components(TitleAuthor, a, b, formatAuthors), Components(TitleAuthor, b, c, formatAuthors), Components(TitleAuthor, a, c, formatAuthors);
    forall i | 0 <= i < 5
      ensures Consistent(u[i], v[i], w[i])
    {
      if i == 0 {
        StrCmpTransitive(a.series, b.series, c.series);
      } else if i == 2 {
        StrCmpTransitive(a.title, b.title, c.title);
      } else if i == 3 {
        StrCmpTransitive(formatAuthors(a.authors), formatAuthors(b.authors), formatAuthors(c.authors));
      } else if i == 4 {
        StrCmpTransitive(a.filename, b.filename, c.filename);
      }
    }
  }

  /** Each component is a total preorder on its own. */
  lemma ComponentsConsistent(order: SortOrder, a: SortKey, b: SortKey, c: SortKey, formatAuthors: Option<string> -> Option<string>)
    ensures |Components(order, a, b, formatAuthors)| == |Components(order, b, c, formatAuthors)| == |Components(order, a, c, formatAuthors)|
    ensures forall i :: 0 <= i < |Components(order, a, b, formatAuthors)| ==>
              Consistent(Components(order, a, b, formatAuthors)[i], Components(order, b, c, formatAuthors)[i], Components(order, a, c, formatAuthors)[i])
  {
    match Ascending(order)
    case Timestamp =>
      StrCmpTransitive(a.filename, b.filename, c.filename);
    case AuthorTitle =>
      AuthorTitleComponentsConsistent(a, b, c, formatAuthors);
      assert Components(order, a, b, formatAuthors) == Components(AuthorTitle, a, b, formatAuthors);
      assert Components(order, b, c, formatAuthors) == Components(AuthorTitle, b, c, formatAuthors);
      assert Components(order, a, c, formatAuthors) == Components(AuthorTitle, a, c, formatAuthors);
    case TitleAuthor =>
      TitleAuthorComponentsConsistent(a, b, c, formatAuthors);
      assert Components(order, a, b, formatAuthors) == Components(TitleAuthor, a, b, formatAuthors);
      assert Components(order, b, c, formatAuthors) == Components(TitleAuthor, b, c, formatAuthors);
      assert Components(order, a, c, formatAuthors) == Components(TitleAuthor, a, c, formatAuthors);
    case _ =>
      StrCmpTransitive(a.displayName, b.displayName, c.displayName);
  }

  /** Swapping the arguments of a comparator negates its answer. */
  lemma CompareAntisymmetric(order: SortOrder, a: SortKey, b: SortKey, formatAuthors: Option<string> -> Option<string>)
    ensures Compare(order, Some(a), Some(b), formatAuthors) == -Compare(order, Some(b), Some(a), formatAuthors)
  {
    CompareIsFirstNonZero(order, a, b, formatAuthors);
    CompareIsFirstNonZero(order, b, a, formatAuthors);
    ComponentsAntisymmetric(order, a, b, formatAuthors);
    FirstNonZeroNegated(Components(order, a, b, formatAuthors), Components(order, b, a, formatAuthors));
  }

  /** Every comparator is transitive on non-null entries, strictness carried through. */
  lemma CompareTransitive(order: SortOrder, a: SortKey, b: SortKey, c: SortKey, formatAuthors: Option<string> -> Option<string>)
    ensures Consistent(Compare(order, Some(a), Some(b), formatAuthors), Compare(order, Some(b), Some(c), formatAuthors),
                       Compare(order, Some(a), Some(c), formatAuthors))
  {
    CompareIsFirstNonZero(order, a, b, formatAuthors);
    CompareIsFirstNonZero(order, b, c, formatAuthors);
    CompareIsFirstNonZero(order, a, c, formatAuthors);
    if IsDescending(order) {
      ComponentsConsistent(order, c, b, a, formatAuthors);
      FirstNonZeroConsistent(Components(order, c, b, formatAuthors), Components(order, b, a, formatAuthors), Components(order, c, a, formatAuthors));
    } else {
      ComponentsConsistent(order, a, b, c, formatAuthors);
      FirstNonZeroConsistent(Components(order, a, b, formatAuthors), Components(order, b, c, formatAuthors), Components(order, a, c, formatAuthors));
    }
  }

  // ---------------------------------------------------------------------
  // Sorting a list of entries by a comparator.

  /** The comparator of `order` on non-null entries. */
  function Comparator(order: SortOrder, formatAuthors: Option<string> -> Option<string>): (SortKey, SortKey) -> int
  {
    (a, b) => Compare(order, Some(a), Some(b), formatAuthors)
  }

  /** What `Collections.sort` demands of a comparator: sign-antisymmetric and transitive. */
  ghost predicate TotalPreorder(cmp: (SortKey, SortKey) -> int)
  {
    && (forall a, b :: cmp(a, b) == -cmp(b, a))
    && (forall a, b, c :: cmp(a, b) <= 0 && cmp(b, c) <= 0 ==> cmp(a, c) <= 0)
  }

  /** Every sort order's comparator meets that demand. */
  lemma ComparatorIsTotalPreorder(order: SortOrder, formatAuthors: Option<string> -> Option<string>)
    ensures TotalPreorder(Comparator(order, formatAuthors))
  {
    var cmp := Comparator(order, formatAuthors);
    forall a, b
      ensures cmp(a, b) == -cmp(b, a)
    {
      CompareAntisymmetric(order, a, b, formatAuthors);
    }
    forall a, b, c | cmp(a, b) <= 0 && cmp(b, c) <= 0
      ensures cmp(a, c) <= 0
    {
      CompareTransitive(order, a, b, c, formatAuthors);
    }
  }

  /** `s` is in non-decreasing order under `cmp`, each element compared through its key. */
  predicate SortedBy<T(==)>(cmp: (SortKey, SortKey) -> int, s: seq<T>, keys: map<T, SortKey>)
  {
    && (forall x :: x in s ==> x in keys)
    && (forall i, j :: 0 <= i < j < |s| ==> cmp(keys[s[i]], keys[s[j]]) <= 0)
  }

  /** Inserts `x` into `s` behind every element that does not compare greater than it. */
  function Insert<T(==)>(cmp: (SortKey, SortKey) -> int, x: T, s: seq<T>, keys: map<T, SortKey>): (r: seq<T>)
    requires x in keys && forall y :: y in s ==> y in keys
    ensures multiset(r) == multiset(s) + multiset{x}
    ensures forall y :: y in r ==> y == x || y in s
  {
    if s == [] then [x]
    else if cmp(keys[x], keys[s[0]]) < 0 then [x] + s
    else
      assert s == [s[0]] + s[1..];
      [s[0]] + Insert(cmp, x, s[1..], keys)
  }

  /** A sorted list stays sorted with an element in front that compares at most equal to all of it. */
  lemma PrependSorted<T>(cmp: (SortKey, SortKey) -> int, x: T, s: seq<T>, keys: map<T, SortKey>)
    requires x in keys && SortedBy(cmp, s, keys)
    requires forall y :: y in s ==> cmp(keys[x], keys[y]) <= 0
    ensures SortedBy(cmp, [x] + s, keys)
  {
    var r := [x] + s;
    forall i, j | 0 <= i < j < |r|
      ensures cmp(keys[r[i]], keys[r[j]]) <= 0
    {
      assert r[j] == s[j - 1];
      if i > 0 {
        assert r[i] == s[i - 1];
      }
    }
  }

  /** Insertion keeps a sorted list sorted. */
  lemma {:induction false} InsertSorted<T>(cmp: (SortKey, SortKey) -> int, x: T, s: seq<T>, keys: map<T, SortKey>)
    requires TotalPreorder(cmp)
    requires x in keys && SortedBy(cmp, s, keys)
    ensures SortedBy(cmp, Insert(cmp, x, s, keys), keys)
  {
    if s != [] {
      var kx, k0 := keys[x], keys[s[0]];
      if cmp(kx, k0) < 0 {
        forall y | y in s
          ensures cmp(kx, keys[y]) <= 0
        {
          var j :| 0 <= j < |s| && s[j] == y;
          if j > 0 {
            assert cmp(k0, keys[s[j]]) <= 0;
          }
        }
        PrependSorted(cmp, x, s, keys);
      } else {
        var tail := s[1..];
        assert SortedBy(cmp, tail, keys) by {
          forall i, j | 0 <= i < j < |tail|
            ensures cmp(keys[tail[i]], keys[tail[j]]) <= 0
          {
            assert tail[i] == s[i + 1] && tail[j] == s[j + 1];
          }
        }
        InsertSorted(cmp, x, tail, keys);
        var ins := Insert(cmp, x, tail, keys);
        assert cmp(k0, kx) <= 0 by {
          assert cmp(kx, k0) == -cmp(k0, kx);
        }
        forall y | y in ins
          ensures cmp(k0, keys[y]) <= 0
        {
          if y != x {
            var j :| 0 <= j < |tail| && tail[j] == y;
            assert s[j + 1] == y;
          }
        }
        PrependSorted(cmp, s[0], ins, keys);
      }
    }
  }

  /**
   * The sort the listing uses (stand-in for the library's `Collections.sort`):
   * a permutation of its input, built by inserting each element in turn.
   */
  function SortBy<T(==)>(cmp: (SortKey, SortKey) -> int, s: seq<T>, keys: map<T, SortKey>): (r: seq<T>)
    requires forall y :: y in s ==> y in keys
    ensures multiset(r) == multiset(s)
    ensures forall y :: y in r ==> y in keys
  {
    if s == [] then []
    else
      assert s == s[..|s| - 1] + [s[|s| - 1]];
      Insert(cmp, s[|s| - 1], SortBy(cmp, s[..|s| - 1], keys), keys)
  }

  /** Under a total preorder the sort's result is sorted. */
  lemma {:induction false} SortBySorted<T>(cmp: (SortKey, SortKey) -> int, s: seq<T>, keys: map<T, SortKey>)
    requires TotalPreorder(cmp)
    requires forall y :: y in s ==> y in keys
    ensures SortedBy(cmp, SortBy(cmp, s, keys), keys)
  {
    if s != [] {
      var init := s[..|s| - 1];
      assert forall y :: y in init ==> y in s;
      SortBySorted(cmp, init, keys);
      InsertSorted(cmp, s[|s| - 1], SortBy(cmp, init, keys), keys);
    }
  }
}
