/**
 * The plain data of a catalog entry and the two equality relations defined on it.
 *
 * `Props` holds exactly the fields that `FileInfo.assign` copies from one
 * entry to another; the container links (parent, children), the listing
 * marks and the payload live in the `Catalog.FileInfo` class.
 */
module Entry {
  import opened Wrappers
  import StateFlags

  /** Ordinal of a `DocumentFormat` enum constant (compared by identity). */
  type DocumentFormat = nat

  datatype Props = Props(
    id: Option<int>,                // database id
    title: Option<string>,
    authors: Option<string>,        // '|'-delimited
    series: Option<string>,         // series name without number
    seriesNumber: int,
    genres: Option<string>,         // '|'-delimited genre codes
    path: Option<string>,           // directory holding the file
    filename: Option<string>,
    pathname: Option<string>,       // full path, or member path inside an archive
    arcname: Option<string>,        // archive path, for archives and their members
    language: Option<string>,
    description: Option<string>,
    username: Option<string>,
    password: Option<string>,
    format: Option<DocumentFormat>,
    size: int,
    arcsize: int,
    createTime: int,
    lastAccessTime: int,
    flags: bv32,
    isArchive: bool,
    isDirectory: bool,
    crc32: int,
    domVersion: int,
    blockRenderingFlags: int)

  /** The fields of a fresh entry: all null, zero or false, except the two engine settings. */
  function Blank(domVersion: int, blockRenderingFlags: int): (p: Props)
    ensures p.domVersion == domVersion && p.blockRenderingFlags == blockRenderingFlags
    ensures p.flags == 0 && p.pathname.None? && p.arcname.None? && !p.isDirectory && !p.isArchive
  {
    Props(None, None, None, None, 0, None, None, None, None, None, None, None, None, None, None,
          0, 0, 0, 0, 0, false, false, 0, domVersion, blockRenderingFlags)
  }

  /** Java `s != null && s.length() > 0`. */
  predicate NonEmpty(s: Option<string>)
  {
    s.Some? && |s.value| > 0
  }

  /** A null string read as "". */
  function EmptyIfNull(s: Option<string>): string
  {
    if s.Some? then s.value else ""
  }

  /** `getSeriesNumber`: the series number counts only while the entry has a non-empty series. */
  function SeriesNumber(p: Props): (r: int)
    ensures NonEmpty(p.series) ==> r == p.seriesNumber
    ensures !NonEmpty(p.series) ==> r == 0
  {
    if p.series.Some? && |p.series.value| > 0 then p.seriesNumber else 0
  }

  /**
   * `getTitleOrFileName`: the title when present; "" when the entry has no
   * title but has authors or a series; otherwise the file name.
   */
  function TitleOrFileName(p: Props): (r: Option<string>)
    ensures NonEmpty(p.title) ==> r == p.title
    ensures !NonEmpty(p.title) && (NonEmpty(p.authors) || NonEmpty(p.series)) ==> r == Some("")
    ensures !NonEmpty(p.title) && !NonEmpty(p.authors) && !NonEmpty(p.series) ==> r == p.filename
  {
    if p.title != None && |p.title.value| > 0 then p.title
    else if p.authors != None && |p.authors.value| > 0 then Some("")
    else if p.series != None && |p.series.value| > 0 then Some("")
    else p.filename
  }

  /** `pathNameEquals`: same kind (directory or not), same archive path and same path. */
  predicate PathNameEquals(a: Props, b: Props)
  {
    a.isDirectory == b.isDirectory && a.arcname == b.arcname && a.pathname == b.pathname
  }

  /** The series comparison shared by `equals` and `baseEquals`, branch by branch. */
  predicate SeriesEq(x: Option<string>, y: Option<string>)
  {
    if x.None? then !(y.Some? && |y.value| != 0)
    else !(Some(x.value) != y && !(|x.value| == 0 && y.None?))
  }

  /** The series comparison is equality once a null series is read as the empty one. */
  lemma SeriesEqIff(x: Option<string>, y: Option<string>)
    ensures SeriesEq(x, y) <==> EmptyIfNull(x) == EmptyIfNull(y)
  {
  }

  /**
   * The field part of `equals`: every field it compares, in its order, except
   * the children lists, the listing marks and the parent. Genres, id,
   * username and password are not compared.
   */
  predicate FieldsEqual(a: Props, b: Props)
  {
    && a.arcname == b.arcname
    && a.arcsize == b.arcsize
    && a.authors == b.authors
    && a.createTime == b.createTime
    && a.filename == b.filename
    && a.flags == b.flags
    && a.format == b.format
    && a.isArchive == b.isArchive
    && a.isDirectory == b.isDirectory
    && a.language == b.language
    && a.description == b.description
    && a.lastAccessTime == b.lastAccessTime
    && a.path == b.path
    && a.pathname == b.pathname
    && SeriesEq(a.series, b.series)
    && a.seriesNumber == b.seriesNumber
    && a.size == b.size
    && a.title == b.title
    && a.domVersion == b.domVersion
    && a.blockRenderingFlags == b.blockRenderingFlags
    && a.crc32 == b.crc32
  }

  /** The entry with the fields `equals` ignores blanked and a null series read as empty. */
  function EqualityKey(p: Props): Props
  {
    p.(id := None, genres := None, username := None, password := None, series := Some(EmptyIfNull(p.series)))
  }

  /** `FieldsEqual` is equality of the keys, hence an equivalence relation. */
  lemma FieldsEqualIff(a: Props, b: Props)
    ensures FieldsEqual(a, b) <==> EqualityKey(a) == EqualityKey(b)
  {
    SeriesEqIff(a.series, b.series);
  }

  /**
   * `baseEquals` as written: the fingerprint comparison, which dereferences
   * the other entry's authors when this entry's authors are null, so two
   * distinct entries with equal compressed sizes and null authors throw.
   */
  function BaseEquals(a: Props, b: Props): Result<bool>
  {
    if a.arcsize != b.arcsize then Ok(false)
    else if a.authors.None? && b.authors.None? then Throw(NullPointerException)
    else if a.authors.None? && |b.authors.value| > 0 then Ok(false)
    else if a.authors.Some? && !(a.authors == b.authors || (|a.authors.value| == 0 && b.authors.None?)) then Ok(false)
    else if a.filename != b.filename then Ok(false)
    else if a.format != b.format then Ok(false)
    else if a.isArchive != b.isArchive then Ok(false)
    else if a.isDirectory != b.isDirectory then Ok(false)
    else if a.language != b.language then Ok(false)
    else if a.description != b.description then Ok(false)
    else if !SeriesEq(a.series, b.series) then Ok(false)
    else if a.seriesNumber != b.seriesNumber then Ok(false)
    else if a.size != b.size then Ok(false)
    else if a.title != b.title then Ok(false)
    else Ok(a.crc32 == b.crc32)
  }

  /** The fields `baseEquals` compares, with null authors and null series read as empty. */
  datatype Fingerprint = Fingerprint(
    arcsize: int, authors: string, filename: Option<string>, format: Option<DocumentFormat>,
    isArchive: bool, isDirectory: bool, language: Option<string>, description: Option<string>,
    series: string, seriesNumber: int, size: int, title: Option<string>, crc32: int)

  function FingerprintOf(p: Props): Fingerprint
  {
    Fingerprint(p.arcsize, EmptyIfNull(p.authors), p.filename, p.format, p.isArchive, p.isDirectory,
                p.language, p.description, EmptyIfNull(p.series), p.seriesNumber, p.size, p.title, p.crc32)
  }

  /**
   * `baseEquals` as evidently intended: a null `authors` on either side
   * matches null or empty on the other, without dereferencing null.
   */
  predicate BaseEqualsIntended(a: Props, b: Props)
  {
    && a.arcsize == b.arcsize
    && EmptyIfNull(a.authors) == EmptyIfNull(b.authors)
    && a.filename == b.filename
    && a.format == b.format
    && a.isArchive == b.isArchive
    && a.isDirectory == b.isDirectory
    && a.language == b.language
    && a.description == b.description
    && SeriesEq(a.series, b.series)
    && a.seriesNumber == b.seriesNumber
    && a.size == b.size
    && a.title == b.title
    && a.crc32 == b.crc32
  }

  /**
   * As written, `baseEquals` throws exactly when the compressed sizes agree and
   * both authors are null; otherwise it answers whether the fingerprints agree.
   */
  lemma BaseEqualsThrowsOnNullAuthors(a: Props, b: Props)
    ensures BaseEquals(a, b).Throw? <==> a.arcsize == b.arcsize && a.authors.None? && b.authors.None?
    ensures BaseEquals(a, b).Ok? ==> (BaseEquals(a, b).value <==> FingerprintOf(a) == FingerprintOf(b))
  {
    SeriesEqIff(a.series, b.series);
  }

  /** The corrected relation is fingerprint equality, so it is an equivalence and never fails. */
  lemma BaseEqualsIntendedIff(a: Props, b: Props)
    ensures BaseEqualsIntended(a, b) <==> FingerprintOf(a) == FingerprintOf(b)
    ensures BaseEquals(a, b).Ok? ==> BaseEquals(a, b).value == BaseEqualsIntended(a, b)
  {
    SeriesEqIff(a.series, b.series);
    BaseEqualsThrowsOnNullAuthors(a, b);
  }

  /** `baseEquals` gives the same answer (or the same exception) with its arguments swapped. */
  lemma BaseEqualsSymmetric(a: Props, b: Props)
    ensures BaseEquals(a, b) == BaseEquals(b, a)
  {
    BaseEqualsThrowsOnNullAuthors(a, b);
    BaseEqualsThrowsOnNullAuthors(b, a);
  }

  /** Neither relation looks at genres (nor at id, username or password). */
  lemma EqualityIgnoresGenres(a: Props, b: Props, genres: Option<string>, id: Option<int>, username: Option<string>, password: Option<string>)
    ensures FieldsEqual(a.(genres := genres, id := id, username := username, password := password), b) == FieldsEqual(a, b)
    ensures BaseEquals(a.(genres := genres, id := id, username := username, password := password), b) == BaseEquals(a, b)
    ensures BaseEqualsIntended(a.(genres := genres, id := id, username := username, password := password), b) == BaseEqualsIntended(a, b)
  {
  }

  /** Both relations treat a null series and an empty series as the same series. */
  lemma NullSeriesIsEmptySeries(p: Props)
    ensures FieldsEqual(p.(series := None), p.(series := Some("")))
    ensures BaseEquals(p.(series := None), p.(series := Some(""))) == if p.authors.None? then Throw(NullPointerException) else Ok(true)
    ensures BaseEqualsIntended(p.(series := None), p.(series := Some("")))
  {
  }

  /**
   * An entry that differs from another only in its state word or its
   * timestamps is not `equals` to it, but is `baseEquals` to it (when the
   * latter does not throw).
   */
  lemma StateAndTimesOnlyBreakEquals(p: Props, flags: bv32, createTime: int, lastAccessTime: int)
    requires (flags, createTime, lastAccessTime) != (p.flags, p.createTime, p.lastAccessTime)
    ensures !FieldsEqual(p, p.(flags := flags, createTime := createTime, lastAccessTime := lastAccessTime))
    ensures BaseEquals(p, p.(flags := flags, createTime := createTime, lastAccessTime := lastAccessTime))
            == if p.authors.None? then Throw(NullPointerException) else Ok(true)
    ensures BaseEqualsIntended(p, p.(flags := flags, createTime := createTime, lastAccessTime := lastAccessTime))
  {
  }

  /**
   * Changing the reading state (or the rate) of an entry to a different value
   * breaks `equals` with its former self, and keeps the fingerprint.
   */
  lemma NewReadingStateBreaksEquals(p: Props, f: StateFlags.Field, value: bv32)
    requires StateFlags.Get(p.flags, f) != value & StateFlags.Mask(f)
    ensures !FieldsEqual(p, p.(flags := StateFlags.Set(p.flags, f, value)))
    ensures FingerprintOf(p) == FingerprintOf(p.(flags := StateFlags.Set(p.flags, f, value)))
  {
    StateFlags.SetChangesIff(p.flags, f, value);
  }

  /** Whatever `equals` accepts, `baseEquals` does not reject. */
  lemma FieldsEqualImpliesBaseEquals(a: Props, b: Props)
    requires FieldsEqual(a, b)
    ensures BaseEqualsIntended(a, b)
    ensures BaseEquals(a, b) == if a.authors.None? then Throw(NullPointerException) else Ok(true)
  {
  }

  // ---------------------------------------------------------------------
  // Properties copied by `setFileProperties`.

  /**
   * The entry `p` after `setFileProperties(q)`: title, authors and series
   * name from `q`, the series number as `q` reports it, then the reading
   * state and the rate from `q`'s state word.
   */
  function WithFileProperties(p: Props, q: Props): Props
  {
    var f1 := StateFlags.Set(p.flags, StateFlags.ReadingState, StateFlags.Get(q.flags, StateFlags.ReadingState));
    var f2 := StateFlags.Set(f1, StateFlags.Rate, StateFlags.Get(q.flags, StateFlags.Rate));
    p.(title := q.title, authors := q.authors, series := q.series, seriesNumber := SeriesNumber(q), flags := f2)
  }

  /**
   * What `setFileProperties(q)` copies: the six properties then read as they
   * do in `q`, while every other property, the other two state fields and
   * the document flags keep their values.
   */
  lemma WithFilePropertiesCopies(p: Props, q: Props)
    ensures var r := WithFileProperties(p, q);
      && r.title == q.title && r.authors == q.authors && r.series == q.series
      && r.seriesNumber == SeriesNumber(q)
      && StateFlags.Get(r.flags, StateFlags.ReadingState) == StateFlags.Get(q.flags, StateFlags.ReadingState)
      && StateFlags.Get(r.flags, StateFlags.Rate) == StateFlags.Get(q.flags, StateFlags.Rate)
      && StateFlags.Get(r.flags, StateFlags.InfoType) == StateFlags.Get(p.flags, StateFlags.InfoType)
      && StateFlags.Get(r.flags, StateFlags.ProfileId) == StateFlags.Get(p.flags, StateFlags.ProfileId)
      && r.flags & StateFlags.DOCUMENT_FLAG_BITS == p.flags & StateFlags.DOCUMENT_FLAG_BITS
      && r.(title := p.title, authors := p.authors, series := p.series, seriesNumber := p.seriesNumber, flags := p.flags) == p
  {
    var rs := StateFlags.Get(q.flags, StateFlags.ReadingState);
    var rate := StateFlags.Get(q.flags, StateFlags.Rate);
    var f1 := StateFlags.Set(p.flags, StateFlags.ReadingState, rs);
    StateFlags.GetAfterSet(p.flags, StateFlags.ReadingState, rs);
    StateFlags.GetIsMasked(q.flags, StateFlags.ReadingState);
    StateFlags.GetIsMasked(q.flags, StateFlags.Rate);
    StateFlags.GetAfterSet(f1, StateFlags.Rate, rate);
    StateFlags.SetKeepsOtherFields(f1, StateFlags.Rate, rate, StateFlags.ReadingState);
    StateFlags.SetKeepsOtherFields(p.flags, StateFlags.ReadingState, rs, StateFlags.InfoType);
    StateFlags.SetKeepsOtherFields(f1, StateFlags.Rate, rate, StateFlags.InfoType);
    StateFlags.SetKeepsOtherFields(p.flags, StateFlags.ReadingState, rs, StateFlags.ProfileId);
    StateFlags.SetKeepsOtherFields(f1, StateFlags.Rate, rate, StateFlags.ProfileId);
    StateFlags.SetKeepsOtherBits(p.flags, StateFlags.ReadingState, rs);
    StateFlags.SetKeepsOtherBits(f1, StateFlags.Rate, rate);
  }

  /** Copying the same file's properties twice changes nothing the second time. */
  lemma WithFilePropertiesIdempotent(p: Props, q: Props)
    ensures WithFileProperties(WithFileProperties(p, q), q) == WithFileProperties(p, q)
  {
    var r := WithFileProperties(p, q);
    var rs := StateFlags.Get(q.flags, StateFlags.ReadingState);
    var rate := StateFlags.Get(q.flags, StateFlags.Rate);
    StateFlags.SetChangesIff(r.flags, StateFlags.ReadingState, rs);
    StateFlags.GetIsMasked(q.flags, StateFlags.ReadingState);
    StateFlags.GetIsMasked(q.flags, StateFlags.Rate);
    StateFlags.SetChangesIff(r.flags, StateFlags.Rate, rate);
  }

  /**
   * `setFileProperties` reports a change exactly when one of the copied
   * properties differed: title, authors, series name, series number, reading
   * state or rate.
   */
  lemma WithFilePropertiesChanges(p: Props, q: Props)
    ensures WithFileProperties(p, q) != p <==>
      || p.title != q.title || p.authors != q.authors || p.series != q.series
      || p.seriesNumber != SeriesNumber(q)
      || StateFlags.Get(p.flags, StateFlags.ReadingState) != StateFlags.Get(q.flags, StateFlags.ReadingState)
      || StateFlags.Get(p.flags, StateFlags.Rate) != StateFlags.Get(q.flags, StateFlags.Rate)
  {
    var rs := StateFlags.Get(q.flags, StateFlags.ReadingState);
    var rate := StateFlags.Get(q.flags, StateFlags.Rate);
    StateFlags.GetIsMasked(q.flags, StateFlags.ReadingState);
    StateFlags.GetIsMasked(q.flags, StateFlags.Rate);
    StateFlags.SetChangesIff(p.flags, StateFlags.ReadingState, rs);
    var f1 := StateFlags.Set(p.flags, StateFlags.ReadingState, rs);
    StateFlags.SetKeepsOtherFields(p.flags, StateFlags.ReadingState, rs, StateFlags.Rate);
    StateFlags.SetChangesIff(f1, StateFlags.Rate, rate);
  }
}
