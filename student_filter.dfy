/** student/specification/StudentSpecification: the JPA Specification the student list
    query is filtered by, as a predicate on one stored Student. SQL's lower() is the
    ASCII lower-casing of the model, and LIKE '%term%' a substring test. */
module StudentFilter {
  import opened Wrappers
  import opened Text
  import opened StudentModel

  /** The four optional query parameters. */
  datatype Filters = Filters(search: Option<string>, courseName: Option<string>,
                             academicYear: Option<int>, status: Option<StudentStatus>)

  const NO_FILTERS: Filters := Filters(None, None, None, None)

  /** Integer.shortValue(): the low 16 bits as a signed number. */
  function ShortValue(n: int): (r: int)
    ensures -32768 <= r <= 32767
    ensures (r - n) % 65536 == 0
  {
    (n + 32768) % 65536 - 32768
  }

  /** lower(column) LIKE '%term%'; a null column never matches. */
  predicate LikeLower(column: Option<string>, term: string)
  {
    column.Some? && Contains(ToLower(column.value), term)
  }

  /** search: no constraint when null or blank; otherwise its trimmed lower-cased text
      must occur in one of five columns. */
  predicate SearchMatches(search: Option<string>, s: StudentRecord)
  {
    search.None? || IsBlank(search.value) ||
      var term := ToLower(Trim(search.value));
      LikeLower(s.firstName, term) || LikeLower(s.lastName, term) || LikeLower(s.email, term)
      || LikeLower(s.studentCode, term) || LikeLower(s.major, term)
  }

  /** courseNameEquals: lower(courseName) = the trimmed lower-cased filter. */
  predicate CourseMatches(courseName: Option<string>, s: StudentRecord)
  {
    courseName.None? || IsBlank(courseName.value) ||
      (s.courseName.Some? && ToLower(s.courseName.value) == ToLower(Trim(courseName.value)))
  }

  predicate YearMatches(academicYear: Option<int>, s: StudentRecord)
  {
    academicYear.None? || s.academicYear == Some(ShortValue(academicYear.value))
  }

  predicate StatusMatches(status: Option<StudentStatus>, s: StudentRecord)
  {
    status.None? || s.status == status
  }

  /** withFilters: Specification.where(search).and(course).and(year).and(status). */
  predicate WithFilters(f: Filters, s: StudentRecord)
  {
    SearchMatches(f.search, s) && CourseMatches(f.courseName, s)
    && YearMatches(f.academicYear, s) && StatusMatches(f.status, s)
  }

  /** The rows of a store the filter keeps, in store order. */
  function Select(f: Filters, rows: seq<StudentRecord>): (r: seq<StudentRecord>)
    ensures |r| <= |rows|
    ensures forall s :: s in r <==> s in rows && WithFilters(f, s)
  {
    if rows == [] then []
    else (if WithFilters(f, rows[0]) then [rows[0]] else []) + Select(f, rows[1..])
  }

  // ---- properties ----

  /** No parameter given: every student matches. */
  lemma NoFiltersMatchAll(s: StudentRecord)
    ensures WithFilters(NO_FILTERS, s)
  {
  }

  /** A blank search or course parameter is the same as leaving it out. */
  lemma BlankIsAbsent(f: Filters, s: StudentRecord)
    ensures f.search.Some? && IsBlank(f.search.value) ==>
      (WithFilters(f, s) <==> WithFilters(f.(search := None), s))
    ensures f.courseName.Some? && IsBlank(f.courseName.value) ==>
      (WithFilters(f, s) <==> WithFilters(f.(courseName := None), s))
  {
  }

  /** Filters only narrow: setting a parameter that was absent never adds a match. */
  lemma ExtraFilterNarrows(f: Filters, s: StudentRecord, search: string, courseName: string,
                           year: int, status: StudentStatus)
    ensures f.search.None? && WithFilters(f.(search := Some(search)), s) ==> WithFilters(f, s)
    ensures f.courseName.None? && WithFilters(f.(courseName := Some(courseName)), s) ==> WithFilters(f, s)
    ensures f.academicYear.None? && WithFilters(f.(academicYear := Some(year)), s) ==> WithFilters(f, s)
    ensures f.status.None? && WithFilters(f.(status := Some(status)), s) ==> WithFilters(f, s)
  {
  }

  /** The search ignores the case of its parameter. */
  lemma SearchIgnoresCase(search: string, s: StudentRecord)
    ensures SearchMatches(Some(ToUpper(search)), s) <==> SearchMatches(Some(search), s)
  {
    ToUpperBlank(search);
    TrimCommutesWithCase(search);
    LowerOfUpper(Trim(search));
  }

  /** The course filter matches the stored course whatever the case of either side;
      only the parameter is trimmed. */
  lemma CourseIgnoresCase(course: string, s: StudentRecord)
    requires !IsBlank(course) && s.courseName.Some?
    ensures CourseMatches(Some(course), s) <==> EqualsIgnoreCase(s.courseName.value, Trim(course))
  {
  }

  /** A year filter outside the 16-bit range wraps: 65537 selects year 1. */
  lemma YearFilterWraps(s: StudentRecord)
    requires s.academicYear == Some(1)
    ensures YearMatches(Some(65537), s)
  {
  }

  lemma {:induction false} ToUpperBlank(s: string)
    ensures IsBlank(ToUpper(s)) <==> IsBlank(s)
  {
    if s != [] {
      ToUpperBlank(s[1..]);
      assert ToUpper(s)[1..] == ToUpper(s[1..]);
    }
  }

  lemma {:induction false} LowerOfUpper(s: string)
    ensures ToLower(ToUpper(s)) == ToLower(s)
  {
    if s != [] {
      LowerOfUpper(s[1..]);
      assert ToUpper(s)[1..] == ToUpper(s[1..]);
    }
  }
}
