/** student/service/StudentService: create, read, update and delete of students over a
    repository keyed by the generated id, the normalisations applied before storing,
    the date rule, and the sort parameters of the list query. Every error is raised
    before the first write, so the @Transactional rollback never has anything to undo. */
module StudentService {
  import opened Wrappers
  import opened Text
  import opened Errors
  import opened StudentModel
  import opened StudentRequestRules
  import opened StudentFilter

  // ---- the list query's sort parameters ----

  const DEFAULT_SORT_COLUMN: string := "createdAt"

  const ALLOWED_SORT_COLUMNS: set<string> := {
    "id", "studentCode", "firstName", "lastName", "email", "courseName",
    "academicYear", "enrollmentDate", "gpa", "status", "createdAt", "updatedAt"}

  /** sanitizeSortBy: the requested column when it is allowed, createdAt otherwise. */
  function SanitizeSortBy(sortBy: Option<string>): (r: string)
    ensures r in ALLOWED_SORT_COLUMNS
    ensures sortBy.Some? && sortBy.value in ALLOWED_SORT_COLUMNS ==> r == sortBy.value
    ensures !(sortBy.Some? && sortBy.value in ALLOWED_SORT_COLUMNS) ==> r == DEFAULT_SORT_COLUMN
  {
    assert sortBy.Some? && sortBy.value in ALLOWED_SORT_COLUMNS ==> !IsBlank(sortBy.value) by {
      if sortBy.Some? && sortBy.value in ALLOWED_SORT_COLUMNS {
        AllowedColumnsNotBlank(sortBy.value);
      }
    }
    if sortBy.None? || IsBlank(sortBy.value) then DEFAULT_SORT_COLUMN
    else if sortBy.value in ALLOWED_SORT_COLUMNS then sortBy.value else DEFAULT_SORT_COLUMN
  }

  /** No allowed column is blank, so the blank test in sanitizeSortBy changes nothing. */
  lemma AllowedColumnsNotBlank(c: string)
    requires c in ALLOWED_SORT_COLUMNS
    ensures !IsBlank(c)
  {
    assert !IsJavaWhitespace(c[0]);
  }

  /** Sanitising twice is sanitising once. */
  lemma SanitizeIdempotent(sortBy: Option<string>)
    ensures SanitizeSortBy(Some(SanitizeSortBy(sortBy))) == SanitizeSortBy(sortBy)
  {
  }

  datatype Direction = ASC | DESC

  /** "asc".equalsIgnoreCase(sortDirection) ? ASC : DESC. */
  function SortDirection(sortDirection: Option<string>): Direction
  {
    if sortDirection.Some? && EqualsIgnoreCase("asc", sortDirection.value) then ASC else DESC
  }

  /** ASC exactly for the three-letter word asc in any case; null, padding or any other
      word gives DESC. */
  lemma SortDirectionIff(sortDirection: Option<string>)
    ensures SortDirection(sortDirection) == ASC <==>
      sortDirection.Some? && |sortDirection.value| == 3
      && LowerChar(sortDirection.value[0]) == 'a' && LowerChar(sortDirection.value[1]) == 's'
      && LowerChar(sortDirection.value[2]) == 'c'
  {
    if sortDirection.Some? && |sortDirection.value| == 3
      && LowerChar(sortDirection.value[0]) == 'a' && LowerChar(sortDirection.value[1]) == 's'
      && LowerChar(sortDirection.value[2]) == 'c' {
      assert ToLower(sortDirection.value) == "asc";
    }
  }

  // ---- normalisation ----

  /** normalizeCode: studentCode.trim().toUpperCase(). */
  function NormalizeCode(code: string): string
  {
    ToUpper(Trim(code))
  }

  lemma NormalizeCodeIdempotent(code: string)
    ensures NormalizeCode(NormalizeCode(code)) == NormalizeCode(code)
  {
    TrimCommutesWithCase(Trim(code));
    TrimIdempotent(code);
    ToUpperIdempotent(Trim(code));
  }

  /** Codes that differ only in case or surrounding blanks normalise alike. */
  lemma NormalizeCodeIgnoresCase(a: string, b: string)
    requires ToUpper(Trim(a)) == ToUpper(Trim(b))
    ensures NormalizeCode(a) == NormalizeCode(b)
  {
  }

  /** trimToNull: null stays null, a string that trims to nothing becomes null, anything
      else is trimmed. */
  function TrimToNull(v: Option<string>): (r: Option<string>)
    ensures r.None? <==> v.None? || Trim(v.value) == []
    ensures r.Some? ==> r.value == Trim(v.value) && r.value != []
  {
    if v.None? then None
    else
      var trimmed := Trim(v.value);
      if trimmed == [] then None else Some(trimmed)
  }

  lemma TrimToNullIdempotent(v: Option<string>)
    ensures TrimToNull(TrimToNull(v)) == TrimToNull(v)
  {
    if v.Some? {
      TrimIdempotent(v.value);
    }
  }

  const GRADUATION_MESSAGE: string := "Expected graduation date cannot be earlier than enrollment date"

  /** validateBusinessRules. LocalDate.isBefore(null) throws, so a graduation date
      without an enrollment date is an unexpected error. */
  function DateRule(enrollmentDate: Option<int>, expectedGraduationDate: Option<int>): Result<(), ApiException>
  {
    if expectedGraduationDate.None? then Ok(())
    else if enrollmentDate.None? then Err(Unexpected("NullPointerException"))
    else if expectedGraduationDate.value < enrollmentDate.value then Err(BadRequest(GRADUATION_MESSAGE))
    else Ok(())
  }

  /** With an enrollment date, the rule rejects exactly a graduation date strictly before
      it, with a 400; equal dates pass. */
  lemma DateRuleIff(enrollment: int, graduation: Option<int>)
    ensures DateRule(Some(enrollment), graduation).Err? <==> graduation.Some? && graduation.value < enrollment
    ensures DateRule(Some(enrollment), graduation).Err? ==>
      DateRule(Some(enrollment), graduation).error == BadRequest(GRADUATION_MESSAGE)
    ensures DateRule(Some(enrollment), Some(enrollment)) == Ok(())
  {
  }

  // ---- the entity written from a request ----

  /** The fields applyCreateData and applyUpdateData dereference or the table requires:
      the controller's @Valid guarantees them (ValidHasRequired). */
  predicate Complete(f: StudentForm)
  {
    f.studentCode.Some? && f.firstName.Some? && f.lastName.Some? && f.email.Some?
    && f.courseName.Some? && f.academicYear.Some? && f.enrollmentDate.Some? && f.status.Some?
  }

  /** applyCreateData / applyUpdateData: every column but id and the timestamps is
      overwritten from the request. */
  function Applied(s: StudentRecord, f: StudentForm, email: string, code: string): (r: StudentRecord)
    requires Complete(f)
    ensures r.id == s.id && r.createdAt == s.createdAt && r.updatedAt == s.updatedAt
    ensures r.email == Some(email) && r.studentCode == Some(code)
  {
    s.(studentCode := Some(code),
       firstName := Some(Trim(f.firstName.value)),
       lastName := Some(Trim(f.lastName.value)),
       email := Some(email),
       phone := TrimToNull(f.phone),
       dateOfBirth := f.dateOfBirth,
       gender := f.gender,
       addressLine1 := TrimToNull(f.addressLine1),
       addressLine2 := TrimToNull(f.addressLine2),
       city := TrimToNull(f.city),
       state := TrimToNull(f.state),
       postalCode := TrimToNull(f.postalCode),
       country := TrimToNull(f.country),
       emergencyContactName := TrimToNull(f.emergencyContactName),
       emergencyContactPhone := TrimToNull(f.emergencyContactPhone),
       emergencyContactRelation := TrimToNull(f.emergencyContactRelation),
       courseName := Some(Trim(f.courseName.value)),
       major := TrimToNull(f.major),
       academicYear := Some(ShortValue(f.academicYear.value)),
       enrollmentDate := f.enrollmentDate,
       expectedGraduationDate := f.expectedGraduationDate,
       gpa := f.gpa,
       creditsCompleted := f.creditsCompleted,
       status := f.status,
       notes := TrimToNull(f.notes))
  }

  /** An optional text column holds null or a non-empty trimmed string. */
  predicate TidyText(v: Option<string>)
  {
    v.None? || (v.value != [] && Trim(v.value) == v.value)
  }

  /** What is stored never depends on the id or timestamps of the old row, and every
      optional text column is tidy. */
  lemma AppliedIsTidy(s: StudentRecord, f: StudentForm, email: string, code: string)
    requires Complete(f)
    ensures var r := Applied(s, f, email, code);
      TidyText(r.phone) && TidyText(r.addressLine1) && TidyText(r.addressLine2) && TidyText(r.city)
      && TidyText(r.state) && TidyText(r.postalCode) && TidyText(r.country)
      && TidyText(r.emergencyContactName) && TidyText(r.emergencyContactPhone)
      && TidyText(r.emergencyContactRelation) && TidyText(r.major) && TidyText(r.notes)
  {
    TrimToNullTidy(f.phone);
    TrimToNullTidy(f.addressLine1);
    TrimToNullTidy(f.addressLine2);
    TrimToNullTidy(f.city);
    TrimToNullTidy(f.state);
    TrimToNullTidy(f.postalCode);
    TrimToNullTidy(f.country);
    TrimToNullTidy(f.emergencyContactName);
    TrimToNullTidy(f.emergencyContactPhone);
    TrimToNullTidy(f.emergencyContactRelation);
    TrimToNullTidy(f.major);
    TrimToNullTidy(f.notes);
  }

  lemma TrimToNullTidy(v: Option<string>)
    ensures TidyText(TrimToNull(v))
  {
    if v.Some? {
      TrimIdempotent(v.value);
    }
  }

  // ---- the repository ----

  /** existsByEmail / existsByEmailAndIdNot (except = the id to skip). */
  predicate EmailTaken(rows: map<int, StudentRecord>, email: string, except: Option<int>)
  {
    exists id :: id in rows && Some(id) != except && rows[id].email == Some(email)
  }

  /** existsByStudentCode / existsByStudentCodeAndIdNot. */
  predicate CodeTaken(rows: map<int, StudentRecord>, code: string, except: Option<int>)
  {
    exists id :: id in rows && Some(id) != except && rows[id].studentCode == Some(code)
  }

  /** Rows are keyed by their own id, below the next generated id, and no two share an
      e-mail or a code. */
  predicate StoreValid(rows: map<int, StudentRecord>, nextId: int)
  {
    && (forall id :: id in rows ==> id < nextId && rows[id].id == Some(id))
    && (forall i, j :: i in rows && j in rows && i != j && rows[i].email.Some? ==> rows[i].email != rows[j].email)
    && (forall i, j :: i in rows && j in rows && i != j && rows[i].studentCode.Some? ==>
          rows[i].studentCode != rows[j].studentCode)
  }

  class StudentRepository {
    var rows: map<int, StudentRecord>
    var nextId: int

    constructor ()
      ensures rows == map[] && nextId == 1
    {
      rows := map[];
      nextId := 1;
    }

    function ExistsByEmail(email: string, except: Option<int>): (b: bool)
      reads this
      ensures b <==> EmailTaken(rows, email, except)
    {
      exists id :: id in rows && Some(id) != except && rows[id].email == Some(email)
    }

    function ExistsByStudentCode(code: string, except: Option<int>): (b: bool)
      reads this
      ensures b <==> CodeTaken(rows, code, except)
    {
      exists id :: id in rows && Some(id) != except && rows[id].studentCode == Some(code)
    }

    /** findById: a managed entity loaded from the row. */
    method FindById(id: int) returns (s: Option<Student>)
      ensures s.Some? <==> id in rows
      ensures s.Some? ==> fresh(s.value) && s.value.Snapshot() == rows[id]
    {
      if id in rows {
        var student := new Student.Of(rows[id]);
        return Some(student);
      }
      return None;
    }

    /** save of a new entity: IDENTITY generation inserts at once, running @PrePersist. */
    method Insert(student: Student, now: int) returns (saved: StudentRecord)
      modifies this, student
      ensures saved == Persisted(old(student.Snapshot()).(id := Some(old(nextId))), now)
      ensures rows == old(rows)[old(nextId) := saved] && nextId == old(nextId) + 1
    {
      student.SetId(Some(nextId));
      student.PrePersist(now);
      saved := student.Snapshot();
      rows := rows[nextId := saved];
      nextId := nextId + 1;
    }

    /** The flush at commit of a changed managed entity, running @PreUpdate. */
    method Flush(student: Student, id: int, now: int)
      modifies this, student
      ensures rows == old(rows)[id := Touched(old(student.Snapshot()), now)] && nextId == old(nextId)
    {
      student.PreUpdate(now);
      rows := rows[id := student.Snapshot()];
    }

    method DeleteById(id: int)
      modifies this
      ensures rows == old(rows) - {id} && nextId == old(nextId)
    {
      rows := rows - {id};
    }
  }

  // ---- the operations, as functions of the store ----

  const EMAIL_CONFLICT: string := "A student with this email already exists"
  const CODE_CONFLICT: string := "A student with this student code already exists"

  function NotFoundMessage(id: int): string
  {
    "Student not found with id: " + IntToString(id)
  }

  datatype Outcome<T> = Outcome(result: Result<T, ApiException>, rows: map<int, StudentRecord>, nextId: int)

  /** The row create inserts: the request applied to a new entity, the generated id,
      then @PrePersist. */
  function NewRow(f: StudentForm, id: int, now: int): (s: StudentRecord)
    requires Complete(f)
    ensures s.id == Some(id) && s.createdAt == s.updatedAt == Some(now)
    ensures s.email == Some(NormalizeEmail(f.email.value)) && s.studentCode == Some(NormalizeCode(f.studentCode.value))
  {
    Persisted(Applied(EMPTY_STUDENT, f, NormalizeEmail(f.email.value), NormalizeCode(f.studentCode.value)).(id := Some(id)), now)
  }

  /** The row update leaves in the entity before the flush. */
  function UpdatedRow(s: StudentRecord, f: StudentForm): (r: StudentRecord)
    requires Complete(f)
    ensures r.id == s.id && r.createdAt == s.createdAt && r.updatedAt == s.updatedAt
    ensures r.email == Some(NormalizeEmail(f.email.value)) && r.studentCode == Some(NormalizeCode(f.studentCode.value))
  {
    Applied(s, f, NormalizeEmail(f.email.value), NormalizeCode(f.studentCode.value))
  }

  function CreateSpec(rows: map<int, StudentRecord>, nextId: int, f: StudentForm, now: int): Outcome<StudentRecord>
    requires Complete(f)
  {
    if EmailTaken(rows, NormalizeEmail(f.email.value), None) then Outcome(Err(Conflict(EMAIL_CONFLICT)), rows, nextId)
    else if CodeTaken(rows, NormalizeCode(f.studentCode.value), None) then Outcome(Err(Conflict(CODE_CONFLICT)), rows, nextId)
    else match DateRule(f.enrollmentDate, f.expectedGraduationDate)
      case Err(e) => Outcome(Err(e), rows, nextId)
      case Ok(_) =>
        var saved := NewRow(f, nextId, now);
        Outcome(Ok(saved), rows[nextId := saved], nextId + 1)
  }

  /** Past the three checks, create inserts NewRow under the next id. */
  lemma CreateAccepted(rows: map<int, StudentRecord>, nextId: int, f: StudentForm, now: int)
    requires Complete(f)
    requires !EmailTaken(rows, NormalizeEmail(f.email.value), None)
    requires !CodeTaken(rows, NormalizeCode(f.studentCode.value), None)
    requires DateRule(f.enrollmentDate, f.expectedGraduationDate).Ok?
    ensures CreateSpec(rows, nextId, f, now)
      == Outcome(Ok(NewRow(f, nextId, now)), rows[nextId := NewRow(f, nextId, now)], nextId + 1)
  {
  }

  function GetByIdSpec(rows: map<int, StudentRecord>, id: int): (r: Result<StudentRecord, ApiException>)
    ensures r.Ok? <==> id in rows
    ensures r.Ok? ==> r.value == rows[id]
    ensures r.Err? ==> r.error == NotFound(NotFoundMessage(id))
  {
    if id in rows then Ok(rows[id]) else Err(NotFound(NotFoundMessage(id)))
  }

  /** The response is built from the entity before the commit's flush, so it still
      carries the previous updatedAt; the stored row carries the new one. */
  function UpdateSpec(rows: map<int, StudentRecord>, id: int, f: StudentForm, now: int): Outcome<StudentRecord>
    requires Complete(f)
  {
    if id !in rows then Outcome(Err(NotFound(NotFoundMessage(id))), rows, 0)
    else if EmailTaken(rows, NormalizeEmail(f.email.value), Some(id)) then Outcome(Err(Conflict(EMAIL_CONFLICT)), rows, 0)
    else if CodeTaken(rows, NormalizeCode(f.studentCode.value), Some(id)) then Outcome(Err(Conflict(CODE_CONFLICT)), rows, 0)
    else match DateRule(f.enrollmentDate, f.expectedGraduationDate)
      case Err(e) => Outcome(Err(e), rows, 0)
      case Ok(_) =>
        var applied := UpdatedRow(rows[id], f);
        Outcome(Ok(applied), rows[id := Touched(applied, now)], 0)
  }

  function DeleteSpec(rows: map<int, StudentRecord>, id: int): Outcome<()>
  {
    if id in rows then Outcome(Ok(()), rows - {id}, 0) else Outcome(Err(NotFound(NotFoundMessage(id))), rows, 0)
  }

  /** list without its paging: the sort column and direction handed to the repository,
      and the ids of the stored students the filter keeps. */
  datatype ListQuery = ListQuery(sortColumn: string, direction: Direction, matchIds: set<int>)

  function ListSpec(rows: map<int, StudentRecord>, sortBy: Option<string>, sortDirection: Option<string>,
                    f: Filters): (q: ListQuery)
    ensures q.sortColumn in ALLOWED_SORT_COLUMNS
    ensures q.matchIds <= rows.Keys
    ensures forall id :: id in rows ==> (id in q.matchIds <==> WithFilters(f, rows[id]))
  {
    ListQuery(SanitizeSortBy(sortBy), SortDirection(sortDirection), set id | id in rows && WithFilters(f, rows[id]))
  }

  /** Without parameters list returns every stored student, and an added parameter
      only removes students from the result. */
  lemma ListFilters(rows: map<int, StudentRecord>, sortBy: Option<string>, sortDirection: Option<string>,
                    f: Filters, courseName: string)
    ensures ListSpec(rows, sortBy, sortDirection, NO_FILTERS).matchIds == rows.Keys
    ensures f.courseName.None? ==>
      ListSpec(rows, sortBy, sortDirection, f.(courseName := Some(courseName))).matchIds
        <= ListSpec(rows, sortBy, sortDirection, f).matchIds
  {
    forall id | id in rows
      ensures WithFilters(NO_FILTERS, rows[id])
    {
      NoFiltersMatchAll(rows[id]);
    }
  }

  class StudentService {
    const studentRepository: StudentRepository

    constructor (studentRepository: StudentRepository)
      ensures this.studentRepository == studentRepository
    {
      this.studentRepository := studentRepository;
    }

    /** applyCreateData / applyUpdateData on the entity. */
    static method ApplyData(student: Student, f: StudentForm, email: string, code: string)
      requires Complete(f)
      modifies student
      ensures student.Snapshot() == Applied(old(student.Snapshot()), f, email, code)
    {
      student.SetStudentCode(Some(code));
      student.SetFirstName(Some(Trim(f.firstName.value)));
      student.SetLastName(Some(Trim(f.lastName.value)));
      student.SetEmail(Some(email));
      student.SetPhone(TrimToNull(f.phone));
      student.SetDateOfBirth(f.dateOfBirth);
      student.SetGender(f.gender);
      student.SetAddressLine1(TrimToNull(f.addressLine1));
      student.SetAddressLine2(TrimToNull(f.addressLine2));
      student.SetCity(TrimToNull(f.city));
      student.SetState(TrimToNull(f.state));
      student.SetPostalCode(TrimToNull(f.postalCode));
      student.SetCountry(TrimToNull(f.country));
      student.SetEmergencyContactName(TrimToNull(f.emergencyContactName));
      student.SetEmergencyContactPhone(TrimToNull(f.emergencyContactPhone));
      student.SetEmergencyContactRelation(TrimToNull(f.emergencyContactRelation));
      student.SetCourseName(Some(Trim(f.courseName.value)));
      student.SetMajor(TrimToNull(f.major));
      student.SetAcademicYear(Some(ShortValue(f.academicYear.value)));
      student.SetEnrollmentDate(f.enrollmentDate);
      student.SetExpectedGraduationDate(f.expectedGraduationDate);
      student.SetGpa(f.gpa);
      student.SetCreditsCompleted(f.creditsCompleted);
      student.SetStatus(f.status);
      student.SetNotes(TrimToNull(f.notes));
    }

    method Create(f: StudentForm, now: int) returns (r: Result<StudentRecord, ApiException>)
      requires Complete(f)
      modifies studentRepository
      ensures var o := CreateSpec(old(studentRepository.rows), old(studentRepository.nextId), f, now);
        r == o.result && studentRepository.rows == o.rows && studentRepository.nextId == o.nextId
    {
      var email := NormalizeEmail(f.email.value);
      var code := NormalizeCode(f.studentCode.value);
      if studentRepository.ExistsByEmail(email, None) {
        return Err(Conflict(EMAIL_CONFLICT));
      }
      if studentRepository.ExistsByStudentCode(code, None) {
        return Err(Conflict(CODE_CONFLICT));
      }
      var rule := DateRule(f.enrollmentDate, f.expectedGraduationDate);
      if rule.Err? {
        return Err(rule.error);
      }
      CreateAccepted(studentRepository.rows, studentRepository.nextId, f, now);
      var student := new Student();
      ApplyData(student, f, email, code);
      var saved := studentRepository.Insert(student, now);
      return Ok(saved);
    }

    method GetById(id: int) returns (r: Result<StudentRecord, ApiException>)
      ensures r == GetByIdSpec(studentRepository.rows, id)
    {
      var found := studentRepository.FindById(id);
      if found.None? {
        return Err(NotFound(NotFoundMessage(id)));
      }
      r := Ok(found.value.Snapshot());
    }

    method Update(id: int, f: StudentForm, now: int) returns (r: Result<StudentRecord, ApiException>)
      requires Complete(f)
      modifies studentRepository
      ensures var o := UpdateSpec(old(studentRepository.rows), id, f, now);
        r == o.result && studentRepository.rows == o.rows && studentRepository.nextId == old(studentRepository.nextId)
    {
      var found := studentRepository.FindById(id);
      if found.None? {
        return Err(NotFound(NotFoundMessage(id)));
      }
      var student := found.value;
      var email := NormalizeEmail(f.email.value);
      var code := NormalizeCode(f.studentCode.value);
      if studentRepository.ExistsByEmail(email, Some(id)) {
        return Err(Conflict(EMAIL_CONFLICT));
      }
      if studentRepository.ExistsByStudentCode(code, Some(id)) {
        return Err(Conflict(CODE_CONFLICT));
      }
      var rule := DateRule(f.enrollmentDate, f.expectedGraduationDate);
      if rule.Err? {
        return Err(rule.error);
      }
      ApplyData(student, f, email, code);
      var response := student.Snapshot();
      studentRepository.Flush(student, id, now);
      return Ok(response);
    }

    method List(sortBy: Option<string>, sortDirection: Option<string>, f: Filters) returns (q: ListQuery)
      ensures q == ListSpec(studentRepository.rows, sortBy, sortDirection, f)
    {
      var column := SanitizeSortBy(sortBy);
      var direction := SortDirection(sortDirection);
      var ids := set id | id in studentRepository.rows && WithFilters(f, studentRepository.rows[id]);
      q := ListQuery(column, direction, ids);
    }

    method Delete(id: int) returns (r: Result<(), ApiException>)
      modifies studentRepository
      ensures var o := DeleteSpec(old(studentRepository.rows), id);
        r == o.result && studentRepository.rows == o.rows && studentRepository.nextId == old(studentRepository.nextId)
    {
      var found := studentRepository.FindById(id);
      if found.None? {
        return Err(NotFound(NotFoundMessage(id)));
      }
      studentRepository.DeleteById(id);
      return Ok(());
    }
  }
}
