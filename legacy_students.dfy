/** The older package's StudentController at /api/students: list, read, create, update
    and delete over the older StudentRepository, raising ResponseStatusException for
    404 and 409. Only the e-mail is normalised before storing, while the duplicate-e-mail
    checks look up the e-mail exactly as sent. */
module LegacyStudents {
  import opened Wrappers
  import opened Text
  import opened Errors
  import opened StudentModel

  /** A row of the older students table, as applyRequest fills it (the older Student
      entity's own file is not part of this model). */
  datatype LegacyStudent = LegacyStudent(
    id: int, studentId: string, firstName: string, lastName: string, email: string,
    course: string, academicYear: int, enrollmentDate: int, gpa: Decimal, phone: string,
    address: string, emergencyContactName: string, emergencyContactPhone: string, status: string)

  /** StudentRequest after JSON binding; null fields, which every constraint of the
      record rejects, are not represented. */
  datatype StudentRequest = StudentRequest(
    studentId: string, firstName: string, lastName: string, email: string, course: string,
    academicYear: int, enrollmentDate: int, gpa: Decimal, phone: string, address: string,
    emergencyContactName: string, emergencyContactPhone: string, status: string)

  /** The record's constraints: @NotBlank text, academicYear in 1..8, an enrollment date
      not after `today`, gpa in [0.0, 4.0] (DecimalMin/Max are inclusive). */
  predicate RequestValid(r: StudentRequest, today: int)
  {
    && NotBlank(r.studentId) && NotBlank(r.firstName) && NotBlank(r.lastName) && NotBlank(r.email)
    && NotBlank(r.course) && NotBlank(r.phone) && NotBlank(r.address)
    && NotBlank(r.emergencyContactName) && NotBlank(r.emergencyContactPhone) && NotBlank(r.status)
    && 1 <= r.academicYear <= 8
    && r.enrollmentDate <= today
    && AtLeast(r.gpa, 0, 1) && AtMost(r.gpa, 40, 1)
  }

  /** The gpa bounds are the closed interval [0, 4] on the decimal's value. */
  lemma GpaBoundsIff(d: Decimal)
    ensures AtLeast(d, 0, 1) && AtMost(d, 40, 1) <==> 0 <= d.unscaled <= 4 * Pow10(d.scale)
  {
  }

  const NOT_FOUND: int := 404
  const CONFLICT: int := 409
  const STUDENT_NOT_FOUND: string := "Student not found"
  const STUDENT_ID_EXISTS: string := "studentId already exists"
  const EMAIL_EXISTS: string := "student email already exists"

  /** applyRequest: every column from the request; only the e-mail is trimmed and
      lower-cased. */
  function Apply(r: StudentRequest, id: int): (s: LegacyStudent)
    ensures s.id == id && s.email == NormalizeEmail(r.email)
  {
    LegacyStudent(id, r.studentId, r.firstName, r.lastName, NormalizeEmail(r.email), r.course,
                  r.academicYear, r.enrollmentDate, r.gpa, r.phone, r.address,
                  r.emergencyContactName, r.emergencyContactPhone, r.status)
  }

  /** The request a stored row echoes back, with the e-mail as stored. */
  function AsRequest(s: LegacyStudent): StudentRequest
  {
    StudentRequest(s.studentId, s.firstName, s.lastName, s.email, s.course, s.academicYear,
                   s.enrollmentDate, s.gpa, s.phone, s.address, s.emergencyContactName,
                   s.emergencyContactPhone, s.status)
  }

  /** Nothing but the e-mail is transformed: the stored row gives back the request with
      its e-mail normalised, untrimmed text included. */
  lemma ApplyCopiesVerbatim(r: StudentRequest, id: int)
    ensures AsRequest(Apply(r, id)) == r.(email := NormalizeEmail(r.email))
  {
  }

  // ---- the repository ----

  function IndexOf(rows: seq<LegacyStudent>, id: int): (r: Option<nat>)
    ensures r.Some? ==> r.value < |rows| && rows[r.value].id == id
    ensures r.None? ==> forall k :: 0 <= k < |rows| ==> rows[k].id != id
  {
    if rows == [] then None
    else if rows[0].id == id then Some(0)
    else match IndexOf(rows[1..], id)
      case None => None
      case Some(k) => Some(k + 1)
  }

  /** existsByStudentId / existsByStudentIdAndIdNot (except = the id to skip). */
  predicate StudentIdTaken(rows: seq<LegacyStudent>, studentId: string, except: Option<int>)
  {
    exists k :: 0 <= k < |rows| && Some(rows[k].id) != except && rows[k].studentId == studentId
  }

  /** existsByEmail / existsByEmailAndIdNot. */
  predicate EmailTaken(rows: seq<LegacyStudent>, email: string, except: Option<int>)
  {
    exists k :: 0 <= k < |rows| && Some(rows[k].id) != except && rows[k].email == email
  }

  /** deleteById: every row with that id goes. */
  function Without(rows: seq<LegacyStudent>, id: int): (r: seq<LegacyStudent>)
    ensures forall s :: s in r <==> s in rows && s.id != id
    ensures |r| <= |rows|
  {
    if rows == [] then [] else (if rows[0].id == id then [] else [rows[0]]) + Without(rows[1..], id)
  }

  /** Ids are unique and below the next id, and so are studentIds. */
  predicate StoreValid(rows: seq<LegacyStudent>, nextId: int)
  {
    && (forall k :: 0 <= k < |rows| ==> rows[k].id < nextId)
    && (forall i, j :: 0 <= i < j < |rows| ==> rows[i].id != rows[j].id)
    && (forall i, j :: 0 <= i < j < |rows| ==> rows[i].studentId != rows[j].studentId)
  }

  class LegacyStudentRepository {
    var rows: seq<LegacyStudent>
    var nextId: int

    constructor ()
      ensures rows == [] && nextId == 1
    {
      rows := [];
      nextId := 1;
    }
  }

  // ---- the endpoints, as functions of the store ----

  datatype Outcome<T> = Outcome(result: Result<T, ApiException>, rows: seq<LegacyStudent>, nextId: int)

  function GetByIdSpec(rows: seq<LegacyStudent>, id: int): (r: Result<LegacyStudent, ApiException>)
    ensures r.Ok? <==> exists k :: 0 <= k < |rows| && rows[k].id == id
    ensures r.Ok? ==> r.value in rows && r.value.id == id
    ensures r.Err? ==> r.error == ResponseStatus(NOT_FOUND, STUDENT_NOT_FOUND)
  {
    match IndexOf(rows, id)
    case None => Err(ResponseStatus(NOT_FOUND, STUDENT_NOT_FOUND))
    case Some(k) => Ok(rows[k])
  }

  function CreateSpec(rows: seq<LegacyStudent>, nextId: int, r: StudentRequest): Outcome<LegacyStudent>
  {
    if StudentIdTaken(rows, r.studentId, None) then Outcome(Err(ResponseStatus(CONFLICT, STUDENT_ID_EXISTS)), rows, nextId)
    else if EmailTaken(rows, r.email, None) then Outcome(Err(ResponseStatus(CONFLICT, EMAIL_EXISTS)), rows, nextId)
    else Outcome(Ok(Apply(r, nextId)), rows + [Apply(r, nextId)], nextId + 1)
  }

  function UpdateSpec(rows: seq<LegacyStudent>, id: int, r: StudentRequest): Outcome<LegacyStudent>
  {
    match IndexOf(rows, id)
    case None => Outcome(Err(ResponseStatus(NOT_FOUND, STUDENT_NOT_FOUND)), rows, 0)
    case Some(k) =>
      if StudentIdTaken(rows, r.studentId, Some(id)) then Outcome(Err(ResponseStatus(CONFLICT, STUDENT_ID_EXISTS)), rows, 0)
      else if EmailTaken(rows, r.email, Some(id)) then Outcome(Err(ResponseStatus(CONFLICT, EMAIL_EXISTS)), rows, 0)
      else Outcome(Ok(Apply(r, id)), rows[k := Apply(r, id)], 0)
  }

  function DeleteSpec(rows: seq<LegacyStudent>, id: int): Outcome<()>
  {
    if IndexOf(rows, id).None? then Outcome(Err(ResponseStatus(NOT_FOUND, STUDENT_NOT_FOUND)), rows, 0)
    else Outcome(Ok(()), Without(rows, id), 0)
  }

  class LegacyStudentController {
    const studentRepository: LegacyStudentRepository

    constructor (studentRepository: LegacyStudentRepository)
      ensures this.studentRepository == studentRepository
    {
      this.studentRepository := studentRepository;
    }

    /** getAll: one response per stored row, in findAll order. */
    method GetAll() returns (responses: seq<LegacyStudent>)
      ensures |responses| == |studentRepository.rows|
      ensures forall k :: 0 <= k < |responses| ==> responses[k] == studentRepository.rows[k]
    {
      responses := [];
      var i := 0;
      while i < |studentRepository.rows|
        invariant 0 <= i <= |studentRepository.rows|
        invariant responses == studentRepository.rows[..i]
      {
        responses := responses + [studentRepository.rows[i]];
        i := i + 1;
      }
    }

    method GetById(id: int) returns (r: Result<LegacyStudent, ApiException>)
      ensures r == GetByIdSpec(studentRepository.rows, id)
    {
      var k := IndexOf(studentRepository.rows, id);
      if k.None? {
        return Err(ResponseStatus(NOT_FOUND, STUDENT_NOT_FOUND));
      }
      return Ok(studentRepository.rows[k.value]);
    }

    method Create(request: StudentRequest) returns (r: Result<LegacyStudent, ApiException>)
      modifies studentRepository
      ensures var o := CreateSpec(old(studentRepository.rows), old(studentRepository.nextId), request);
        r == o.result && studentRepository.rows == o.rows && studentRepository.nextId == o.nextId
    {
      if StudentIdTaken(studentRepository.rows, request.studentId, None) {
        return Err(ResponseStatus(CONFLICT, STUDENT_ID_EXISTS));
      }
      if EmailTaken(studentRepository.rows, request.email, None) {
        return Err(ResponseStatus(CONFLICT, EMAIL_EXISTS));
      }
      var student := Apply(request, studentRepository.nextId);
      studentRepository.rows := studentRepository.rows + [student];
      studentRepository.nextId := studentRepository.nextId + 1;
      return Ok(student);
    }

    method Update(id: int, request: StudentRequest) returns (r: Result<LegacyStudent, ApiException>)
      modifies studentRepository
      ensures var o := UpdateSpec(old(studentRepository.rows), id, request);
        r == o.result && studentRepository.rows == o.rows && studentRepository.nextId == old(studentRepository.nextId)
    {
      var k := IndexOf(studentRepository.rows, id);
      if k.None? {
        return Err(ResponseStatus(NOT_FOUND, STUDENT_NOT_FOUND));
      }
      if StudentIdTaken(studentRepository.rows, request.studentId, Some(id)) {
        return Err(ResponseStatus(CONFLICT, STUDENT_ID_EXISTS));
      }
      if EmailTaken(studentRepository.rows, request.email, Some(id)) {
        return Err(ResponseStatus(CONFLICT, EMAIL_EXISTS));
      }
      var student := Apply(request, id);
      studentRepository.rows := studentRepository.rows[k.value := student];
      return Ok(student);
    }

    method Delete(id: int) returns (r: Result<(), ApiException>)
      modifies studentRepository
      ensures var o := DeleteSpec(old(studentRepository.rows), id);
        r == o.result && studentRepository.rows == o.rows && studentRepository.nextId == old(studentRepository.nextId)
    {
      if IndexOf(studentRepository.rows, id).None? {
        return Err(ResponseStatus(NOT_FOUND, STUDENT_NOT_FOUND));
      }
      studentRepository.rows := Without(studentRepository.rows, id);
      return Ok(());
    }
  }

  // ---- properties ----

  /** create checks the studentId before the e-mail; on either 409 nothing is saved, and
      otherwise exactly one row is appended under the next id. */
  lemma CreateCheckOrder(rows: seq<LegacyStudent>, nextId: int, r: StudentRequest)
    ensures var o := CreateSpec(rows, nextId, r);
      && (StudentIdTaken(rows, r.studentId, None) ==> o.result == Err(ResponseStatus(CONFLICT, STUDENT_ID_EXISTS)))
      && ((!StudentIdTaken(rows, r.studentId, None) && EmailTaken(rows, r.email, None)) ==>
            o.result == Err(ResponseStatus(CONFLICT, EMAIL_EXISTS)))
      && (o.result.Err? ==> o.rows == rows && o.nextId == nextId)
      && (o.result.Ok? ==> o.rows == rows + [Apply(r, nextId)] && o.nextId == nextId + 1)
  {
  }

  lemma CreateKeepsValid(rows: seq<LegacyStudent>, nextId: int, r: StudentRequest)
    requires StoreValid(rows, nextId)
    ensures var o := CreateSpec(rows, nextId, r); StoreValid(o.rows, o.nextId)
  {
    if !StudentIdTaken(rows, r.studentId, None) && !EmailTaken(rows, r.email, None) {
      AppendKeepsValid(rows, nextId, Apply(r, nextId));
    }
  }

  /** Appending a row under the next id with a studentId no row holds keeps the store
      valid. */
  lemma AppendKeepsValid(rows: seq<LegacyStudent>, nextId: int, s: LegacyStudent)
    requires StoreValid(rows, nextId) && s.id == nextId && !StudentIdTaken(rows, s.studentId, None)
    ensures StoreValid(rows + [s], nextId + 1)
  {
    var after := rows + [s];
    assert forall k :: 0 <= k < |rows| ==> after[k] == rows[k];
    assert forall k :: 0 <= k < |rows| ==> rows[k].studentId != s.studentId;
  }

  /** update of an unknown id is 404 before any conflict check. */
  lemma UpdateUnknownNotFound(rows: seq<LegacyStudent>, id: int, r: StudentRequest)
    requires forall k :: 0 <= k < |rows| ==> rows[k].id != id
    ensures UpdateSpec(rows, id, r).result == Err(ResponseStatus(NOT_FOUND, STUDENT_NOT_FOUND))
    ensures UpdateSpec(rows, id, r).rows == rows
  {
  }

  /** The conflict checks skip the row being updated; a success rewrites that row alone
      and keeps its id. */
  lemma UpdateIgnoresSelf(rows: seq<LegacyStudent>, nextId: int, k: nat, r: StudentRequest)
    requires StoreValid(rows, nextId) && EmailsUnique(rows) && k < |rows|
    requires rows[k].studentId == r.studentId && rows[k].email == r.email
    ensures var o := UpdateSpec(rows, rows[k].id, r);
      o.result == Ok(Apply(r, rows[k].id)) && o.rows == rows[k := Apply(r, rows[k].id)]
  {
    assert IndexOf(rows, rows[k].id) == Some(k);
    assert forall j :: 0 <= j < |rows| && j != k ==> rows[j].studentId != r.studentId && rows[j].email != r.email;
  }

  lemma UpdateKeepsValid(rows: seq<LegacyStudent>, nextId: int, id: int, r: StudentRequest)
    requires StoreValid(rows, nextId)
    ensures StoreValid(UpdateSpec(rows, id, r).rows, nextId)
  {
    if UpdateSpec(rows, id, r).result.Ok? {
      var k := IndexOf(rows, id).value;
      assert !StudentIdTaken(rows, r.studentId, Some(id));
      ReplaceKeepsValid(rows, nextId, k, Apply(r, id));
    }
  }

  /** Rewriting row k under its own id with a studentId no other row holds keeps the
      store valid. */
  lemma ReplaceKeepsValid(rows: seq<LegacyStudent>, nextId: int, k: nat, s: LegacyStudent)
    requires StoreValid(rows, nextId) && k < |rows| && s.id == rows[k].id
    requires !StudentIdTaken(rows, s.studentId, Some(s.id))
    ensures StoreValid(rows[k := s], nextId)
  {
    assert forall j :: 0 <= j < |rows| && j != k ==> rows[j].studentId != s.studentId;
  }

  /** delete of an unknown id is 404 with the store unchanged; otherwise exactly the row
      with that id is gone. */
  lemma DeleteExact(rows: seq<LegacyStudent>, id: int)
    ensures var o := DeleteSpec(rows, id);
      && ((forall k :: 0 <= k < |rows| ==> rows[k].id != id) ==>
            o.result == Err(ResponseStatus(NOT_FOUND, STUDENT_NOT_FOUND)) && o.rows == rows)
      && ((exists k :: 0 <= k < |rows| && rows[k].id == id) ==>
            o.result.Ok? && forall s :: s in o.rows <==> s in rows && s.id != id)
  {
  }

  /** As written: the duplicate check compares the e-mail as sent, so a request whose
      e-mail differs from a stored one only in case or surrounding blanks passes it,
      and two rows then hold the same e-mail. */
  lemma CreateAdmitsCaseVariant(rows: seq<LegacyStudent>, nextId: int, r: StudentRequest, k: nat)
    requires k < |rows| && rows[k].email == NormalizeEmail(r.email)
    requires !StudentIdTaken(rows, r.studentId, None) && !EmailTaken(rows, r.email, None)
    ensures var o := CreateSpec(rows, nextId, r);
      o.result.Ok? && |o.rows| == |rows| + 1 && o.rows[k].email == o.rows[|rows|].email
  {
  }

  /** The smallest such input: a stored "a" and a request for "A". */
  lemma CaseVariantWitness(row: LegacyStudent, r: StudentRequest)
    requires row.email == "a" && r.email == "A" && row.studentId != r.studentId
    ensures var o := CreateSpec([row], 2, r); o.result.Ok? && o.rows[0].email == o.rows[1].email
  {
    var upper: string := "A";
    assert TrimLeft(upper) == upper && TrimRight(upper) == upper;
    assert ToLower(upper) == "a" by {
      assert ToLower(upper)[0] == LowerChar('A');
    }
    assert [row][0].email != r.email;
    assert !EmailTaken([row], r.email, None);
    assert !StudentIdTaken([row], r.studentId, None);
    CreateAdmitsCaseVariant([row], 2, r, 0);
  }

  // ---- the evidently intended duplicate check ----

  /** No two rows share an e-mail. */
  predicate EmailsUnique(rows: seq<LegacyStudent>)
  {
    forall i, j :: 0 <= i < j < |rows| ==> rows[i].email != rows[j].email
  }

  /** create with the duplicate check on the value it stores. */
  function CreateIntended(rows: seq<LegacyStudent>, nextId: int, r: StudentRequest): Outcome<LegacyStudent>
  {
    if StudentIdTaken(rows, r.studentId, None) then Outcome(Err(ResponseStatus(CONFLICT, STUDENT_ID_EXISTS)), rows, nextId)
    else if EmailTaken(rows, NormalizeEmail(r.email), None) then Outcome(Err(ResponseStatus(CONFLICT, EMAIL_EXISTS)), rows, nextId)
    else Outcome(Ok(Apply(r, nextId)), rows + [Apply(r, nextId)], nextId + 1)
  }

  /** update with the duplicate check on the value it stores. */
  function UpdateIntended(rows: seq<LegacyStudent>, id: int, r: StudentRequest): Outcome<LegacyStudent>
  {
    match IndexOf(rows, id)
    case None => Outcome(Err(ResponseStatus(NOT_FOUND, STUDENT_NOT_FOUND)), rows, 0)
    case Some(k) =>
      if StudentIdTaken(rows, r.studentId, Some(id)) then Outcome(Err(ResponseStatus(CONFLICT, STUDENT_ID_EXISTS)), rows, 0)
      else if EmailTaken(rows, NormalizeEmail(r.email), Some(id)) then Outcome(Err(ResponseStatus(CONFLICT, EMAIL_EXISTS)), rows, 0)
      else Outcome(Ok(Apply(r, id)), rows[k := Apply(r, id)], 0)
  }

  /** With the check on the stored value, e-mails stay unique under create. */
  lemma CreateIntendedKeepsEmailsUnique(rows: seq<LegacyStudent>, nextId: int, r: StudentRequest)
    requires EmailsUnique(rows)
    ensures EmailsUnique(CreateIntended(rows, nextId, r).rows)
  {
  }

  /** ... and under update, given unique ids. */
  lemma UpdateIntendedKeepsEmailsUnique(rows: seq<LegacyStudent>, nextId: int, id: int, r: StudentRequest)
    requires StoreValid(rows, nextId) && EmailsUnique(rows)
    ensures EmailsUnique(UpdateIntended(rows, id, r).rows)
  {
    var o := UpdateIntended(rows, id, r);
    if o.result.Ok? {
      var k := IndexOf(rows, id).value;
      assert o.rows == rows[k := Apply(r, id)];
      assert forall j :: 0 <= j < |rows| && j != k ==> rows[j].email != NormalizeEmail(r.email);
    }
  }

  /** The corrected create rejects the case variant the written one admits. */
  lemma CreateIntendedRejectsCaseVariant(rows: seq<LegacyStudent>, nextId: int, r: StudentRequest, k: nat)
    requires k < |rows| && rows[k].email == NormalizeEmail(r.email) && !StudentIdTaken(rows, r.studentId, None)
    ensures CreateIntended(rows, nextId, r).result == Err(ResponseStatus(CONFLICT, EMAIL_EXISTS))
    ensures CreateIntended(rows, nextId, r).rows == rows
  {
  }
}
