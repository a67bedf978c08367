/** The layered package's Student entity: its column values, its JavaBean setters and
    the two JPA lifecycle callbacks that stamp createdAt and updatedAt. Java references
    that may be null are Options; a LocalDate is an epoch-day number and an Instant an
    epoch-millisecond number. */
module StudentModel {
  import opened Wrappers

  /** The Gender and StudentStatus enum constants, by name. */
  datatype Gender = Gender(name: string)
  datatype StudentStatus = StudentStatus(name: string)

  /** A BigDecimal: unscaledValue / 10^scale (negative scales are not modelled). */
  datatype Decimal = Decimal(unscaled: int, scale: nat)

  function Pow10(n: nat): (p: nat)
    ensures p >= 1
  {
    if n == 0 then 1 else 10 * Pow10(n - 1)
  }

  /** compareTo(d) <= 0 against the integer k / 10^s, by cross-multiplication. */
  predicate AtMost(d: Decimal, k: int, s: nat)
  {
    d.unscaled * Pow10(s) <= k * Pow10(d.scale)
  }

  predicate AtLeast(d: Decimal, k: int, s: nat)
  {
    d.unscaled * Pow10(s) >= k * Pow10(d.scale)
  }

  /** Every column of a Student, as its getters return it. */
  datatype StudentRecord = StudentRecord(
    id: Option<int>,
    studentCode: Option<string>,
    firstName: Option<string>,
    lastName: Option<string>,
    email: Option<string>,
    phone: Option<string>,
    dateOfBirth: Option<int>,
    gender: Option<Gender>,
    addressLine1: Option<string>,
    addressLine2: Option<string>,
    city: Option<string>,
    state: Option<string>,
    postalCode: Option<string>,
    country: Option<string>,
    emergencyContactName: Option<string>,
    emergencyContactPhone: Option<string>,
    emergencyContactRelation: Option<string>,
    courseName: Option<string>,
    major: Option<string>,
    academicYear: Option<int>,
    enrollmentDate: Option<int>,
    expectedGraduationDate: Option<int>,
    gpa: Option<Decimal>,
    creditsCompleted: Option<int>,
    status: Option<StudentStatus>,
    notes: Option<string>,
    createdAt: Option<int>,
    updatedAt: Option<int>)

  /** A `new Student()`: every field null. */
  const EMPTY_STUDENT: StudentRecord := StudentRecord(
    None, None, None, None, None, None, None, None, None, None, None, None, None, None,
    None, None, None, None, None, None, None, None, None, None, None, None, None, None)

  /** prePersist: both timestamps take the same instant, nothing else changes. */
  function Persisted(s: StudentRecord, now: int): (r: StudentRecord)
    ensures r.createdAt == r.updatedAt == Some(now)
    ensures r.(createdAt := s.createdAt, updatedAt := s.updatedAt) == s
  {
    s.(createdAt := Some(now), updatedAt := Some(now))
  }

  /** preUpdate: only updatedAt changes. */
  function Touched(s: StudentRecord, now: int): (r: StudentRecord)
    ensures r.updatedAt == Some(now)
    ensures r.(updatedAt := s.updatedAt) == s
  {
    s.(updatedAt := Some(now))
  }

  /** A persist at `t0` followed by an update at each instant of `ts`, in order. */
  function History(s: StudentRecord, t0: int, ts: seq<int>): StudentRecord
    decreases |ts|
  {
    if ts == [] then Persisted(s, t0) else Touched(History(s, t0, ts[..|ts| - 1]), ts[|ts| - 1])
  }

  predicate NonDecreasing(t0: int, ts: seq<int>)
  {
    (forall i :: 0 <= i < |ts| ==> t0 <= ts[i])
    && (forall i, j :: 0 <= i < j < |ts| ==> ts[i] <= ts[j])
  }

  /** With a clock that never goes back, a persisted student keeps createdAt at the
      persist instant, carries the latest instant in updatedAt, so createdAt <= updatedAt,
      and the callbacks change no other column. */
  lemma {:induction false} HistoryOrdered(s: StudentRecord, t0: int, ts: seq<int>)
    requires NonDecreasing(t0, ts)
    ensures var h := History(s, t0, ts);
      && h.createdAt == Some(t0)
      && h.updatedAt == Some(if ts == [] then t0 else ts[|ts| - 1])
      && h.createdAt.value <= h.updatedAt.value
      && h.(createdAt := s.createdAt, updatedAt := s.updatedAt) == s
  {
    if ts != [] {
      var init := ts[..|ts| - 1];
      assert NonDecreasing(t0, init);
      HistoryOrdered(s, t0, init);
    }
  }

  /** The entity, with one field per column. A getter is a read of its field. */
  class Student {
    var id: Option<int>
    var studentCode: Option<string>
    var firstName: Option<string>
    var lastName: Option<string>
    var email: Option<string>
    var phone: Option<string>
    var dateOfBirth: Option<int>
    var gender: Option<Gender>
    var addressLine1: Option<string>
    var addressLine2: Option<string>
    var city: Option<string>
    var state: Option<string>
    var postalCode: Option<string>
    var country: Option<string>
    var emergencyContactName: Option<string>
    var emergencyContactPhone: Option<string>
    var emergencyContactRelation: Option<string>
    var courseName: Option<string>
    var major: Option<string>
    var academicYear: Option<int>
    var enrollmentDate: Option<int>
    var expectedGraduationDate: Option<int>
    var gpa: Option<Decimal>
    var creditsCompleted: Option<int>
    var status: Option<StudentStatus>
    var notes: Option<string>
    var createdAt: Option<int>
    var updatedAt: Option<int>

    /** All columns at once. */
    function Snapshot(): StudentRecord
      reads this
    {
      StudentRecord(id, studentCode, firstName, lastName, email, phone, dateOfBirth, gender,
                    addressLine1, addressLine2, city, state, postalCode, country,
                    emergencyContactName, emergencyContactPhone, emergencyContactRelation,
                    courseName, major, academicYear, enrollmentDate, expectedGraduationDate,
                    gpa, creditsCompleted, status, notes, createdAt, updatedAt)
    }

    constructor ()
      ensures Snapshot() == EMPTY_STUDENT
    {
      id, studentCode, firstName, lastName, email, phone := None, None, None, None, None, None;
      dateOfBirth, gender, addressLine1, addressLine2, city, state := None, None, None, None, None, None;
      postalCode, country, emergencyContactName, emergencyContactPhone := None, None, None, None;
      emergencyContactRelation, courseName, major, academicYear := None, None, None, None;
      enrollmentDate, expectedGraduationDate, gpa, creditsCompleted := None, None, None, None;
      status, notes, createdAt, updatedAt := None, None, None, None;
    }

    /** The managed entity JPA loads for a stored row. */
    constructor Of(r: StudentRecord)
      ensures Snapshot() == r
    {
      id, studentCode, firstName, lastName, email, phone := r.id, r.studentCode, r.firstName, r.lastName, r.email, r.phone;
      dateOfBirth, gender, addressLine1, addressLine2 := r.dateOfBirth, r.gender, r.addressLine1, r.addressLine2;
      city, state, postalCode, country := r.city, r.state, r.postalCode, r.country;
      emergencyContactName, emergencyContactPhone := r.emergencyContactName, r.emergencyContactPhone;
      emergencyContactRelation, courseName, major := r.emergencyContactRelation, r.courseName, r.major;
      academicYear, enrollmentDate, expectedGraduationDate := r.academicYear, r.enrollmentDate, r.expectedGraduationDate;
      gpa, creditsCompleted, status, notes := r.gpa, r.creditsCompleted, r.status, r.notes;
      createdAt, updatedAt := r.createdAt, r.updatedAt;
    }

    /** @PrePersist, with Instant.now() as a parameter. */
    method PrePersist(now: int)
      modifies this
      ensures Snapshot() == Persisted(old(Snapshot()), now)
    {
      createdAt := Some(now);
      updatedAt := Some(now);
    }

    /** @PreUpdate, with Instant.now() as a parameter. */
    method PreUpdate(now: int)
      modifies this
      ensures Snapshot() == Touched(old(Snapshot()), now)
    {
      updatedAt := Some(now);
    }

    // ---- setters: each changes its own field and nothing else ----

    method SetId(v: Option<int>)
      modifies this
      ensures Snapshot() == old(Snapshot()).(id := v)
    {
      id := v;
    }

    method SetStudentCode(v: Option<string>)
      modifies this
      ensures Snapshot() == old(Snapshot()).(studentCode := v)
    {
      studentCode := v;
    }

    method SetFirstName(v: Option<string>)
      modifies this
      ensures Snapshot() == old(Snapshot()).(firstName := v)
    {
      firstName := v;
    }

    method SetLastName(v: Option<string>)
      modifies this
      ensures Snapshot() == old(Snapshot()).(lastName := v)
    {
      lastName := v;
    }

    method SetEmail(v: Option<string>)
      modifies this
      ensures Snapshot() == old(Snapshot()).(email := v)
    {
      email := v;
    }

    method SetPhone(v: Option<string>)
      modifies this
      ensures Snapshot() == old(Snapshot()).(phone := v)
    {
      phone := v;
    }

    method SetDateOfBirth(v: Option<int>)
      modifies this
      ensures Snapshot() == old(Snapshot()).(dateOfBirth := v)
    {
      dateOfBirth := v;
    }

    method SetGender(v: Option<Gender>)
      modifies this
      ensures Snapshot() == old(Snapshot()).(gender := v)
    {
      gender := v;
    }

    method SetAddressLine1(v: Option<string>)
      modifies this
      ensures Snapshot() == old(Snapshot()).(addressLine1 := v)
    {
      addressLine1 := v;
    }

    method SetAddressLine2(v: Option<string>)
      modifies this
      ensures Snapshot() == old(Snapshot()).(addressLine2 := v)
    {
      addressLine2 := v;
    }

    method SetCity(v: Option<string>)
      modifies this
      ensures Snapshot() == old(Snapshot()).(city := v)
    {
      city := v;
    }

    method SetState(v: Option<string>)
      modifies this
      ensures Snapshot() == old(Snapshot()).(state := v)
    {
      state := v;
    }

    method SetPostalCode(v: Option<string>)
      modifies this
      ensures Snapshot() == old(Snapshot()).(postalCode := v)
    {
      postalCode := v;
    }

    method SetCountry(v: Option<string>)
      modifies this
      ensures Snapshot() == old(Snapshot()).(country := v)
    {
      country := v;
    }

    method SetEmergencyContactName(v: Option<string>)
      modifies this
      ensures Snapshot() == old(Snapshot()).(emergencyContactName := v)
    {
      emergencyContactName := v;
    }

    method SetEmergencyContactPhone(v: Option<string>)
      modifies this
      ensures Snapshot() == old(Snapshot()).(emergencyContactPhone := v)
    {
      emergencyContactPhone := v;
    }

    method SetEmergencyContactRelation(v: Option<string>)
      modifies this
      ensures Snapshot() == old(Snapshot()).(emergencyContactRelation := v)
    {
      emergencyContactRelation := v;
    }

    method SetCourseName(v: Option<string>)
      modifies this
      ensures Snapshot() == old(Snapshot()).(courseName := v)
    {
      courseName := v;
    }

    method SetMajor(v: Option<string>)
      modifies this
      ensures Snapshot() == old(Snapshot()).(major := v)
    {
      major := v;
    }

    method SetAcademicYear(v: Option<int>)
      modifies this
      ensures Snapshot() == old(Snapshot()).(academicYear := v)
    {
      academicYear := v;
    }

    method SetEnrollmentDate(v: Option<int>)
      modifies this
      ensures Snapshot() == old(Snapshot()).(enrollmentDate := v)
    {
      enrollmentDate := v;
    }

    method SetExpectedGraduationDate(v: Option<int>)
      modifies this
      ensures Snapshot() == old(Snapshot()).(expectedGraduationDate := v)
    {
      expectedGraduationDate := v;
    }

    method SetGpa(v: Option<Decimal>)
      modifies this
      ensures Snapshot() == old(Snapshot()).(gpa := v)
    {
      gpa := v;
    }

    method SetCreditsCompleted(v: Option<int>)
      modifies this
      ensures Snapshot() == old(Snapshot()).(creditsCompleted := v)
    {
      creditsCompleted := v;
    }

    method SetStatus(v: Option<StudentStatus>)
      modifies this
      ensures Snapshot() == old(Snapshot()).(status := v)
    {
      status := v;
    }

    method SetNotes(v: Option<string>)
      modifies this
      ensures Snapshot() == old(Snapshot()).(notes := v)
    {
      notes := v;
    }

    method SetCreatedAt(v: Option<int>)
      modifies this
      ensures Snapshot() == old(Snapshot()).(createdAt := v)
    {
      createdAt := v;
    }

    method SetUpdatedAt(v: Option<int>)
      modifies this
      ensures Snapshot() == old(Snapshot()).(updatedAt := v)
    {
      updatedAt := v;
    }
  }
}
