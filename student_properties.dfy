/** What StudentService promises about its store: the order of its checks, that errors
    change nothing, that uniqueness of the normalised e-mail and code is kept, and
    which rows each operation touches. */
module StudentProperties {
  import opened Wrappers
  import opened Text
  import opened Errors
  import opened StudentModel
  import opened StudentRequestRules
  import opened StudentService

  /** create checks the e-mail, then the code, then the date rule, and any failure
      leaves the store as it was. */
  lemma CreateCheckOrder(rows: map<int, StudentRecord>, nextId: int, f: StudentForm, now: int)
    requires Complete(f)
    ensures var o := CreateSpec(rows, nextId, f, now);
      && (EmailTaken(rows, NormalizeEmail(f.email.value), None) ==> o.result == Err(Conflict(EMAIL_CONFLICT)))
      && ((!EmailTaken(rows, NormalizeEmail(f.email.value), None)
           && CodeTaken(rows, NormalizeCode(f.studentCode.value), None)) ==> o.result == Err(Conflict(CODE_CONFLICT)))
      && ((!EmailTaken(rows, NormalizeEmail(f.email.value), None)
           && !CodeTaken(rows, NormalizeCode(f.studentCode.value), None)) ==>
            (o.result.Err? <==> DateRule(f.enrollmentDate, f.expectedGraduationDate).Err?))
      && (o.result.Err? ==> o.rows == rows && o.nextId == nextId)
  {
  }

  /** A created student stores the normalised e-mail and code under the next id, with
      both timestamps at the creation instant; no other row changes. */
  lemma CreateStoresNormalised(rows: map<int, StudentRecord>, nextId: int, f: StudentForm, now: int)
    requires Complete(f) && CreateSpec(rows, nextId, f, now).result.Ok?
    ensures var o := CreateSpec(rows, nextId, f, now); var s := o.result.value;
      && s.id == Some(nextId)
      && s.email == Some(NormalizeEmail(f.email.value))
      && s.studentCode == Some(NormalizeCode(f.studentCode.value))
      && s.createdAt == s.updatedAt == Some(now)
      && o.rows == rows[nextId := s] && o.nextId == nextId + 1
  {
    CreateSucceeded(rows, nextId, f, now);
  }

  /** The branch a successful create took. */
  lemma CreateSucceeded(rows: map<int, StudentRecord>, nextId: int, f: StudentForm, now: int)
    requires Complete(f) && CreateSpec(rows, nextId, f, now).result.Ok?
    ensures !EmailTaken(rows, NormalizeEmail(f.email.value), None)
    ensures !CodeTaken(rows, NormalizeCode(f.studentCode.value), None)
    ensures DateRule(f.enrollmentDate, f.expectedGraduationDate).Ok?
  {
  }

  /** An e-mail that differs from a stored one only in case or surrounding blanks is a
      conflict. */
  lemma CreateRejectsCaseVariant(rows: map<int, StudentRecord>, nextId: int, f: StudentForm, now: int,
                                 id: int, stored: string)
    requires Complete(f) && id in rows && rows[id].email == Some(NormalizeEmail(stored))
    requires EqualsIgnoreCase(Trim(f.email.value), Trim(stored))
    ensures CreateSpec(rows, nextId, f, now).result == Err(Conflict(EMAIL_CONFLICT))
  {
    NormalizeEmailIgnoresCase(f.email.value, stored);
  }

  /** create keeps every row keyed by its id and the e-mails and codes distinct. */
  lemma CreateKeepsValid(rows: map<int, StudentRecord>, nextId: int, f: StudentForm, now: int)
    requires Complete(f) && StoreValid(rows, nextId)
    ensures var o := CreateSpec(rows, nextId, f, now); StoreValid(o.rows, o.nextId)
  {
    var o := CreateSpec(rows, nextId, f, now);
    if o.result.Ok? {
      CreateSucceeded(rows, nextId, f, now);
      var s := NewRow(f, nextId, now);
      assert o.rows == rows[nextId := s] && o.nextId == nextId + 1;
      InsertKeepsValid(rows, nextId, s);
    }
  }

  /** Inserting a row under the next id with an e-mail and code no row holds keeps the
      store valid. */
  lemma InsertKeepsValid(rows: map<int, StudentRecord>, nextId: int, s: StudentRecord)
    requires StoreValid(rows, nextId) && s.id == Some(nextId) && s.email.Some? && s.studentCode.Some?
    requires !EmailTaken(rows, s.email.value, None) && !CodeTaken(rows, s.studentCode.value, None)
    ensures StoreValid(rows[nextId := s], nextId + 1)
  {
    assert nextId !in rows;
    assert forall k :: k in rows ==> rows[k].email != s.email;
    assert forall k :: k in rows ==> rows[k].studentCode != s.studentCode;
  }

  /** getById answers the stored row or 404, and delete removes exactly that row or
      answers 404 with the store unchanged. */
  lemma GetAndDelete(rows: map<int, StudentRecord>, id: int)
    ensures GetByIdSpec(rows, id).Err? <==> id !in rows
    ensures var o := DeleteSpec(rows, id);
      && (id in rows ==> o.result.Ok? && o.rows == rows - {id} && forall k :: k in rows && k != id ==> k in o.rows && o.rows[k] == rows[k])
      && (id !in rows ==> o.result == Err(NotFound(NotFoundMessage(id))) && o.rows == rows)
  {
  }

  /** delete keeps the store valid. */
  lemma DeleteKeepsValid(rows: map<int, StudentRecord>, nextId: int, id: int)
    requires StoreValid(rows, nextId)
    ensures StoreValid(DeleteSpec(rows, id).rows, nextId)
  {
  }

  /** update of an unknown id is 404 before any conflict check, whatever the request. */
  lemma UpdateUnknownNotFound(rows: map<int, StudentRecord>, id: int, f: StudentForm, now: int)
    requires Complete(f) && id !in rows
    ensures UpdateSpec(rows, id, f, now).result == Err(NotFound(NotFoundMessage(id)))
    ensures UpdateSpec(rows, id, f, now).rows == rows
  {
  }

  /** The conflict checks skip the row being updated: resubmitting a student's own
      e-mail and code in any case is no conflict. */
  lemma UpdateIgnoresSelf(rows: map<int, StudentRecord>, nextId: int, id: int, f: StudentForm, now: int)
    requires Complete(f) && StoreValid(rows, nextId) && id in rows
    requires rows[id].email == Some(NormalizeEmail(f.email.value))
    requires rows[id].studentCode == Some(NormalizeCode(f.studentCode.value))
    ensures !EmailTaken(rows, NormalizeEmail(f.email.value), Some(id))
    ensures !CodeTaken(rows, NormalizeCode(f.studentCode.value), Some(id))
    ensures UpdateSpec(rows, id, f, now).result.Err? <==> DateRule(f.enrollmentDate, f.expectedGraduationDate).Err?
  {
  }

  /** A successful update rewrites only its own row: id and createdAt stay, updatedAt
      becomes the flush instant, e-mail and code are stored normalised. A failed one
      changes nothing. */
  lemma UpdateFrame(rows: map<int, StudentRecord>, id: int, f: StudentForm, now: int)
    requires Complete(f)
    ensures var o := UpdateSpec(rows, id, f, now);
      && (o.result.Err? ==> o.rows == rows)
      && (o.result.Ok? ==>
            && id in rows && o.rows.Keys == rows.Keys
            && (forall k :: k in rows && k != id ==> o.rows[k] == rows[k])
            && o.rows[id].id == rows[id].id && o.rows[id].createdAt == rows[id].createdAt
            && o.rows[id].updatedAt == Some(now)
            && o.rows[id].email == Some(NormalizeEmail(f.email.value))
            && o.rows[id].studentCode == Some(NormalizeCode(f.studentCode.value))
            && o.result.value == o.rows[id].(updatedAt := rows[id].updatedAt))
  {
    var o := UpdateSpec(rows, id, f, now);
    if o.result.Ok? {
      UpdateSucceeded(rows, id, f, now);
      var applied := UpdatedRow(rows[id], f);
      assert o.rows == rows[id := Touched(applied, now)] && o.result == Ok(applied);
    }
  }

  /** The branch a successful update took. */
  lemma UpdateSucceeded(rows: map<int, StudentRecord>, id: int, f: StudentForm, now: int)
    requires Complete(f) && UpdateSpec(rows, id, f, now).result.Ok?
    ensures id in rows
    ensures !EmailTaken(rows, NormalizeEmail(f.email.value), Some(id))
    ensures !CodeTaken(rows, NormalizeCode(f.studentCode.value), Some(id))
    ensures DateRule(f.enrollmentDate, f.expectedGraduationDate).Ok?
  {
  }

  /** update keeps the store valid. */
  lemma UpdateKeepsValid(rows: map<int, StudentRecord>, nextId: int, id: int, f: StudentForm, now: int)
    requires Complete(f) && StoreValid(rows, nextId)
    ensures StoreValid(UpdateSpec(rows, id, f, now).rows, nextId)
  {
    var o := UpdateSpec(rows, id, f, now);
    if o.result.Ok? {
      UpdateSucceeded(rows, id, f, now);
      var s := Touched(UpdatedRow(rows[id], f), now);
      assert o.rows == rows[id := s];
      ReplaceKeepsValid(rows, nextId, id, s);
    }
  }

  /** Replacing a row by one with the same id and an e-mail and code no other row
      holds keeps the store valid. */
  lemma ReplaceKeepsValid(rows: map<int, StudentRecord>, nextId: int, id: int, s: StudentRecord)
    requires StoreValid(rows, nextId) && id in rows && s.id == Some(id) && s.email.Some? && s.studentCode.Some?
    requires !EmailTaken(rows, s.email.value, Some(id)) && !CodeTaken(rows, s.studentCode.value, Some(id))
    ensures StoreValid(rows[id := s], nextId)
  {
    assert forall k :: k in rows && k != id ==> rows[k].email != s.email;
    assert forall k :: k in rows && k != id ==> rows[k].studentCode != s.studentCode;
  }

  /** A form that passed @Valid is complete, so the service accepts it. */
  lemma ValidIsComplete(f: StudentForm, today: int)
    requires Valid(f, today)
    ensures Complete(f)
  {
  }
}
