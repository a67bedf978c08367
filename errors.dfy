/** The exceptions the layered package raises and GlobalExceptionHandler, which
    turns each of them into an HTTP status and an ApiError body. */
module Errors {
  import opened Wrappers

  /** One FieldError of a failed bean validation: the field and its default message. */
  datatype FieldError = FieldError(field: string, message: string)

  /** The exception kinds the handler distinguishes. */
  datatype ApiException =
    | FieldValidation(fieldErrors: seq<FieldError>)  // MethodArgumentNotValidException
    | ConstraintViolation(message: string)           // jakarta ConstraintViolationException
    | NotFound(message: string)                      // ResourceNotFoundException
    | Conflict(message: string)                      // ConflictException
    | BadRequest(message: string)                    // BadRequestException
    | Unauthorized(message: string)                  // UnauthorizedException
    | BadCredentials(message: string)                // Spring's BadCredentialsException
    | AccessDenied(message: string)                  // Spring's AccessDeniedException
    | ResponseStatus(code: int, reason: string)      // Spring's ResponseStatusException
    | Unexpected(message: string)                    // any other exception

  /** The validation map: field to message, in insertion order (a LinkedHashMap). */
  type FieldMap = seq<(string, string)>

  /** The response body; the timestamp (Instant.now()) is not modelled. */
  datatype ApiError = ApiError(status: int, error: string, message: string, path: string,
                               validationErrors: Option<FieldMap>)

  /** HttpStatus.getReasonPhrase() for the statuses the core produces. */
  function ReasonPhrase(status: int): string
  {
    if status == 400 then "Bad Request"
    else if status == 401 then "Unauthorized"
    else if status == 403 then "Forbidden"
    else if status == 404 then "Not Found"
    else if status == 409 then "Conflict"
    else if status == 429 then "Too Many Requests"
    else if status == 500 then "Internal Server Error"
    else ""
  }

  /** The status each handler method answers with. */
  function StatusOf(ex: ApiException): (s: int)
    ensures s in {400, 401, 403, 404, 409, 500}
    ensures s == 500 <==> ex.Unexpected? || ex.ResponseStatus?
    ensures s == 400 <==> (ex.FieldValidation? || ex.ConstraintViolation? || ex.BadRequest?)
    ensures s == 401 <==> (ex.Unauthorized? || ex.BadCredentials?)
  {
    match ex
    case FieldValidation(_) => 400
    case ConstraintViolation(_) => 400
    case NotFound(_) => 404
    case Conflict(_) => 409
    case BadRequest(_) => 400
    case Unauthorized(_) => 401
    case BadCredentials(_) => 401
    case AccessDenied(_) => 403
    case ResponseStatus(_, _) => 500
    case Unexpected(_) => 500
  }

  /** buildError: status, its reason phrase, message, request path, validation map. */
  function BuildError(status: int, message: string, path: string, validationErrors: Option<FieldMap>): ApiError
  {
    ApiError(status, ReasonPhrase(status), message, path, validationErrors)
  }

  predicate HasField(m: FieldMap, f: string)
  {
    exists i :: 0 <= i < |m| && m[i].0 == f
  }

  /** Map.putIfAbsent on an insertion-ordered map. */
  function PutIfAbsent(m: FieldMap, f: string, msg: string): FieldMap
  {
    if HasField(m, f) then m else m + [(f, msg)]
  }

  /** The map handleValidationError builds: putIfAbsent for each field error in turn. */
  function FirstMessages(errors: seq<FieldError>): FieldMap
  {
    if errors == [] then []
    else
      var last := errors[|errors| - 1];
      PutIfAbsent(FirstMessages(errors[..|errors| - 1]), last.field, last.message)
  }

  /** The handler for every exception kind. A ResponseStatusException has no handler of
      its own, so the generic one catches it. */
  function Handle(ex: ApiException, path: string): (e: ApiError)
    ensures e.status == StatusOf(ex) && e.error == ReasonPhrase(e.status) && e.path == path
    ensures e.validationErrors.Some? <==> ex.FieldValidation?
    ensures ex.Unexpected? || ex.ResponseStatus? ==> e.message == "Unexpected server error"
  {
    match ex
    case FieldValidation(errors) => BuildError(400, "Validation failed", path, Some(FirstMessages(errors)))
    case ConstraintViolation(msg) => BuildError(400, msg, path, None)
    case NotFound(msg) => BuildError(404, msg, path, None)
    case Conflict(msg) => BuildError(409, msg, path, None)
    case BadRequest(msg) => BuildError(400, msg, path, None)
    case Unauthorized(msg) => BuildError(401, msg, path, None)
    case BadCredentials(msg) => BuildError(401, msg, path, None)
    case AccessDenied(msg) => BuildError(403, msg, path, None)
    case ResponseStatus(_, _) => BuildError(500, "Unexpected server error", path, None)
    case Unexpected(_) => BuildError(500, "Unexpected server error", path, None)
  }

  /** The status a ResponseStatusException names, as Spring answers it when no advice
      intercepts it; every other kind is handled as before. */
  function HandleIntended(ex: ApiException, path: string): (e: ApiError)
    ensures ex.ResponseStatus? ==>
      e.status == ex.code && e.error == ReasonPhrase(ex.code) && e.message == ex.reason && e.path == path
      && e.validationErrors.None?
    ensures !ex.ResponseStatus? ==> e == Handle(ex, path)
  {
    match ex
    case ResponseStatus(code, reason) => BuildError(code, reason, path, None)
    case _ => Handle(ex, path)
  }

  /** As written, every ResponseStatusException reaches the client as a 500 with the
      generic message, whatever status and reason it carries. */
  lemma ResponseStatusBecomes500(code: int, reason: string, path: string)
    ensures Handle(ResponseStatus(code, reason), path) == BuildError(500, "Unexpected server error", path, None)
    ensures code != 500 ==> Handle(ResponseStatus(code, reason), path).status != HandleIntended(ResponseStatus(code, reason), path).status
  {
  }

  /** Every handler except the generic one and the validation one passes the exception's
      message through unchanged; the generic one never reveals it. */
  lemma HandlerMessages(ex: ApiException, path: string)
    ensures !ex.FieldValidation? && !ex.Unexpected? && !ex.ResponseStatus? ==> Handle(ex, path).message == ex.message
    ensures ex.Unexpected? || ex.ResponseStatus? ==> Handle(ex, path).message == "Unexpected server error"
    ensures ex.FieldValidation? ==> Handle(ex, path).message == "Validation failed"
  {
  }

  /** handleValidationError's loop: putIfAbsent for each field error, in order. */
  method ValidationErrors(errors: seq<FieldError>) returns (m: FieldMap)
    ensures m == FirstMessages(errors)
    ensures forall i, j :: 0 <= i < j < |m| ==> m[i].0 != m[j].0
  {
    m := [];
    var i := 0;
    while i < |errors|
      invariant 0 <= i <= |errors|
      invariant m == FirstMessages(errors[..i])
    {
      assert errors[..i + 1][..i] == errors[..i];
      if !HasField(m, errors[i].field) {
        m := m + [(errors[i].field, errors[i].message)];
      }
      i := i + 1;
    }
    assert errors[..|errors|] == errors;
    FirstMessagesDistinct(errors);
  }

  // ---- what the validation map holds ----

  /** Some field error names field `f`. */
  predicate Reported(errors: seq<FieldError>, f: string)
  {
    exists p :: 0 <= p < |errors| && errors[p].field == f
  }

  /** The position of the first field error for `f`. */
  function FirstIndex(errors: seq<FieldError>, f: string): (p: nat)
    requires Reported(errors, f)
    ensures p < |errors| && errors[p].field == f
    ensures forall q :: 0 <= q < p ==> errors[q].field != f
  {
    if errors[0].field == f then 0
    else
      assert Reported(errors[1..], f) by {
        var p :| 0 <= p < |errors| && errors[p].field == f;
        assert errors[1..][p - 1].field == f;
      }
      1 + FirstIndex(errors[1..], f)
  }

  lemma FirstIndexOfPrefix(errors: seq<FieldError>, e: FieldError, f: string)
    requires Reported(errors, f)
    ensures Reported(errors + [e], f)
    ensures FirstIndex(errors + [e], f) == FirstIndex(errors, f)
  {
    var p := FirstIndex(errors, f);
    assert (errors + [e])[p].field == f;
  }

  lemma FirstIndexOfNew(errors: seq<FieldError>, e: FieldError)
    requires !Reported(errors, e.field)
    ensures Reported(errors + [e], e.field)
    ensures FirstIndex(errors + [e], e.field) == |errors|
  {
    assert (errors + [e])[|errors|].field == e.field;
  }

  /** The map's keys are pairwise distinct. */
  lemma {:induction false} FirstMessagesDistinct(errors: seq<FieldError>)
    ensures forall i, j :: 0 <= i < j < |FirstMessages(errors)| ==>
      FirstMessages(errors)[i].0 != FirstMessages(errors)[j].0
    decreases |errors|
  {
    if errors != [] {
      var init := errors[..|errors| - 1];
      FirstMessagesDistinct(init);
      var m0 := FirstMessages(init);
      var e := errors[|errors| - 1];
      var m := FirstMessages(errors);
      if !HasField(m0, e.field) {
        assert m == m0 + [(e.field, e.message)];
        assert forall i :: 0 <= i < |m0| ==> m0[i].0 != e.field;
      }
    }
  }

  /** Every key of the map is a reported field, and its entry is fixed once made:
      adding later errors keeps the existing entries as a prefix. */
  lemma {:induction false} FirstMessagesKeys(errors: seq<FieldError>)
    ensures forall i :: 0 <= i < |FirstMessages(errors)| ==> Reported(errors, FirstMessages(errors)[i].0)
    decreases |errors|
  {
    if errors != [] {
      var init := errors[..|errors| - 1];
      var e := errors[|errors| - 1];
      FirstMessagesKeys(init);
      var m0 := FirstMessages(init);
      var m := FirstMessages(errors);
      forall i | 0 <= i < |m| ensures Reported(errors, m[i].0) {
        if i < |m0| {
          assert m[i] == m0[i];
          var p :| 0 <= p < |init| && init[p].field == m0[i].0;
          assert errors[p] == init[p];
        } else {
          assert errors[|errors| - 1].field == m[i].0;
        }
      }
    }
  }

  /** Every reported field has an entry. */
  lemma {:induction false} FirstMessagesCovers(errors: seq<FieldError>)
    ensures forall p :: 0 <= p < |errors| ==> HasField(FirstMessages(errors), errors[p].field)
    decreases |errors|
  {
    if errors != [] {
      var init := errors[..|errors| - 1];
      var e := errors[|errors| - 1];
      FirstMessagesCovers(init);
      var m0 := FirstMessages(init);
      var m := FirstMessages(errors);
      forall p | 0 <= p < |errors| ensures HasField(m, errors[p].field) {
        if p < |init| {
          assert errors[p] == init[p];
          var k :| 0 <= k < |m0| && m0[k].0 == init[p].field;
          assert m[k] == m0[k];
        } else if !HasField(m0, e.field) {
          assert m[|m0|].0 == errors[p].field;
        }
      }
    }
  }

  /** The entry for each field holds the message of that field's first error. */
  lemma {:induction false} FirstMessagesFirst(errors: seq<FieldError>)
    ensures forall i :: 0 <= i < |FirstMessages(errors)| ==>
      Reported(errors, FirstMessages(errors)[i].0) &&
      FirstMessages(errors)[i].1 == errors[FirstIndex(errors, FirstMessages(errors)[i].0)].message
    decreases |errors|
  {
    if errors != [] {
      var init := errors[..|errors| - 1];
      var e := errors[|errors| - 1];
      assert errors == init + [e];
      FirstMessagesFirst(init);
      FirstMessagesKeys(init);
      var m0 := FirstMessages(init);
      var m := FirstMessages(errors);
      forall i | 0 <= i < |m|
        ensures Reported(errors, m[i].0) && m[i].1 == errors[FirstIndex(errors, m[i].0)].message
      {
        if i < |m0| {
          assert m[i] == m0[i];
          FirstIndexOfPrefix(init, e, m0[i].0);
        } else {
          assert m == m0 + [(e.field, e.message)];
          NotReportedWithoutEntry(init, e.field);
          FirstIndexOfNew(init, e);
        }
      }
    }
  }

  /** The keys of `m` are reported fields, listed in the order of their first report. */
  predicate InReportOrder(errors: seq<FieldError>, m: FieldMap)
  {
    forall i, j :: 0 <= i < j < |m| ==> ReportedBefore(errors, m[i].0, m[j].0)
  }

  /** Both fields are reported and `f` is reported first. */
  predicate ReportedBefore(errors: seq<FieldError>, f: string, g: string)
  {
    Reported(errors, f) && Reported(errors, g) && FirstIndex(errors, f) < FirstIndex(errors, g)
  }

  /** The entries appear in the order in which their fields are first reported. */
  lemma {:induction false} FirstMessagesOrder(errors: seq<FieldError>)
    ensures InReportOrder(errors, FirstMessages(errors))
    decreases |errors|
  {
    if errors != [] {
      var init := errors[..|errors| - 1];
      var e := errors[|errors| - 1];
      assert errors == init + [e];
      FirstMessagesOrder(init);
      FirstMessagesKeys(init);
      var m0 := FirstMessages(init);
      var m := FirstMessages(errors);
      forall i, j | 0 <= i < j < |m| ensures ReportedBefore(errors, m[i].0, m[j].0) {
        assert m[i] == m0[i];
        FirstIndexOfPrefix(init, e, m0[i].0);
        if j < |m0| {
          assert m[j] == m0[j];
          FirstIndexOfPrefix(init, e, m0[j].0);
        } else {
          assert m == m0 + [(e.field, e.message)];
          NotReportedWithoutEntry(init, e.field);
          FirstIndexOfNew(init, e);
        }
      }
    } else {
      assert FirstMessages(errors) == [];
    }
  }

  /** A field that has no entry yet was not reported before. */
  lemma NotReportedWithoutEntry(errors: seq<FieldError>, f: string)
    requires !HasField(FirstMessages(errors), f)
    ensures !Reported(errors, f)
  {
    FirstMessagesCovers(errors);
  }
}
