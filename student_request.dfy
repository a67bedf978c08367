/** student/dto/StudentUpdateRequest: the Bean Validation constraints on the body of a
    student update, as a validity predicate over the fields as bound from JSON (a
    missing field is None). @Size counts UTF-16 code units and ignores null; every
    constraint except @NotNull and @NotBlank accepts null. @Past and @PastOrPresent
    compare with `today`, an epoch-day number supplied by the caller. */
module StudentRequestRules {
  import opened Wrappers
  import opened Text
  import opened StudentModel

  datatype StudentForm = StudentForm(
    studentCode: Option<string>,
    firstName: Option<string>,
    lastName: Option<string>,
    email: Option<string>,
    phone: Option<string>,
    dateOfBirth: Option<int>,
    gender: Option<Gender>,
    addressLine1: Option<string>,
    addressLine2: Option<string>,
    city: Option<string>,
    state: Option<string>,
    postalCode: Option<string>,
    country: Option<string>,
    emergencyContactName: Option<string>,
    emergencyContactPhone: Option<string>,
    emergencyContactRelation: Option<string>,
    courseName: Option<string>,
    major: Option<string>,
    academicYear: Option<int>,
    enrollmentDate: Option<int>,
    expectedGraduationDate: Option<int>,
    gpa: Option<Decimal>,
    creditsCompleted: Option<int>,
    status: Option<StudentStatus>,
    notes: Option<string>)

  /** @NotBlank together with @Size(min, max). */
  predicate RequiredText(v: Option<string>, min: nat, max: nat)
  {
    v.Some? && NotBlank(v.value) && min <= JavaLength(v.value) <= max
  }

  /** @Size(max) alone: null passes. */
  predicate AtMostLength(v: Option<string>, max: nat)
  {
    v.None? || JavaLength(v.value) <= max
  }

  /** `\s` without UNICODE_CHARACTER_CLASS: [ \t\n\x0B\f\r]. */
  predicate IsRegexSpace(c: char)
  {
    c == ' ' || c == '\t' || c == '\n' || c == '\U{000B}' || c == '\U{000C}' || c == '\r'
  }

  /** The bracket class [+0-9()\-\s]. */
  predicate IsPhoneChar(c: char)
  {
    c == '+' || ('0' <= c <= '9') || c == '(' || c == ')' || c == '-' || IsRegexSpace(c)
  }

  /** @Pattern(regexp = "^$|^[+0-9()\\-\\s]{7,30}$") under Matcher.matches. */
  predicate PhoneValid(v: Option<string>)
  {
    v.None? || v.value == []
    || (7 <= |v.value| <= 30 && forall k :: 0 <= k < |v.value| ==> IsPhoneChar(v.value[k]))
  }

  /** Decimal digits of a non-negative integer (BigDecimal.precision of the unscaled value). */
  function NumDigits(n: nat): (d: nat)
    ensures d >= 1
  {
    if n < 10 then 1 else 1 + NumDigits(n / 10)
  }

  function Abs(n: int): nat
  {
    if n < 0 then -n else n
  }

  /** @Digits(integer = 1, fraction = 2): precision - scale <= 1 and scale <= 2. */
  predicate DigitsOk(d: Decimal)
  {
    NumDigits(Abs(d.unscaled)) - d.scale <= 1 && d.scale <= 2
  }

  /** @DecimalMin("0.00"), @DecimalMax("4.00") and @Digits(integer = 1, fraction = 2). */
  predicate GpaValid(v: Option<Decimal>)
  {
    v.None? || (AtLeast(v.value, 0, 2) && AtMost(v.value, 400, 2) && DigitsOk(v.value))
  }

  predicate Valid(f: StudentForm, today: int)
  {
    && RequiredText(f.studentCode, 3, 40)
    && RequiredText(f.firstName, 1, 80)
    && RequiredText(f.lastName, 1, 80)
    && f.email.Some? && NotBlank(f.email.value)
    && PhoneValid(f.phone)
    && (f.dateOfBirth.None? || f.dateOfBirth.value < today)
    && AtMostLength(f.addressLine1, 255)
    && AtMostLength(f.addressLine2, 255)
    && AtMostLength(f.city, 100)
    && AtMostLength(f.state, 100)
    && AtMostLength(f.postalCode, 20)
    && AtMostLength(f.country, 100)
    && AtMostLength(f.emergencyContactName, 120)
    && PhoneValid(f.emergencyContactPhone)
    && AtMostLength(f.emergencyContactRelation, 80)
    && f.courseName.Some? && NotBlank(f.courseName.value) && AtMostLength(f.courseName, 120)
    && AtMostLength(f.major, 120)
    && f.academicYear.Some? && 1 <= f.academicYear.value <= 10
    && f.enrollmentDate.Some? && f.enrollmentDate.value <= today
    && GpaValid(f.gpa)
    && (f.creditsCompleted.None? || f.creditsCompleted.value >= 0)
    && f.status.Some?
    && AtMostLength(f.notes, 1500)
  }

  // ---- properties ----

  lemma {:induction false} DigitsBelow(n: nat, k: nat)
    requires 1 <= k && n < Pow10(k)
    ensures NumDigits(n) <= k
  {
    if n >= 10 {
      assert k >= 2;
      assert n / 10 < Pow10(k - 1);
      DigitsBelow(n / 10, k - 1);
    }
  }

  /** The gpa constraint is a number in [0, 4] with at most two decimals: the one
      integer digit @Digits allows follows from the upper bound. */
  lemma GpaValidIff(d: Decimal)
    ensures GpaValid(Some(d)) <==> d.scale <= 2 && 0 <= d.unscaled <= 4 * Pow10(d.scale)
  {
    if d.scale <= 2 && 0 <= d.unscaled <= 4 * Pow10(d.scale) {
      assert d.unscaled < Pow10(d.scale + 1);
      DigitsBelow(d.unscaled, d.scale + 1);
    }
  }

  /** A phone that passes is empty or has 7 to 30 UTF-16 units, none of them a letter. */
  lemma {:induction false} PhoneValidShape(p: string)
    requires PhoneValid(Some(p))
    ensures p == [] || 7 <= JavaLength(p) <= 30
    ensures forall k :: 0 <= k < |p| ==> !IsAsciiUpper(p[k]) && !IsAsciiLower(p[k])
  {
    if p != [] {
      JavaLengthOfNarrow(p);
    }
  }

  lemma {:induction false} JavaLengthOfNarrow(p: string)
    requires forall k :: 0 <= k < |p| ==> p[k] as int <= 0xFFFF
    ensures JavaLength(p) == |p|
  {
    if p != [] {
      JavaLengthOfNarrow(p[1..]);
    }
  }

  /** A valid form carries every field the service dereferences, with non-blank code,
      names, e-mail and course. */
  lemma ValidHasRequired(f: StudentForm, today: int)
    requires Valid(f, today)
    ensures f.studentCode.Some? && f.firstName.Some? && f.lastName.Some? && f.email.Some?
    ensures f.courseName.Some? && f.academicYear.Some? && f.enrollmentDate.Some? && f.status.Some?
    ensures Trim(f.studentCode.value) != [] && Trim(f.email.value) != []
    ensures Trim(f.firstName.value) != [] && Trim(f.lastName.value) != [] && Trim(f.courseName.value) != []
  {
  }

  /** A form missing a required field is invalid whatever else it holds. */
  lemma MissingRequiredInvalid(f: StudentForm, today: int)
    requires f.studentCode.None? || f.firstName.None? || f.lastName.None? || f.email.None?
      || f.courseName.None? || f.academicYear.None? || f.enrollmentDate.None? || f.status.None?
    ensures !Valid(f, today)
  {
  }
}
