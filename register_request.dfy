/** auth/dto/RegisterRequest: the Bean Validation constraints on a registration, as a
    validity predicate over the three fields as bound from JSON (a missing field is
    None). The password pattern is java.util.regex applied with Matcher.matches, so the
    whole password must match. */
module RegisterRequestRules {
  import opened Wrappers
  import opened Text
  import AuthService

  datatype RegisterForm = RegisterForm(fullName: Option<string>, email: Option<string>, password: Option<string>)

  // ---- the password pattern ^(?=.*[a-z])(?=.*[A-Z])(?=.*\d)(?=.*[^A-Za-z0-9]).+$ ----

  /** The characters `.` does not match without DOTALL: Java's line terminators. */
  predicate IsLineTerminator(c: char)
  {
    c == '\n' || c == '\r' || c == '\U{0085}' || c == '\U{2028}' || c == '\U{2029}'
  }

  /** The four character classes of the lookaheads; `\d` without UNICODE_CHARACTER_CLASS
      is [0-9]. */
  datatype CharClass = Lower | Upper | Digit | NotAlnum

  predicate InClass(cls: CharClass, c: char)
  {
    match cls
    case Lower => 'a' <= c <= 'z'
    case Upper => 'A' <= c <= 'Z'
    case Digit => '0' <= c <= '9'
    case NotAlnum => !('a' <= c <= 'z') && !('A' <= c <= 'Z') && !('0' <= c <= '9')
  }

  /** `.` matches every one of the first k characters. */
  predicate DotsBefore(p: string, k: int)
    requires 0 <= k <= |p|
  {
    forall j :: 0 <= j < k ==> !IsLineTerminator(p[j])
  }

  /** (?=.*X) at the start: some character of class X that `.*` can reach. */
  predicate LookaheadFinds(p: string, cls: CharClass)
  {
    exists k :: 0 <= k < |p| && DotsBefore(p, k) && InClass(cls, p[k])
  }

  /** `.+$` under Matcher.matches: at least one character, all matched by `.`. */
  predicate DotPlusWhole(p: string)
  {
    |p| >= 1 && DotsBefore(p, |p|)
  }

  predicate MatchesPasswordPattern(p: string)
  {
    LookaheadFinds(p, Lower) && LookaheadFinds(p, Upper) && LookaheadFinds(p, Digit)
    && LookaheadFinds(p, NotAlnum) && DotPlusWhole(p)
  }

  predicate HasClass(p: string, cls: CharClass)
  {
    exists k :: 0 <= k < |p| && InClass(cls, p[k])
  }

  /** The lookaheads are independent of position: the pattern holds exactly when the
      password is a non-empty single line containing each of the four classes somewhere. */
  lemma PatternIgnoresPositions(p: string)
    ensures MatchesPasswordPattern(p) <==>
      |p| >= 1 && (forall j :: 0 <= j < |p| ==> !IsLineTerminator(p[j]))
      && HasClass(p, Lower) && HasClass(p, Upper) && HasClass(p, Digit) && HasClass(p, NotAlnum)
  {
    if |p| >= 1 && (forall j :: 0 <= j < |p| ==> !IsLineTerminator(p[j])) {
      forall cls | HasClass(p, cls) ensures LookaheadFinds(p, cls) {
        var k :| 0 <= k < |p| && InClass(cls, p[k]);
        assert DotsBefore(p, k);
      }
    }
  }

  /** Blanks, tabs and every non-ASCII character count as the special character; only
      the ASCII digits count as a digit. */
  lemma SpecialAndDigitClasses(c: char)
    ensures IsJavaWhitespace(c) || c as int >= 0x80 ==> InClass(NotAlnum, c)
    ensures InClass(Digit, c) <==> IsAsciiDigit(c)
  {
  }

  /** A password without an ASCII digit never matches, whatever other digits it holds. */
  lemma NoAsciiDigitRejected(p: string)
    requires forall j :: 0 <= j < |p| ==> !IsAsciiDigit(p[j])
    ensures !MatchesPasswordPattern(p)
  {
  }

  /** The pattern subsumes @NotBlank: a matching password holds a letter, which trim()
      keeps. */
  lemma PatternImpliesNotBlank(p: string)
    requires MatchesPasswordPattern(p)
    ensures NotBlank(p)
  {
    var k :| 0 <= k < |p| && DotsBefore(p, k) && InClass(Lower, p[k]);
    assert !IsTrimmed(p[k]);
    TrimEmptyIff(p);
  }

  // ---- the fields ----

  /** @NotBlank and @Size(min = 2, max = 120); @Size counts UTF-16 code units. */
  predicate FullNameValid(v: Option<string>)
  {
    v.Some? && NotBlank(v.value) && 2 <= JavaLength(v.value) <= 120
  }

  /** @NotBlank; the @Email syntax is not modelled. */
  predicate EmailValid(v: Option<string>)
  {
    v.Some? && NotBlank(v.value)
  }

  /** @NotBlank, @Size(min = 8, max = 72) and @Pattern. */
  predicate PasswordValid(v: Option<string>)
  {
    v.Some? && NotBlank(v.value) && 8 <= JavaLength(v.value) <= 72 && MatchesPasswordPattern(v.value)
  }

  predicate Valid(f: RegisterForm)
  {
    FullNameValid(f.fullName) && EmailValid(f.email) && PasswordValid(f.password)
  }

  /** @Valid on the controller argument: the request reaches AuthService.register only
      when every constraint holds. */
  function Validated(f: RegisterForm): (r: Option<AuthService.RegisterRequest>)
    ensures r.Some? <==> Valid(f)
    ensures r.Some? ==> f.fullName == Some(r.value.fullName) && f.email == Some(r.value.email)
                        && f.password == Some(r.value.password)
  {
    if Valid(f) then Some(AuthService.RegisterRequest(f.fullName.value, f.email.value, f.password.value))
    else None
  }

  /** The password constraint is the length bound plus the pattern: @NotBlank adds
      nothing to it. */
  lemma PasswordValidIff(v: Option<string>)
    ensures PasswordValid(v) <==>
      v.Some? && 8 <= JavaLength(v.value) <= 72 && MatchesPasswordPattern(v.value)
  {
    if v.Some? && MatchesPasswordPattern(v.value) {
      PatternImpliesNotBlank(v.value);
    }
  }

  /** A missing field is always a violation. */
  lemma MissingFieldInvalid(f: RegisterForm)
    requires f.fullName.None? || f.email.None? || f.password.None?
    ensures Validated(f).None?
  {
  }

  /** What register then stores is never empty: a valid request keeps a non-empty name
      after trim() and a non-empty normalised e-mail. */
  lemma ValidRequestStoresNonEmpty(f: RegisterForm)
    requires Valid(f)
    ensures Trim(f.fullName.value) != [] && NormalizeEmail(f.email.value) != []
  {
  }
}
