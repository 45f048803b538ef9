/** The logic of the registration page (src/app/auth/cadastro/page.tsx):
    the password-strength score and its label, and what submitting the form
    does — show the schema's messages field by field, or hand the normalised
    data to the store's `register`. The store call itself, the page's loading
    state and the redirect are not part of this model. */
module Cadastro {
  import opened Types
  import opened Text
  import opened Validations
  import opened Utils

  // --------------------------------------------------------------- strength

  /** The class `[^a-zA-Z\d]`. */
  predicate HasSymbol(s: string)
  {
    exists i :: 0 <= i < |s| && !IsAsciiLower(s[i]) && !IsAsciiUpper(s[i]) && !IsDigit(s[i])
  }

  function Point(b: bool): nat
  {
    if b then 1 else 0
  }

  /** One point for each criterion met: length at least 6, a lower-case
      letter, an upper-case letter, a digit, any other character. */
  function StrengthScore(password: string): (n: nat)
    ensures n <= 5
    ensures n == 5 <==>
      JsLength(password) >= 6 && HasLower(password) && HasUpper(password) && HasDigit(password) && HasSymbol(password)
    ensures n == 0 <==> password == []
  {
    Point(JsLength(password) >= 6) + Point(HasLower(password)) + Point(HasUpper(password)) +
    Point(HasDigit(password)) + Point(HasSymbol(password))
  }

  /** `getPasswordStrength`: a counter raised by five independent tests. */
  method GetPasswordStrength(password: string) returns (strength: int)
    ensures strength == StrengthScore(password)
    ensures 0 <= strength <= 5
  {
    strength := 0;
    if JsLength(password) >= 6 {
      strength := strength + 1;
    }
    if HasLower(password) {
      strength := strength + 1;
    }
    if HasUpper(password) {
      strength := strength + 1;
    }
    if HasDigit(password) {
      strength := strength + 1;
    }
    if HasSymbol(password) {
      strength := strength + 1;
    }
  }

  /** A password the registration schema accepts scores at least 4: it is
      long enough and has both cases and a digit (on its first line, hence in
      the whole text). */
  lemma AcceptedPasswordScoresFour(password: string)
    requires JsLength(password) >= 6 && MatchesStrongPattern(password)
    ensures StrengthScore(password) >= 4
  {
    var line := FirstLine(password);
    var i :| 0 <= i < |line| && IsAsciiLower(line[i]);
    assert password[i] == line[i];
    var j :| 0 <= j < |line| && IsAsciiUpper(line[j]);
    assert password[j] == line[j];
    var k :| 0 <= k < |line| && IsDigit(line[k]);
    assert password[k] == line[k];
  }

  /** Appending characters never lowers the score. */
  lemma StrengthGrowsWithText(p: string, q: string)
    ensures StrengthScore(p) <= StrengthScore(p + q)
  {
    JsLengthConcat(p, q);
    var s := p + q;
    if HasLower(p) {
      var i :| 0 <= i < |p| && IsAsciiLower(p[i]);
      assert s[i] == p[i];
    }
    if HasUpper(p) {
      var i :| 0 <= i < |p| && IsAsciiUpper(p[i]);
      assert s[i] == p[i];
    }
    if HasDigit(p) {
      var i :| 0 <= i < |p| && IsDigit(p[i]);
      assert s[i] == p[i];
    }
    if HasSymbol(p) {
      var i :| 0 <= i < |p| && !IsAsciiLower(p[i]) && !IsAsciiUpper(p[i]) && !IsDigit(p[i]);
      assert s[i] == p[i];
    }
  }

  /** A top score does not mean the schema accepts the password: the digit
      here is on the second line. */
  lemma TopScoreYetRejected()
    ensures StrengthScore("aaaaA\n1") == 5 && !MatchesStrongPattern("aaaaA\n1")
  {
    var s := "aaaaA\n1";
    DigitAfterLineBreakIgnored();
    JsLengthBmp(s);
    assert IsAsciiLower(s[0]) && IsAsciiUpper(s[4]) && IsDigit(s[6]);
    assert !IsAsciiLower(s[5]) && !IsAsciiUpper(s[5]) && !IsDigit(s[5]);
  }

  const StrengthLabels: seq<string> := ["Muito fraca", "Fraca", "Razoável", "Boa", "Forte"]

  /** `strengthLabels[s - 1] || 'Muito fraca'`: the label of a score 1..5,
      and the fallback for an index outside the table. */
  function StrengthLabel(strength: int): (shown: string)
    ensures 1 <= strength <= 5 ==> shown == StrengthLabels[strength - 1]
    ensures !(1 <= strength <= 5) ==> shown == "Muito fraca"
  {
    if 1 <= strength <= 5 then StrengthLabels[strength - 1] else "Muito fraca"
  }

  /** Scores 0 and 1 share the lowest label; from 1 to 5 every score has its
      own, and only 5 reads "Forte". */
  lemma StrengthLabelsDistinguish(password: string)
    ensures StrengthLabel(0) == StrengthLabel(1) == "Muito fraca"
    ensures forall a, b :: 1 <= a < b <= 5 ==> StrengthLabel(a) != StrengthLabel(b)
    ensures StrengthLabel(StrengthScore(password)) == "Forte" <==> StrengthScore(password) == 5
  {
  }

  // ----------------------------------------------------------------- submit

  /** `message` is what the last issue on `path` says. */
  ghost predicate LastMessageIs(issues: seq<Issue>, path: string, message: string)
  {
    exists i :: 0 <= i < |issues| && issues[i].path == path && issues[i].message == message &&
      forall j :: i < j < |issues| ==> issues[j].path != path
  }

  /** The map from fields to messages that overwriting in issue order builds. */
  ghost predicate FieldErrorsOf(issues: seq<Issue>, fieldErrors: map<string, string>)
  {
    (forall path :: path in fieldErrors <==> exists i :: 0 <= i < |issues| && issues[i].path == path) &&
    (forall path :: path in fieldErrors ==> LastMessageIs(issues, path, fieldErrors[path]))
  }

  /** A later issue on another field does not change the last message of this one. */
  lemma LastMessageKept(issues: seq<Issue>, path: string, message: string, later: Issue)
    requires LastMessageIs(issues, path, message) && later.path != path
    ensures LastMessageIs(issues + [later], path, message)
  {
    var i :| 0 <= i < |issues| && issues[i].path == path && issues[i].message == message &&
      forall j :: i < j < |issues| ==> issues[j].path != path;
    assert (issues + [later])[i] == issues[i];
  }

  /** The `forEach` of `handleSubmit`: each issue overwrites the message of its field. */
  method CollectFieldErrors(issues: seq<Issue>) returns (fieldErrors: map<string, string>)
    ensures FieldErrorsOf(issues, fieldErrors)
    ensures issues != [] ==> fieldErrors != map[]
  {
    fieldErrors := map[];
    var k := 0;
    while k < |issues|
      invariant 0 <= k <= |issues|
      invariant FieldErrorsOf(issues[..k], fieldErrors)
    {
      var err := issues[k];
      fieldErrors := fieldErrors[err.path := err.message];
      k := k + 1;
      assert issues[..k] == issues[..k - 1] + [err];
      forall path | path in fieldErrors
        ensures LastMessageIs(issues[..k], path, fieldErrors[path])
      {
        if path == err.path {
          assert issues[..k][k - 1] == err;
        } else {
          LastMessageKept(issues[..k - 1], path, fieldErrors[path], err);
        }
      }
    }
    assert issues[..|issues|] == issues;
    if issues != [] {
      assert issues[0].path in fieldErrors;
    }
  }

  /** The register payload: trimmed name, trimmed lower-cased e-mail, the
      password as typed, and the trimmed department or none when blank. */
  function NormalizeRegister(f: RegisterForm): (d: RegisterData)
    ensures d.name == Trim(f.name) && IsTrimmed(d.name)
    ensures d.email == SanitizeEmail(f.email) && IsLowerCase(d.email) && IsTrimmed(d.email)
    ensures d.password == f.password
    ensures d.department.None? <==> f.department.None? || Trim(f.department.value) == []
    ensures d.department.Some? ==> d.department.value == Trim(f.department.value) && IsTrimmed(d.department.value)
  {
    TrimSpec(f.name);
    var department :=
      if f.department.Some? && Trim(f.department.value) != [] then
        TrimSpec(f.department.value);
        Some(Trim(f.department.value))
      else None;
    RegisterData(Trim(f.name), SanitizeEmail(f.email), f.password, department)
  }

  datatype SubmitOutcome =
    | ShowErrors(errors: map<string, string>)
    | CallRegister(data: RegisterData)

  /** `handleSubmit`: a rejected form shows, per field, the last message the
      schema reported for it and does not reach the store; an accepted one
      is normalised and passed to `register`. */
  method HandleSubmit(form: RegisterForm, isEmail: string -> bool) returns (outcome: SubmitOutcome)
    ensures outcome.CallRegister? <==> ParseRegister(form, isEmail).Success?
    ensures outcome.CallRegister? ==> outcome.data == NormalizeRegister(form)
    ensures outcome.ShowErrors? ==> FieldErrorsOf(RegisterIssues(form, isEmail), outcome.errors) && outcome.errors != map[]
  {
    var result := ParseRegister(form, isEmail);
    if result.Failure? {
      var fieldErrors := CollectFieldErrors(result.issues);
      return ShowErrors(fieldErrors);
    }
    outcome := CallRegister(NormalizeRegister(form));
  }

  /** Because every check of a field runs and the last message wins, an empty
      name shows the length message rather than the "required" one. */
  lemma EmptyNameShowsLengthMessage(f: RegisterForm, isEmail: string -> bool)
    requires f.name == []
    ensures LastMessageIs(RegisterIssues(f, isEmail), "name", NameTooShort)
  {
    var names := NameIssues(f.name);
    assert names == [Issue("name", NameRequired), Issue("name", NameTooShort)];
    assert names[1] == Issue("name", NameTooShort);
    var a1 := names + EmailIssues(f.email, isEmail);
    LastMessageAppend(names, EmailIssues(f.email, isEmail), "name", NameTooShort);
    var a2 := a1 + PasswordIssues(f.password);
    LastMessageAppend(a1, PasswordIssues(f.password), "name", NameTooShort);
    var c1 := Check("confirmPassword", JsLength(f.confirmPassword) >= 1, ConfirmRequired);
    var a3 := a2 + c1;
    LastMessageAppend(a2, c1, "name", NameTooShort);
    var c2 := Check("confirmPassword", f.password == f.confirmPassword, PasswordsDiffer);
    LastMessageAppend(a3, c2, "name", NameTooShort);
  }

  /** Issues on other fields appended afterwards leave the last message alone. */
  lemma LastMessageAppend(issues: seq<Issue>, more: seq<Issue>, path: string, message: string)
    requires LastMessageIs(issues, path, message)
    requires forall j :: 0 <= j < |more| ==> more[j].path != path
    ensures LastMessageIs(issues + more, path, message)
  {
    var i :| 0 <= i < |issues| && issues[i].path == path && issues[i].message == message &&
      forall j :: i < j < |issues| ==> issues[j].path != path;
    assert (issues + more)[i] == issues[i];
  }

  /** Validation looks at the name before it is trimmed: surrounding spaces
      let a two-letter name through, and it is registered with two letters. */
  lemma PaddedShortNameRegistered(isEmail: string -> bool)
    requires isEmail("a@b.c")
    ensures var f := RegisterForm("  ab", "a@b.c", "Abcde1", "Abcde1", None);
      ParseRegister(f, isEmail).Success? && NormalizeRegister(f).name == "ab"
  {
    JsLengthBmp("  ab");
    JsLengthBmp("a@b.c");
    JsLengthBmp("Abcde1");
    SamplePasswordMatches();
    TrimPaddedName();
  }

  lemma SamplePasswordMatches()
    ensures MatchesStrongPattern("Abcde1")
  {
    var p := "Abcde1";
    assert p[1..] == "bcde1" && p[2..] == "cde1" && p[3..] == "de1" && p[4..] == "e1" && p[5..] == "1" && p[6..] == [];
    assert FirstLine(p) == p;
    assert IsAsciiUpper(p[0]) && IsAsciiLower(p[1]) && IsDigit(p[5]);
  }

  lemma TrimPaddedName()
    ensures Trim("  ab") == "ab"
  {
    var n := "  ab";
    assert n[1..] == " ab" && n[2..] == "ab";
    assert LeadingSpaces("ab") == 0;
    assert LeadingSpaces(n) == 2;
    assert TrailingSpaces("ab") == 0;
  }
}
