/** The login and registration schemas of src/lib/validations.ts, as the
    list of issues a `safeParse` reports. Every string check of a field runs
    (a failed length check does not stop the next one), fields are checked
    in declaration order, and the object-level password confirmation check
    runs after them and reports on `confirmPassword`. The e-mail format test
    is a parameter `isEmail`. Lengths are UTF-16 lengths (`JsLength`). */
module Validations {
  import opened Types
  import opened Text

  /** One reported problem: the field it is attached to and its message. */
  datatype Issue = Issue(path: string, message: string)

  datatype SafeParse<T> = Success(data: T) | Failure(issues: seq<Issue>)

  /** The form the registration page validates. */
  datatype RegisterForm = RegisterForm(
    name: string,
    email: string,
    password: string,
    confirmPassword: string,
    department: Option<string>)

  const EmailRequired := "E-mail é obrigatório"
  const EmailInvalid := "Digite um e-mail válido"
  const PasswordRequired := "Senha é obrigatória"
  const PasswordTooShort := "Senha deve ter no mínimo 6 caracteres"
  const NameRequired := "Nome é obrigatório"
  const NameTooShort := "Nome deve ter no mínimo 3 caracteres"
  const NameTooLong := "Nome muito longo"
  const PasswordTooWeak := "Senha deve conter letra maiúscula, minúscula e número"
  const ConfirmRequired := "Confirmação de senha é obrigatória"
  const PasswordsDiffer := "As senhas não coincidem"

  /** A single check: no issue when it passes, one issue when it fails. */
  function Check(path: string, ok: bool, message: string): (r: seq<Issue>)
    ensures ok <==> r == []
    ensures !ok ==> r == [Issue(path, message)]
  {
    if ok then [] else [Issue(path, message)]
  }

  /** The issues on the e-mail field: `.min(1)` then `.email()`. */
  function EmailIssues(email: string, isEmail: string -> bool): (r: seq<Issue>)
    ensures r == [] <==> JsLength(email) >= 1 && isEmail(email)
    ensures forall i :: 0 <= i < |r| ==> r[i].path == "email"
  {
    Check("email", JsLength(email) >= 1, EmailRequired) + Check("email", isEmail(email), EmailInvalid)
  }

  // ------------------------------------------------------------------ login

  /** The issues of `loginSchema`: the e-mail's, then the password's. */
  function LoginIssues(c: LoginCredentials, isEmail: string -> bool): (r: seq<Issue>)
    ensures r == [] <==> JsLength(c.email) >= 1 && isEmail(c.email) && JsLength(c.password) >= 6
    ensures forall i :: 0 <= i < |r| ==> r[i].path in {"email", "password"}
    ensures forall i, j :: 0 <= i < j < |r| && r[j].path == "email" ==> r[i].path == "email"
  {
    EmailIssues(c.email, isEmail) +
    Check("password", JsLength(c.password) >= 1, PasswordRequired) +
    Check("password", JsLength(c.password) >= 6, PasswordTooShort)
  }

  /** `loginSchema.safeParse`: accepted exactly when the e-mail is non-empty
      and well formed and the password has at least 6 characters; each
      rejection names the failing field. */
  function ParseLogin(c: LoginCredentials, isEmail: string -> bool): (r: SafeParse<LoginCredentials>)
    ensures r.Success? <==> JsLength(c.email) >= 1 && isEmail(c.email) && JsLength(c.password) >= 6
    ensures r.Success? ==> r.data == c
    ensures JsLength(c.password) < 6 ==> r.Failure? && Issue("password", PasswordTooShort) in r.issues
    ensures JsLength(c.email) < 1 ==> r.Failure? && Issue("email", EmailRequired) in r.issues
    ensures !isEmail(c.email) ==> r.Failure? && Issue("email", EmailInvalid) in r.issues
  {
    var issues := LoginIssues(c, isEmail);
    if issues == [] then Success(c) else Failure(issues)
  }

  // --------------------------------------------------------------- register

  /** The regex `[a-z]`, `[A-Z]` and `\d` classes. */
  predicate IsAsciiLower(c: char) { 'a' <= c <= 'z' }

  predicate IsAsciiUpper(c: char) { 'A' <= c <= 'Z' }

  predicate HasLower(s: string) { exists i :: 0 <= i < |s| && IsAsciiLower(s[i]) }

  predicate HasUpper(s: string) { exists i :: 0 <= i < |s| && IsAsciiUpper(s[i]) }

  predicate HasDigit(s: string) { exists i :: 0 <= i < |s| && IsDigit(s[i]) }

  /** The text before the first line terminator: where `.` can reach from
      the start of the string. */
  function FirstLine(s: string): (r: string)
    ensures |r| <= |s| && r == s[..|r|]
    ensures forall i :: 0 <= i < |r| ==> !IsLineTerminator(r[i])
    ensures |r| < |s| ==> IsLineTerminator(s[|r|])
  {
    if s == [] || IsLineTerminator(s[0]) then [] else [s[0]] + FirstLine(s[1..])
  }

  /** `/^(?=.*[a-z])(?=.*[A-Z])(?=.*\d)/`: each lookahead scans from the start
      with `.*`, so only the first line counts. */
  predicate MatchesStrongPattern(password: string)
  {
    var line := FirstLine(password);
    HasLower(line) && HasUpper(line) && HasDigit(line)
  }

  function NameIssues(name: string): (r: seq<Issue>)
    ensures r == [] <==> 3 <= JsLength(name) <= 100
    ensures forall i :: 0 <= i < |r| ==> r[i].path == "name"
  {
    Check("name", JsLength(name) >= 1, NameRequired) +
    Check("name", JsLength(name) >= 3, NameTooShort) +
    Check("name", JsLength(name) <= 100, NameTooLong)
  }

  function PasswordIssues(password: string): (r: seq<Issue>)
    ensures r == [] <==> JsLength(password) >= 6 && MatchesStrongPattern(password)
    ensures forall i :: 0 <= i < |r| ==> r[i].path == "password"
  {
    Check("password", JsLength(password) >= 1, PasswordRequired) +
    Check("password", JsLength(password) >= 6, PasswordTooShort) +
    Check("password", MatchesStrongPattern(password), PasswordTooWeak)
  }

  /** All issues of `registerSchema`, in the order zod reports them. */
  function RegisterIssues(f: RegisterForm, isEmail: string -> bool): (r: seq<Issue>)
    ensures r == [] <==>
      3 <= JsLength(f.name) <= 100 && JsLength(f.email) >= 1 && isEmail(f.email) &&
      JsLength(f.password) >= 6 && MatchesStrongPattern(f.password) && f.password == f.confirmPassword
    ensures forall i :: 0 <= i < |r| ==> r[i].path in {"name", "email", "password", "confirmPassword"}
  {
    NameIssues(f.name) +
    EmailIssues(f.email, isEmail) +
    PasswordIssues(f.password) +
    Check("confirmPassword", JsLength(f.confirmPassword) >= 1, ConfirmRequired) +
    Check("confirmPassword", f.password == f.confirmPassword, PasswordsDiffer)
  }

  /** `registerSchema.safeParse`: accepted exactly when the name has 3 to 100
      characters, the e-mail is non-empty and well formed, the password has
      at least 6 characters with a lower-case letter, an upper-case letter
      and a digit on its first line, and the confirmation repeats it. */
  function ParseRegister(f: RegisterForm, isEmail: string -> bool): (r: SafeParse<RegisterForm>)
    ensures r.Success? <==>
      3 <= JsLength(f.name) <= 100 && JsLength(f.email) >= 1 && isEmail(f.email) &&
      JsLength(f.password) >= 6 && MatchesStrongPattern(f.password) && f.password == f.confirmPassword
    ensures r.Success? ==> r.data == f
    ensures r.Failure? ==> r.issues == RegisterIssues(f, isEmail) && r.issues != []
  {
    var issues := RegisterIssues(f, isEmail);
    if issues == [] then Success(f) else Failure(issues)
  }

  /** A confirmation that differs from the password is reported last, on
      the `confirmPassword` field. */
  lemma MismatchReportedOnConfirmation(f: RegisterForm, isEmail: string -> bool)
    requires f.password != f.confirmPassword
    ensures var issues := RegisterIssues(f, isEmail);
      issues != [] && issues[|issues| - 1] == Issue("confirmPassword", PasswordsDiffer)
  {
  }

  /** The department never adds an issue. */
  lemma DepartmentNeverRejects(f: RegisterForm, department: Option<string>, isEmail: string -> bool)
    ensures RegisterIssues(f.(department := department), isEmail) == RegisterIssues(f, isEmail)
    ensures ParseRegister(f.(department := department), isEmail).Success? == ParseRegister(f, isEmail).Success?
  {
  }

  /** The pattern reads only the first line: a digit after a line break does
      not count. */
  lemma DigitAfterLineBreakIgnored()
    ensures !MatchesStrongPattern("aaaaA\n1")
    ensures MatchesStrongPattern("aA1")
  {
    var s := "aaaaA\n1";
    assert FirstLine("\n1") == [];
    assert s[1..] == "aaaA\n1" && s[2..] == "aaA\n1" && s[3..] == "aA\n1" && s[4..] == "A\n1" && s[5..] == "\n1";
    assert FirstLine(s) == "aaaaA";
    assert !HasDigit("aaaaA");
    var t := "aA1";
    assert t[1..] == "A1" && t[2..] == "1" && t[3..] == [];
    assert FirstLine(t) == t;
    assert IsAsciiLower(t[0]) && IsAsciiUpper(t[1]) && IsDigit(t[2]);
  }
}
