/** The sign-up form: its record of fields, the single-field update, password
    validation, and the submit handler with the backend outcomes as inputs. */
module SignUpForm {
  import opened Wrappers
  import Decimal

  /** The form's state; every field holds the text of its input. `role` is
      whatever string the role select last wrote. */
  datatype Form = Form(
    name: string,
    email: string,
    phone: string,
    password: string,
    confirmPassword: string,
    role: string,
    gradeLevel: string,
    admissionNumber: string,
    employeeNumber: string,
    qualification: string,
    childName: string,
    childGrade: string
  )

  const InitialForm: Form := Form("", "", "", "", "", "student", "", "", "", "", "", "")

  /** The `name` attribute of an input, naming one field of the form. */
  datatype Field =
    | Name | Email | Phone | Password | ConfirmPassword | Role
    | GradeLevel | AdmissionNumber | EmployeeNumber | Qualification | ChildName | ChildGrade

  function Get(f: Form, k: Field): string {
    match k
    case Name => f.name
    case Email => f.email
    case Phone => f.phone
    case Password => f.password
    case ConfirmPassword => f.confirmPassword
    case Role => f.role
    case GradeLevel => f.gradeLevel
    case AdmissionNumber => f.admissionNumber
    case EmployeeNumber => f.employeeNumber
    case Qualification => f.qualification
    case ChildName => f.childName
    case ChildGrade => f.childGrade
  }

  /** Two forms that agree on every field are the same form. */
  lemma FormExtensionality(f: Form, g: Form)
    requires forall k: Field :: Get(f, k) == Get(g, k)
    ensures f == g
  {
    assert Get(f, Name) == Get(g, Name);
    assert Get(f, Email) == Get(g, Email);
    assert Get(f, Phone) == Get(g, Phone);
    assert Get(f, Password) == Get(g, Password);
    assert Get(f, ConfirmPassword) == Get(g, ConfirmPassword);
    assert Get(f, Role) == Get(g, Role);
    assert Get(f, GradeLevel) == Get(g, GradeLevel);
    assert Get(f, AdmissionNumber) == Get(g, AdmissionNumber);
    assert Get(f, EmployeeNumber) == Get(g, EmployeeNumber);
    assert Get(f, Qualification) == Get(g, Qualification);
    assert Get(f, ChildName) == Get(g, ChildName);
    assert Get(f, ChildGrade) == Get(g, ChildGrade);
  }

  /** The input-change handler: the named field takes the new value, every other field keeps its own. */
  function HandleInputChange(f: Form, k: Field, value: string): (g: Form)
    ensures Get(g, k) == value
    ensures forall j: Field :: j != k ==> Get(g, j) == Get(f, j)
  {
    match k
    case Name => f.(name := value)
    case Email => f.(email := value)
    case Phone => f.(phone := value)
    case Password => f.(password := value)
    case ConfirmPassword => f.(confirmPassword := value)
    case Role => f.(role := value)
    case GradeLevel => f.(gradeLevel := value)
    case AdmissionNumber => f.(admissionNumber := value)
    case EmployeeNumber => f.(employeeNumber := value)
    case Qualification => f.(qualification := value)
    case ChildName => f.(childName := value)
    case ChildGrade => f.(childGrade := value)
  }

  /** Writing a field its current value changes nothing; of two writes to one field the later wins. */
  lemma InputChangeLaws(f: Form, k: Field, v: string, w: string)
    ensures HandleInputChange(f, k, Get(f, k)) == f
    ensures HandleInputChange(HandleInputChange(f, k, v), k, w) == HandleInputChange(f, k, w)
  {
  }

  /** Writes to two different fields commute. */
  lemma InputChangesCommute(f: Form, j: Field, k: Field, v: string, w: string)
    requires j != k
    ensures HandleInputChange(HandleInputChange(f, j, v), k, w)
         == HandleInputChange(HandleInputChange(f, k, w), j, v)
  {
  }

  /** JavaScript's `length` of a string: UTF-16 code units, two for a character outside the BMP. */
  function Utf16Length(s: string): (n: nat)
    ensures |s| <= n <= 2 * |s|
    ensures (forall i :: 0 <= i < |s| ==> (s[i] as int) < 0x1_0000) ==> n == |s|
    ensures |s| == 1 ==> (n == 2 <==> (s[0] as int) >= 0x1_0000)
  {
    if |s| == 0 then 0
    else Utf16Length(s[..|s| - 1]) + (if (s[|s| - 1] as int) < 0x1_0000 then 1 else 2)
  }

  /** Code units add up over concatenation, so each character contributes on its own. */
  lemma {:induction false} Utf16Additive(a: string, b: string)
    ensures Utf16Length(a + b) == Utf16Length(a) + Utf16Length(b)
    decreases |b|
  {
    if |b| == 0 {
      assert a + b == a;
    } else {
      var front := b[..|b| - 1];
      Utf16Additive(a, front);
      assert (a + b)[..|a + b| - 1] == a + front;
      assert (a + b)[|a + b| - 1] == b[|b| - 1];
    }
  }

  /** Three characters outside the BMP are six code units: a long enough password. */
  lemma AstralPasswordLength(c: char)
    requires (c as int) >= 0x1_0000
    ensures Utf16Length([c, c, c]) == 6
    ensures ValidateForm(InitialForm.(password := [c, c, c], confirmPassword := [c, c, c])) == Valid
  {
    Utf16Additive([c], [c]);
    assert [c] + [c] == [c, c];
    Utf16Additive([c, c], [c]);
    assert [c, c] + [c] == [c, c, c];
  }

  /** Text made of lower-case ASCII letters has one code unit per character. */
  lemma LowercaseAsciiLength(s: string)
    requires forall i :: 0 <= i < |s| ==> 'a' <= s[i] <= 'z'
    ensures Utf16Length(s) == |s|
  {
  }

  const MinPasswordLength: nat := 6
  const MismatchMessage: string := "Passwords do not match"
  const TooShortMessage: string := "Password must be at least 6 characters"

  datatype Validation = Valid | Invalid(message: string)

  /** Password checks in order: the confirmation must match first, then the length must reach six. */
  function ValidateForm(f: Form): (v: Validation)
    ensures v.Valid? <==> f.password == f.confirmPassword && Utf16Length(f.password) >= MinPasswordLength
    ensures f.password != f.confirmPassword ==> v == Invalid(MismatchMessage)
    ensures f.password == f.confirmPassword && Utf16Length(f.password) < MinPasswordLength ==> v == Invalid(TooShortMessage)
  {
    if f.password != f.confirmPassword then Invalid(MismatchMessage)
    else if Utf16Length(f.password) < MinPasswordLength then Invalid(TooShortMessage)
    else Valid
  }

  /** Six characters is enough; five is not; a mismatch is reported even when too short. */
  lemma ValidationBoundaries()
    ensures ValidateForm(InitialForm.(password := "abcdef", confirmPassword := "abcdef")) == Valid
    ensures ValidateForm(InitialForm.(password := "abcde", confirmPassword := "abcde")) == Invalid(TooShortMessage)
    ensures ValidateForm(InitialForm.(password := "abc", confirmPassword := "abd")) == Invalid(MismatchMessage)
  {
    LowercaseAsciiLength("abcdef");
    LowercaseAsciiLength("abcde");
  }

  /** A supplied number if non-empty, else the prefix followed by the timestamp. */
  function NumberOrFallback(supplied: string, prefix: string, nowMs: nat): (r: string)
    ensures |r| > 0
    ensures |supplied| > 0 ==> r == supplied
    ensures |supplied| == 0 ==>
              && |prefix| < |r| && r[..|prefix|] == prefix
              && Decimal.Canonical(r[|prefix|..]) && Decimal.ParseDigits(r[|prefix|..]) == nowMs
  {
    Decimal.ParseDigitsOfDigits(nowMs);
    if |supplied| > 0 then supplied
    else
      assert (prefix + Decimal.Digits(nowMs))[|prefix|..] == Decimal.Digits(nowMs);
      prefix + Decimal.Digits(nowMs)
  }

  /** The admission number of a student row: the one typed in, or "ADM" and the timestamp. */
  function AdmissionNumberOf(f: Form, nowMs: nat): (r: string)
    ensures |f.admissionNumber| > 0 ==> r == f.admissionNumber
    ensures |f.admissionNumber| == 0 ==> FallbackTimestamp(r, "ADM") == Some(nowMs)
    ensures |f.admissionNumber| == 0 ==> |r| > 3 && Decimal.Canonical(r[3..])
  {
    FallbackRoundTrip("ADM", nowMs);
    NumberOrFallback(f.admissionNumber, "ADM", nowMs)
  }

  /** The employee number of a teacher row: the one typed in, or "EMP" and the timestamp. */
  function EmployeeNumberOf(f: Form, nowMs: nat): (r: string)
    ensures |f.employeeNumber| > 0 ==> r == f.employeeNumber
    ensures |f.employeeNumber| == 0 ==> FallbackTimestamp(r, "EMP") == Some(nowMs)
    ensures |f.employeeNumber| == 0 ==> |r| > 3 && Decimal.Canonical(r[3..])
  {
    FallbackRoundTrip("EMP", nowMs);
    NumberOrFallback(f.employeeNumber, "EMP", nowMs)
  }

  /** Recovers the timestamp from a generated number, when it has the given prefix and only digits after it. */
  function FallbackTimestamp(s: string, prefix: string): (t: Option<nat>)
    ensures t.Some? ==> |prefix| < |s| && s[..|prefix|] == prefix
  {
    if |prefix| < |s| && s[..|prefix|] == prefix && Decimal.AllDigits(s[|prefix|..])
    then Some(Decimal.ParseDigits(s[|prefix|..]))
    else None
  }

  /** A generated number carries the timestamp it was made from, so two generated
      numbers differ whenever their timestamps do. */
  lemma FallbackRoundTrip(prefix: string, nowMs: nat)
    ensures FallbackTimestamp(NumberOrFallback("", prefix, nowMs), prefix) == Some(nowMs)
  {
    var r := NumberOrFallback("", prefix, nowMs);
    assert r[|prefix|..] == Decimal.Digits(nowMs);
    Decimal.ParseDigitsOfDigits(nowMs);
  }

  /** The admission and employee numbers are never empty. */
  lemma NumbersNonEmpty(f: Form, nowMs: nat)
    ensures |AdmissionNumberOf(f, nowMs)| > 0 && |EmployeeNumberOf(f, nowMs)| > 0
  {
  }

  /** The placeholder institution every new account is attached to. */
  const DefaultInstitutionId: string := "550e8400-e29b-41d4-a716-446655440000"

  datatype Table = Users | Students | Teachers

  /** One row insert issued after the account is created. */
  datatype Insert =
    | UserInsert(id: string, email: string, name: string, role: string, phone: string, institutionId: string)
    | StudentInsert(userId: string, admissionNumber: string, gradeLevel: string)
    | TeacherInsert(userId: string, employeeNumber: string, qualification: string)
  {
    function TableOf(): Table {
      match this
      case UserInsert(_, _, _, _, _, _) => Users
      case StudentInsert(_, _, _) => Students
      case TeacherInsert(_, _, _) => Teachers
    }
  }

  /** The role-specific profile row: a students row for "student", a teachers row
      for "teacher", none for any other role. */
  function RoleInsert(f: Form, userId: string, nowMs: nat): (r: Option<Insert>)
    ensures r.Some? <==> f.role == "student" || f.role == "teacher"
    ensures f.role == "student" ==>
              r.value.TableOf() == Students && r.value == StudentInsert(userId, AdmissionNumberOf(f, nowMs), f.gradeLevel)
    ensures f.role == "teacher" ==>
              r.value.TableOf() == Teachers && r.value == TeacherInsert(userId, EmployeeNumberOf(f, nowMs), f.qualification)
  {
    if f.role == "student" then Some(StudentInsert(userId, AdmissionNumberOf(f, nowMs), f.gradeLevel))
    else if f.role == "teacher" then Some(TeacherInsert(userId, EmployeeNumberOf(f, nowMs), f.qualification))
    else None
  }

  /** What the backend did with the account-creation request. */
  datatype SignUpOutcome =
    | NoBackend                        // the client is not configured (demo mode)
    | SignUpRejected(message: string)  // the call returned an error
    | SignUpThrew(message: string)     // the call threw; "" when the error has no message
    | SignedUp(user: Option<string>)   // the call succeeded, with or without a new user id

  const RegistrationFallbackMessage: string := "An error occurred during registration"

  /** The form's visible state around submission. */
  datatype FormUi = FormUi(error: string, isLoading: bool)

  datatype SubmitResult = SubmitResult(
    ui: FormUi,
    calledBackend: bool,   // whether the sign-up request was sent
    inserts: seq<Insert>,  // the profile rows written afterwards, in order
    backToLogin: bool      // whether the form handed control back to the login screen
  )

  /** The submit handler: clear the error, validate, and on failure return before
      touching the loading flag or the backend; otherwise create the account and its rows. */
  function HandleSubmit(ui: FormUi, f: Form, nowMs: nat, outcome: SignUpOutcome): (r: SubmitResult)
    ensures ValidateForm(f).Invalid? ==>
              && r.ui == FormUi(ValidateForm(f).message, ui.isLoading)
              && !r.calledBackend && r.inserts == [] && !r.backToLogin
    ensures ValidateForm(f).Valid? ==> !r.ui.isLoading
    ensures ValidateForm(f).Valid? ==>
              (r.backToLogin <==> outcome.NoBackend? || (outcome.SignedUp? && outcome.user.Some?))
    ensures ValidateForm(f).Valid? && (outcome.NoBackend? || outcome.SignedUp?) ==> r.ui.error == ""
    ensures r.calledBackend <==> ValidateForm(f).Valid? && !outcome.NoBackend?
    ensures |r.inserts| > 0 <==> ValidateForm(f).Valid? && outcome.SignedUp? && outcome.user.Some?
    ensures ValidateForm(f).Valid? && outcome.SignedUp? && outcome.user.Some? ==>
              && r.inserts[0] == UserInsert(outcome.user.value, f.email, f.name, f.role, f.phone, DefaultInstitutionId)
              && r.inserts[1..] == (match RoleInsert(f, outcome.user.value, nowMs)
                                    case Some(row) => [row]
                                    case None => [])
              && r.ui.error == "" && r.backToLogin
    ensures ValidateForm(f).Valid? && outcome.SignUpRejected? ==> r.ui.error == outcome.message && !r.backToLogin
    ensures ValidateForm(f).Valid? && outcome.SignUpThrew? ==>
              r.ui.error == (if outcome.message == "" then RegistrationFallbackMessage else outcome.message)
  {
    match ValidateForm(f)
    case Invalid(message) => SubmitResult(FormUi(message, ui.isLoading), false, [], false)
    case Valid =>
      var done := FormUi("", false);
      match outcome
      case NoBackend => SubmitResult(done, false, [], true)
      case SignUpRejected(message) => SubmitResult(done.(error := message), true, [], false)
      case SignUpThrew(message) =>
        SubmitResult(done.(error := if message == "" then RegistrationFallbackMessage else message), true, [], false)
      case SignedUp(None) => SubmitResult(done, true, [], false)
      case SignedUp(Some(id)) =>
        var userRow := UserInsert(id, f.email, f.name, f.role, f.phone, DefaultInstitutionId);
        var roleRows := match RoleInsert(f, id, nowMs) case Some(row) => [row] case None => [];
        SubmitResult(done, true, [userRow] + roleRows, true)
  }

  /** Whatever the submission did, at most one row is written per table, and the
      users row always comes first. */
  lemma SubmitWritesEachTableOnce(ui: FormUi, f: Form, nowMs: nat, outcome: SignUpOutcome)
    ensures var r := HandleSubmit(ui, f, nowMs, outcome);
            && |r.inserts| <= 2
            && (|r.inserts| > 0 ==> r.inserts[0].TableOf() == Users)
            && (forall i, j :: 0 <= i < j < |r.inserts| ==> r.inserts[i].TableOf() != r.inserts[j].TableOf())
  {
  }
}
