/** The registration form's submit handler, as a pure function from what the
    form holds to what the handler decides: either the honeypot blocked the
    submission, or a message for every field that failed its check together
    with the first failing field in the handler's fixed order (the one that
    receives focus). Submission goes ahead exactly when nothing failed. */
module Submit {
  import opened Options
  import opened JsText
  import opened Dates
  import opened Rules

  /** The fields and groups the handler checks. */
  datatype Field =
    | FirstName | LastName | Email | Password | Confirm | Phone | Dob
    | Gender | Course | Mode | Cgpa | Portfolio | Photo | Comm | Terms

  /** The order in which the handler checks the fields. */
  const CheckOrder: seq<Field> :=
    [FirstName, LastName, Email, Password, Confirm, Phone, Dob,
     Gender, Course, Mode, Cgpa, Portfolio, Photo, Comm, Terms]

  /** Where a field's check sits in the handler. */
  function Rank(f: Field): nat {
    match f
    case FirstName => 0
    case LastName => 1
    case Email => 2
    case Password => 3
    case Confirm => 4
    case Phone => 5
    case Dob => 6
    case Gender => 7
    case Course => 8
    case Mode => 9
    case Cgpa => 10
    case Portfolio => 11
    case Photo => 12
    case Comm => 13
    case Terms => 14
  }

  /** The check order lists every field exactly once, each at its rank. */
  lemma CheckOrderIsRanked()
    ensures |CheckOrder| == 15
    ensures forall i :: 0 <= i < |CheckOrder| ==> Rank(CheckOrder[i]) == i
    ensures forall f: Field :: CheckOrder[Rank(f)] == f
  {
  }

  /** The field at position `i` of the check order has rank `i`. */
  lemma RankedAt(i: int)
    ensures 0 <= i < |CheckOrder| ==> Rank(CheckOrder[i]) == i
  {
  }

  /** A field sits in the check order at its rank. */
  lemma PlacedAt(f: Field)
    ensures |CheckOrder| == 15 && CheckOrder[Rank(f)] == f
  {
  }

  /** What the handler reads from the page. Strings are the controls' raw
      values; the handler trims some of them itself. The two inputs the page
      script hands to the browser are passed in as values: `cgpaNumber` is
      `Number(cgpa)` (`None` for NaN), and `portfolioParses` says whether
      `new URL(...)` accepts the trimmed portfolio value. `today` is the
      clock's date. */
  datatype FormState = FormState(
    nickname: Option<string>,
    firstName: string,
    lastName: string,
    email: string,
    password: string,
    confirm: string,
    phone: string,
    dob: string,
    genderChosen: bool,
    course: string,
    mode: string,
    cgpa: string,
    cgpaNumber: Option<real>,
    portfolio: string,
    portfolioParses: bool,
    photo: Option<FileInfo>,
    commChecked: nat,
    termsAccepted: bool,
    today: Date)

  const RequiredMsg := "This field is required."
  const EmailRequiredMsg := "Email is required."
  const EmailFormatMsg := "Enter a valid email address."
  const PasswordMsg := "Min 8 chars, include a number and a symbol."
  const ConfirmMsg := "Passwords do not match."
  const PhoneMsg := "Enter a valid 10-digit phone number (with optional country code)."
  const DobRequiredMsg := "Date of birth is required."
  const TooYoungMsg := "You must be at least 16 years old."
  const GenderMsg := "Please select a gender."
  const CourseMsg := "Please choose a course."
  const ModeMsg := "Please select a study mode."
  const CgpaMsg := "CGPA must be between 0 and 10."
  const PortfolioMsg := "Enter a valid URL (including http/https)."
  const PhotoMsg := "Only PNG/JPG up to 2 MB."
  const CommMsg := "Select at least one communication method."
  const TermsMsg := "You must agree to the terms."

  /** The CGPA rule: an empty value is skipped; otherwise the number must
      exist and lie in [0, 10]. */
  predicate CgpaFails(st: FormState) {
    st.cgpa != [] &&
    match st.cgpaNumber
    case None => true
    case Some(x) => x < 0.0 || x > 10.0
  }

  /** The message one field's check sets, or `None` when it passes. */
  function Check(f: Field, st: FormState): Option<string>
    requires ValidDate(st.today)
  {
    match f
    case FirstName => if Trim(st.firstName) == [] then Some(RequiredMsg) else None
    case LastName => if Trim(st.lastName) == [] then Some(RequiredMsg) else None
    case Email =>
      if Trim(st.email) == [] then Some(EmailRequiredMsg)
      else if !ValidateEmail(Trim(st.email)) then Some(EmailFormatMsg)
      else None
    case Password => if !ValidatePassword(st.password) then Some(PasswordMsg) else None
    case Confirm => if st.password != st.confirm then Some(ConfirmMsg) else None
    case Phone => if !ValidatePhone(Trim(st.phone)) then Some(PhoneMsg) else None
    case Dob =>
      if st.dob == [] then Some(DobRequiredMsg)
      else if !IsAtLeast16(st.dob, st.today) then Some(TooYoungMsg)
      else None
    case Gender => if !st.genderChosen then Some(GenderMsg) else None
    case Course => if Trim(st.course) == [] then Some(CourseMsg) else None
    case Mode => if st.mode == [] then Some(ModeMsg) else None
    case Cgpa => if CgpaFails(st) then Some(CgpaMsg) else None
    case Portfolio =>
      if !ValidateUrl(Trim(st.portfolio), st.portfolioParses) then Some(PortfolioMsg) else None
    case Photo => if st.photo.Some? && !ValidateFile(st.photo) then Some(PhotoMsg) else None
    case Comm => if st.commChecked == 0 then Some(CommMsg) else None
    case Terms => if !st.termsAccepted then Some(TermsMsg) else None
  }

  /** The handler's running state: the messages set so far and the first
      control flagged. */
  datatype Marks = Marks(errors: map<Field, string>, firstInvalid: Option<Field>)

  /** `setError(el, msg); if (!firstInvalid) firstInvalid = el;` */
  function Flag(m: Marks, f: Field, msg: string): Marks {
    Marks(m.errors[f := msg], if m.firstInvalid.None? then Some(f) else m.firstInvalid)
  }

  /** One check per field: the message it sets, or `None` when it passes. */
  type Checks = Field -> Option<string>

  /** The checks of the form, read against one state of the page. */
  function FieldChecks(st: FormState): Checks
    requires ValidDate(st.today)
  {
    f => Check(f, st)
  }

  lemma FieldChecksAre(st: FormState)
    requires ValidDate(st.today)
    ensures forall f :: FieldChecks(st)(f) == Check(f, st)
  {
  }

  /** The checks run one after another in `order`. */
  function RunChecks(order: seq<Field>, checks: Checks, m: Marks): Marks
    decreases |order|
  {
    if order == [] then m
    else
      var m' := match checks(order[0])
                case None => m
                case Some(msg) => Flag(m, order[0], msg);
      RunChecks(order[1..], checks, m')
  }

  /** Every check of the form, in the handler's order, from a clean slate. */
  function RunAll(checks: Checks): Marks {
    RunChecks(CheckOrder, checks, Marks(map[], None))
  }

  /** The honeypot: the hidden nickname field exists and holds something
      other than whitespace. */
  predicate IsBot(st: FormState) {
    st.nickname.Some? && Trim(st.nickname.value) != []
  }

  /** What the handler decides. */
  datatype Verdict =
    | BotBlocked
    | Checked(errors: map<Field, string>, firstInvalid: Option<Field>)

  /** Whether the browser's submission is cancelled. */
  predicate Blocks(v: Verdict) {
    v.BotBlocked? || v.firstInvalid.Some?
  }

  /** The submit handler. A filled honeypot stops it before any field is
      looked at. */
  function HandleSubmit(st: FormState): (v: Verdict)
    requires ValidDate(st.today)
    ensures v.BotBlocked? <==> IsBot(st)
  {
    if IsBot(st) then BotBlocked
    else
      var m := RunAll(FieldChecks(st));
      Checked(m.errors, m.firstInvalid)
  }

  // ------------------------------------------------------------- reference

  /** The index of the first field in `order` whose check fails, or `|order|`
      when none does. */
  function FirstFailingIndex(order: seq<Field>, checks: Checks): (i: nat)
    ensures i <= |order|
    ensures i < |order| ==> checks(order[i]).Some?
    ensures forall j :: 0 <= j < i ==> checks(order[j]).None?
  {
    if order == [] then 0
    else if checks(order[0]).Some? then 0
    else 1 + FirstFailingIndex(order[1..], checks)
  }

  /** Running the checks records exactly the failing fields of `order`, each
      with its own check's message, and keeps everything recorded before. */
  lemma {:induction false} RunChecksErrors(order: seq<Field>, checks: Checks, m: Marks)
    ensures var r := RunChecks(order, checks, m);
      && (forall f :: f in r.errors <==> f in m.errors || (f in order && checks(f).Some?))
      && (forall f :: f in order && checks(f).Some? ==> r.errors[f] == checks(f).value)
      && (forall f :: f in m.errors && !(f in order && checks(f).Some?) ==> r.errors[f] == m.errors[f])
    decreases |order|
  {
    if order != [] {
      var m' := match checks(order[0])
                case None => m
                case Some(msg) => Flag(m, order[0], msg);
      RunChecksErrors(order[1..], checks, m');
      assert forall f :: f in order <==> f == order[0] || f in order[1..];
    }
  }

  /** Running the checks keeps a first flagged field once there is one, and
      otherwise flags the first failing field of `order`. */
  lemma {:induction false} RunChecksFocus(order: seq<Field>, checks: Checks, m: Marks)
    ensures var r := RunChecks(order, checks, m);
      && (m.firstInvalid.Some? ==> r.firstInvalid == m.firstInvalid)
      && (m.firstInvalid.None? ==>
            var i := FirstFailingIndex(order, checks);
            r.firstInvalid == if i < |order| then Some(order[i]) else None)
    decreases |order|
  {
    if order != [] {
      var m' := match checks(order[0])
                case None => m
                case Some(msg) => Flag(m, order[0], msg);
      RunChecksFocus(order[1..], checks, m');
    }
  }

  /** The first failing index of the check order, read through ranks: the
      field there fails and every field ranked before it passes. */
  lemma FirstFailingByRank(checks: Checks, f: Field)
    ensures var i := FirstFailingIndex(CheckOrder, checks);
      (i < |CheckOrder| && CheckOrder[i] == f)
        <==> checks(f).Some? && forall g :: Rank(g) < Rank(f) ==> checks(g).None?
  {
    var i := FirstFailingIndex(CheckOrder, checks);
    FailingAtIsLowest(checks, i, f);
    LowestIsFailingAt(checks, i, f);
  }

  /** The field at a first failing position fails and outranks no failing field. */
  lemma FailingAtIsLowest(checks: Checks, i: nat, f: Field)
    requires i < |CheckOrder| ==> checks(CheckOrder[i]).Some?
    requires forall j :: 0 <= j < i && j < |CheckOrder| ==> checks(CheckOrder[j]).None?
    ensures i < |CheckOrder| && CheckOrder[i] == f ==>
              checks(f).Some? && forall g :: Rank(g) < Rank(f) ==> checks(g).None?
  {
    if i < |CheckOrder| && CheckOrder[i] == f {
      RankedAt(i);
      forall g | Rank(g) < Rank(f) ensures checks(g).None? {
        PlacedAt(g);
      }
    }
  }

  /** A failing field that outranks no failing field sits at the first
      failing position. */
  lemma LowestIsFailingAt(checks: Checks, i: nat, f: Field)
    requires i <= |CheckOrder|
    requires i < |CheckOrder| ==> checks(CheckOrder[i]).Some?
    requires forall j :: 0 <= j < i ==> checks(CheckOrder[j]).None?
    ensures checks(f).Some? && (forall g :: Rank(g) < Rank(f) ==> checks(g).None?) ==>
              i < |CheckOrder| && CheckOrder[i] == f
  {
    PlacedAt(f);
    RankedAt(i);
  }

  /** No failing index in the check order means no check fails at all. */
  lemma NoFailingIndex(checks: Checks)
    ensures FirstFailingIndex(CheckOrder, checks) == |CheckOrder| <==> forall f :: checks(f).None?
  {
    if FirstFailingIndex(CheckOrder, checks) == |CheckOrder| {
      forall f ensures checks(f).None? {
        PlacedAt(f);
      }
    }
  }

  /** Every field is somewhere in the check order. */
  lemma EveryFieldChecked(f: Field)
    ensures f in CheckOrder
  {
    PlacedAt(f);
  }

  // ------------------------------------------------------------ properties

  /** After every check has run, a field carries a message exactly when its
      check fails, and it is that check's message. */
  lemma RunAllErrors(checks: Checks)
    ensures forall f :: f in RunAll(checks).errors <==> checks(f).Some?
    ensures forall f :: f in RunAll(checks).errors ==> RunAll(checks).errors[f] == checks(f).value
  {
    RunChecksErrors(CheckOrder, checks, Marks(map[], None));
    forall f: Field ensures f in CheckOrder {
      EveryFieldChecked(f);
    }
  }

  /** After every check has run, the flagged field is the failing field of
      lowest rank. */
  lemma RunAllFocus(checks: Checks, f: Field)
    ensures RunAll(checks).firstInvalid == Some(f)
        <==> checks(f).Some? && forall g :: Rank(g) < Rank(f) ==> checks(g).None?
  {
    RunChecksFocus(CheckOrder, checks, Marks(map[], None));
    FirstFailingByRank(checks, f);
  }

  /** After every check has run, nothing is flagged exactly when every check
      passes. */
  lemma RunAllNoFocus(checks: Checks)
    ensures RunAll(checks).firstInvalid.None? <==> forall f :: checks(f).None?
  {
    RunChecksFocus(CheckOrder, checks, Marks(map[], None));
    NoFailingIndex(checks);
  }

  /** When every check passes, running them all leaves the slate clean. */
  lemma RunAllClean(checks: Checks)
    requires forall f :: checks(f).None?
    ensures RunAll(checks) == Marks(map[], None)
  {
    RunAllErrors(checks);
    RunAllNoFocus(checks);
    assert RunAll(checks).errors.Keys == {};
  }

  /** Without the honeypot, a field carries a message exactly when its check
      fails, and it is that check's message: one message per field, nothing
      left over from an earlier pass. */
  lemma SubmitErrors(st: FormState)
    requires ValidDate(st.today) && !IsBot(st)
    ensures HandleSubmit(st).Checked?
    ensures forall f :: f in HandleSubmit(st).errors <==> Check(f, st).Some?
    ensures forall f :: f in HandleSubmit(st).errors ==> HandleSubmit(st).errors[f] == Check(f, st).value
  {
    RunAllErrors(FieldChecks(st));
    FieldChecksAre(st);
  }

  /** Without the honeypot, the focused field is the failing field that comes
      first in the check order. */
  lemma SubmitFocus(st: FormState, f: Field)
    requires ValidDate(st.today) && !IsBot(st)
    ensures HandleSubmit(st).firstInvalid == Some(f)
        <==> Check(f, st).Some? && forall g :: Rank(g) < Rank(f) ==> Check(g, st).None?
  {
    RunAllFocus(FieldChecks(st), f);
    FieldChecksAre(st);
  }

  /** Without the honeypot, nothing is focused exactly when every check
      passes. */
  lemma SubmitNoFocus(st: FormState)
    requires ValidDate(st.today) && !IsBot(st)
    ensures HandleSubmit(st).firstInvalid.None? <==> forall f :: Check(f, st).None?
  {
    RunAllNoFocus(FieldChecks(st));
    FieldChecksAre(st);
  }

  /** The submission is cancelled exactly when the honeypot is filled or some
      check fails. */
  lemma SubmitBlocksIff(st: FormState)
    requires ValidDate(st.today)
    ensures Blocks(HandleSubmit(st)) <==> IsBot(st) || exists f :: Check(f, st).Some?
  {
    if !IsBot(st) {
      SubmitNoFocus(st);
    }
  }

  /** A filled honeypot blocks the submission and records no message, and
      the trimming means whitespace alone does not count as filled. */
  lemma HoneypotShortCircuits(st: FormState)
    requires ValidDate(st.today)
    ensures st.nickname.Some? && !AllWhitespace(st.nickname.value) ==>
              HandleSubmit(st) == BotBlocked && Blocks(HandleSubmit(st))
    ensures (st.nickname.None? || AllWhitespace(st.nickname.value)) ==> HandleSubmit(st).Checked?
  {
    if st.nickname.Some? {
      TrimEmptyIff(st.nickname.value);
    }
  }

  // ------------------------------------------------------------ field rules

  /** A required name fails exactly when it holds only whitespace. */
  lemma NamesRequired(st: FormState)
    requires ValidDate(st.today)
    ensures Check(FirstName, st).Some? <==> AllWhitespace(st.firstName)
    ensures Check(LastName, st).Some? <==> AllWhitespace(st.lastName)
  {
    TrimEmptyIff(st.firstName);
    TrimEmptyIff(st.lastName);
  }

  /** The course, which is trimmed, fails when it holds only whitespace; the
      study mode, which is not, fails only when empty. */
  lemma CourseAndModeRequired(st: FormState)
    requires ValidDate(st.today)
    ensures Check(Course, st).Some? <==> AllWhitespace(st.course)
    ensures Check(Mode, st).Some? <==> st.mode == []
  {
    TrimEmptyIff(st.course);
  }

  /** The e-mail is required first and well-formed second: a blank value
      gets the "required" message, anything else is judged on its trimmed
      form. */
  lemma EmailMessages(st: FormState)
    requires ValidDate(st.today)
    ensures Check(Email, st) == Some(EmailRequiredMsg) <==> AllWhitespace(st.email)
    ensures !AllWhitespace(st.email) ==>
              (Check(Email, st) == Some(EmailFormatMsg) <==> !ValidateEmail(Trim(st.email)))
  {
    TrimEmptyIff(st.email);
  }

  /** An empty CGPA is skipped whatever it would parse to; a CGPA that is
      present fails exactly when it is not a number or lies outside [0, 10]. */
  lemma CgpaOptional(st: FormState)
    requires ValidDate(st.today)
    ensures st.cgpa == [] ==> Check(Cgpa, st).None?
    ensures st.cgpa != [] ==>
      (Check(Cgpa, st).Some? <==>
         st.cgpaNumber.None? || st.cgpaNumber.value < 0.0 || st.cgpaNumber.value > 10.0)
  {
  }

  /** A blank portfolio and a missing photo never fail. */
  lemma PortfolioAndPhotoOptional(st: FormState)
    requires ValidDate(st.today)
    ensures AllWhitespace(st.portfolio) ==> Check(Portfolio, st).None?
    ensures st.photo.None? ==> Check(Photo, st).None?
    ensures st.photo.Some? ==> (Check(Photo, st).Some? <==> !ValidateFile(st.photo))
  {
    TrimEmptyIff(st.portfolio);
  }

  /** The CGPA examples: 11 fails, 7.5 passes, and an empty value is
      skipped whatever it would parse to. */
  lemma CgpaExamples(st: FormState)
    requires ValidDate(st.today)
    ensures Check(Cgpa, st.(cgpa := "11", cgpaNumber := Some(11.0))).Some?
    ensures Check(Cgpa, st.(cgpa := "7.5", cgpaNumber := Some(7.5))).None?
    ensures Check(Cgpa, st.(cgpa := "10", cgpaNumber := Some(10.0))).None?
    ensures Check(Cgpa, st.(cgpa := "")).None?
  {
  }

  /** The confirmation check compares the two raw values and nothing else:
      it passes on a matching pair even when the password itself fails. */
  lemma ConfirmIndependent(st: FormState)
    requires ValidDate(st.today)
    ensures Check(Confirm, st).Some? <==> st.password != st.confirm
    ensures st.password == "abcd1234" && st.confirm == "abcd1234" ==>
              Check(Password, st).Some? && Check(Confirm, st).None?
  {
    PasswordExamples();
  }

  /** The date of birth is required first and old enough second: an empty
      value gets the "required" message, anything else that fails the age
      check gets the "too young" one. */
  lemma DobMessages(st: FormState)
    requires ValidDate(st.today)
    ensures st.dob == [] ==> Check(Dob, st) == Some(DobRequiredMsg)
    ensures st.dob != [] ==> (Check(Dob, st) == Some(TooYoungMsg) <==> !IsAtLeast16(st.dob, st.today))
    ensures st.dob != [] ==> (Check(Dob, st).None? <==> IsAtLeast16(st.dob, st.today))
  {
  }

  // ------------------------------------------------------------ a full form

  /** Every field meets its rule: names, course and e-mail are not blank,
      the trimmed e-mail and phone and the raw password have their shapes,
      the confirmation matches, the person is sixteen, a gender, a mode and
      a channel are chosen, the terms are accepted, and the optional CGPA,
      portfolio and photo are either absent or in order. */
  predicate WellFilled(st: FormState)
    requires ValidDate(st.today)
  {
    && !AllWhitespace(st.firstName) && !AllWhitespace(st.lastName)
    && ValidateEmail(Trim(st.email))
    && ValidatePassword(st.password) && st.confirm == st.password
    && ValidatePhone(Trim(st.phone))
    && IsAtLeast16(st.dob, st.today)
    && st.genderChosen
    && !AllWhitespace(st.course) && st.mode != []
    && !CgpaFails(st)
    && ValidateUrl(Trim(st.portfolio), st.portfolioParses)
    && ValidateFile(st.photo)
    && st.commChecked > 0 && st.termsAccepted
  }

  /** A well-filled form passes each check. */
  lemma WellFilledPasses(st: FormState, f: Field)
    requires ValidDate(st.today) && WellFilled(st)
    ensures Check(f, st).None?
  {
    match f
    case FirstName => TrimEmptyIff(st.firstName);
    case LastName => TrimEmptyIff(st.lastName);
    case Course => TrimEmptyIff(st.course);
    case _ =>
  }

  /** A well-filled form without the honeypot goes through: no message,
      nothing focused, the submission is not cancelled. */
  lemma WellFilledAccepted(st: FormState)
    requires ValidDate(st.today) && !IsBot(st) && WellFilled(st)
    ensures HandleSubmit(st) == Checked(map[], None)
    ensures !Blocks(HandleSubmit(st))
  {
    forall f ensures FieldChecks(st)(f).None? {
      WellFilledPasses(st, f);
    }
    RunAllClean(FieldChecks(st));
  }
}
