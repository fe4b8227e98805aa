/** The demo form-validation backend: the `/api/demo/buttons` and
    `/api/demo/customer` handlers and the code-to-response table they share.
    Each handler honours an override code, then runs an ordered chain of field
    checks and reports the first one that fails. */
module Backend {
  import opened Wrappers
  import opened Text

  // ---------------------------------------------------------------------------
  // Requests: every field may be absent
  // ---------------------------------------------------------------------------

  datatype ButtonsRequest = ButtonsRequest(
    username: Option<string>,
    password: Option<string>,
    email: Option<string>,
    option: Option<string>,    // approve | reject | pending
    radio3: Option<string>,    // manu | che
    platform: Option<string>,  // android | window | ios
    dropdown: Option<string>,
    forceCode: Option<int>)    // 200 | 400 | 500

  datatype CustomerRequest = CustomerRequest(
    title: Option<string>,
    firstName: Option<string>,
    lastName: Option<string>,
    ageRange: Option<int>,     // 1 | 2 | 3
    agreeToTerms: Option<bool>,
    subscribeNewsletter: Option<bool>,
    forceCode: Option<int>)    // 200 | 400 | 500

  // ---------------------------------------------------------------------------
  // Outcomes
  // ---------------------------------------------------------------------------

  /** What a handler does with a request: return the success body, return a
      field-level error body, or raise an HTTP exception whose detail is a
      generic body. The JSON body is `{"message": Message(), "code": Code()}`. */
  datatype Outcome =
    | Ok
    | FieldError(message: string)
    | Raised(status: int, detail: string)
  {
    function Message(): string {
      match this
      case Ok => "ok"
      case FieldError(m) => m
      case Raised(_, d) => d
    }

    function Code(): int {
      match this
      case Ok => 200
      case FieldError(_) => 400
      case Raised(s, _) => s
    }
  }

  const BadRequest: Outcome := Raised(400, "bad_request")
  const ServerError: Outcome := Raised(500, "server_error")

  /** `_response_for_code`: 200 is returned as the success body, 400 raises the
      generic bad-request body, and every other code raises the generic
      server-error body. It never yields a field-level error. */
  function ResponseForCode(code: int): (r: Outcome)
    ensures !r.FieldError?
    ensures r.Ok? <==> code == 200
    ensures code == 400 ==> r == BadRequest
    ensures code != 200 && code != 400 ==> r == ServerError
    ensures r.Code() in {200, 400, 500}
    ensures code in {200, 400, 500} ==> r.Code() == code
  {
    if code == 200 then Ok
    else if code == 400 then BadRequest
    else ServerError
  }

  /** The override codes a handler honours before looking at any field. */
  predicate IsOverride(forceCode: Option<int>) {
    forceCode.Some? && forceCode.value in {200, 400, 500}
  }

  // ---------------------------------------------------------------------------
  // Field rules
  // ---------------------------------------------------------------------------

  /** `not v or not v.strip()`: absent, empty, or only whitespace (stated
      through the characters; `BlankIsStripEmpty` shows it is the same). */
  predicate Blank(v: Option<string>) {
    v.None? || AllIn(v.value, PyWhitespace)
  }

  /** `Blank` is exactly Python's `not v or not v.strip()`: absent, empty, or
      empty once stripped. */
  lemma BlankIsStripEmpty(v: Option<string>)
    ensures Blank(v) <==> v.None? || v.value == "" || Trim(v.value, PyWhitespace) == ""
  {
  }

  /** `re.fullmatch(r"^[a-zA-Z0-9]+$", s)` */
  predicate UsernameShape(s: string) {
    |s| >= 1 && forall k :: 0 <= k < |s| ==> IsAsciiAlnum(s[k])
  }

  /** `re.search(r"\d", s)` */
  predicate HasDigit(s: string) {
    exists k :: 0 <= k < |s| && IsAsciiDigit(s[k])
  }

  /** `re.fullmatch(r"^[a-zA-Z]{2,}$", s)` */
  predicate NameShape(s: string) {
    |s| >= 2 && forall k :: 0 <= k < |s| ==> IsAsciiLetter(s[k])
  }

  /** Characters of `[a-zA-Z0-9@.\-]`, the part before the last `@`. */
  predicate IsLocalChar(c: char) { IsAsciiAlnum(c) || c == '@' || c == '.' || c == '-' }

  /** Characters of `[a-zA-Z0-9.\-]`, the part between `@` and the last `.`. */
  predicate IsDomainChar(c: char) { IsAsciiAlnum(c) || c == '.' || c == '-' }

  /** `s` reads as `X@Y.Z` with the `@` at `at` and the `.` at `dot`, where X
      is non-empty over the local characters, Y is non-empty over the domain
      characters and Z has at least two ASCII letters. */
  predicate EmailSplitAt(s: string, at: int, dot: int) {
    && 1 <= at && at + 2 <= dot && dot + 3 <= |s|
    && s[at] == '@' && s[dot] == '.'
    && (forall k :: 0 <= k < at ==> IsLocalChar(s[k]))
    && (forall k :: at < k < dot ==> IsDomainChar(s[k]))
    && (forall k :: dot < k < |s| ==> IsAsciiLetter(s[k]))
  }

  /** The language of `[a-zA-Z0-9@.\-]+@[a-zA-Z0-9.\-]+\.[a-zA-Z]{2,}`. */
  ghost predicate EmailLanguage(s: string) {
    exists at, dot :: EmailSplitAt(s, at, dot)
  }

  /** Decides the email pattern without backtracking: since Y and Z contain no
      `@` and Z contains no `.`, the only possible split is at the last `@`
      and the last `.`. */
  function EmailShape(s: string): (b: bool)
    ensures b <==> EmailLanguage(s)
  {
    var at := LastIndexOf(s, '@');
    var dot := LastIndexOf(s, '.');
    if EmailSplitAt(s, at, dot) then true
    else
      EmailSplitIsUnique(s);
      false
  }

  /** Any split of the email pattern is at the last `@` and the last `.`. */
  lemma EmailSplitIsUnique(s: string)
    ensures forall at, dot :: EmailSplitAt(s, at, dot) ==>
      at == LastIndexOf(s, '@') && dot == LastIndexOf(s, '.')
  {
  }

  // ---------------------------------------------------------------------------
  // Messages
  // ---------------------------------------------------------------------------

  const MsgRequired := "Required"
  const MsgUsername := "Please enter a valid username"
  const MsgPassword := "Please enter a valid password"
  const MsgEmail := "Please enter a valid email address"
  const MsgTitle := "Please select a title"
  const MsgFirstRequired := "First name is required"
  const MsgFirstShape := "First name must contain only letters (minimum 2 characters)"
  const MsgLastRequired := "Last name is required"
  const MsgLastShape := "Last name must contain only letters (minimum 2 characters)"
  const MsgAgeMissing := "Please select an age range"
  const MsgAgeInvalid := "Invalid age range"
  const MsgTerms := "You must agree to terms"

  // ---------------------------------------------------------------------------
  // Handlers
  // ---------------------------------------------------------------------------

  /** The outcome the Buttons form's `option` forces once every field is valid:
      `(option or "").lower()` equal to "reject" or "pending" raises, anything
      else succeeds. */
  function OptionOutcome(option: Option<string>): (r: Outcome)
    ensures r == BadRequest <==> AsciiLower(option.GetOr("")) == "reject"
    ensures r == ServerError <==> AsciiLower(option.GetOr("")) == "pending"
    ensures r == Ok <==> AsciiLower(option.GetOr("")) !in {"reject", "pending"}
    ensures option.None? ==> r == Ok
  {
    var opt := AsciiLower(option.GetOr(""));
    if opt == "reject" then ResponseForCode(400)
    else if opt == "pending" then ResponseForCode(500)
    else ResponseForCode(200)
  }

  /** `demo_buttons`: the override, then the field checks. */
  function DemoButtons(req: ButtonsRequest): (r: Outcome)
    ensures IsOverride(req.forceCode) ==> r == ResponseForCode(req.forceCode.value)
    ensures r.FieldError? ==> !IsOverride(req.forceCode) && r.message in {MsgRequired, MsgUsername, MsgPassword, MsgEmail}
    ensures r.Raised? ==> r in {BadRequest, ServerError}
  {
    if IsOverride(req.forceCode) then ResponseForCode(req.forceCode.value)
    else ButtonsChecks(req.username, req.password, req.email, req.option)
  }

  /** The body of `demo_buttons` after the override test. */
  function ButtonsChecks(username: Option<string>, password: Option<string>,
                         email: Option<string>, option: Option<string>): (r: Outcome)
    ensures r.FieldError? ==> r.message in {MsgRequired, MsgUsername, MsgPassword, MsgEmail}
    ensures !r.FieldError? ==> r == OptionOutcome(option)
    ensures r.FieldError? && r.message == MsgRequired ==> Blank(username) || Blank(password) || Blank(email)
  {
    if Blank(username) then FieldError(MsgRequired)
    else if !UsernameShape(username.value) then FieldError(MsgUsername)
    else if Blank(password) then FieldError(MsgRequired)
    else if !HasDigit(password.value) then FieldError(MsgPassword)
    else if Blank(email) then FieldError(MsgRequired)
    else if !EmailShape(email.value) then FieldError(MsgEmail)
    else OptionOutcome(option)
  }

  /** `demo_customer`: the override, then the field checks. */
  function DemoCustomer(req: CustomerRequest): (r: Outcome)
    ensures IsOverride(req.forceCode) ==> r == ResponseForCode(req.forceCode.value)
    ensures r.FieldError? ==> !IsOverride(req.forceCode) && r.message in {MsgTitle, MsgFirstRequired, MsgFirstShape, MsgLastRequired,
                                    MsgLastShape, MsgAgeMissing, MsgAgeInvalid, MsgTerms}
    ensures r.Raised? ==> r in {BadRequest, ServerError}
  {
    if IsOverride(req.forceCode) then ResponseForCode(req.forceCode.value)
    else CustomerChecks(req.title, req.firstName, req.lastName, req.ageRange, req.agreeToTerms)
  }

  /** The body of `demo_customer` after the override test. */
  function CustomerChecks(title: Option<string>, firstName: Option<string>, lastName: Option<string>,
                          ageRange: Option<int>, agreeToTerms: Option<bool>): (r: Outcome)
    ensures r.FieldError? ==> r.message in {MsgTitle, MsgFirstRequired, MsgFirstShape, MsgLastRequired,
                                    MsgLastShape, MsgAgeMissing, MsgAgeInvalid, MsgTerms}
    ensures !r.FieldError? ==> r == Ok
    ensures r == Ok ==> agreeToTerms == Some(true) && ageRange.Some? && ageRange.value in {1, 2, 3}
  {
    if Blank(title) then FieldError(MsgTitle)
    else if Blank(firstName) then FieldError(MsgFirstRequired)
    else if !NameShape(firstName.value) then FieldError(MsgFirstShape)
    else if Blank(lastName) then FieldError(MsgLastRequired)
    else if !NameShape(lastName.value) then FieldError(MsgLastShape)
    else if ageRange.None? then FieldError(MsgAgeMissing)
    else if ageRange.value !in {1, 2, 3} then FieldError(MsgAgeInvalid)
    else if agreeToTerms.None? || !agreeToTerms.value then FieldError(MsgTerms)
    else ResponseForCode(200)
  }
}
