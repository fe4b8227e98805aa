/** Properties of the demo backend handlers: override precedence, the
    first-failure-wins order against a data-driven rule list, the trimming
    wrinkle, the option branch, and the split between specific field messages
    and generic forced bodies. */
module BackendProperties {
  import opened Wrappers
  import opened Text
  import opened Backend

  // ---------------------------------------------------------------------------
  // A reference evaluator: an ordered list of (check, message) rules
  // ---------------------------------------------------------------------------

  datatype Rule = Rule(holds: bool, message: string)

  /** The index of the first rule that does not hold, if any. */
  function FirstFailure(rules: seq<Rule>): (r: Option<nat>)
    ensures r.Some? ==> r.value < |rules| && !rules[r.value].holds
    ensures r.Some? ==> forall j :: 0 <= j < r.value ==> rules[j].holds
    ensures r.None? <==> forall j :: 0 <= j < |rules| ==> rules[j].holds
  {
    if |rules| == 0 then None
    else if !rules[0].holds then Some(0)
    else match FirstFailure(rules[1..])
      case None => None
      case Some(k) => Some(k + 1)
  }

  /** Reports the message of the earliest failing rule, or `tail` when every
      rule holds. */
  function Evaluate(rules: seq<Rule>, tail: Outcome): (r: Outcome)
    ensures (forall j :: 0 <= j < |rules| ==> rules[j].holds) ==> r == tail
    ensures forall k :: (0 <= k < |rules| && !rules[k].holds
      && (forall j :: 0 <= j < k ==> rules[j].holds)) ==> r == FieldError(rules[k].message)
  {
    match FirstFailure(rules)
    case None => tail
    case Some(k) => FieldError(rules[k].message)
  }

  /** `Evaluate` reports rule `k` when it is the first one that fails. */
  lemma EvaluateReports(rules: seq<Rule>, tail: Outcome, k: nat)
    requires k < |rules| && !rules[k].holds
    requires forall j :: 0 <= j < k ==> rules[j].holds
    ensures Evaluate(rules, tail) == FieldError(rules[k].message)
  {
  }

  /** The Buttons rules in the order the handler checks them. A rule on a
      field's shape is read on the untrimmed value, and only matters once the
      field's required rule, listed just before it, holds. */
  ghost function ButtonsRules(req: ButtonsRequest): seq<Rule> {
    [ Rule(!Blank(req.username), MsgRequired),
      Rule(UsernameShape(req.username.GetOr("")), MsgUsername),
      Rule(!Blank(req.password), MsgRequired),
      Rule(HasDigit(req.password.GetOr("")), MsgPassword),
      Rule(!Blank(req.email), MsgRequired),
      Rule(EmailLanguage(req.email.GetOr("")), MsgEmail) ]
  }

  /** The Customer rules in the order the handler checks them. */
  function CustomerRules(req: CustomerRequest): seq<Rule> {
    [ Rule(!Blank(req.title), MsgTitle),
      Rule(!Blank(req.firstName), MsgFirstRequired),
      Rule(NameShape(req.firstName.GetOr("")), MsgFirstShape),
      Rule(!Blank(req.lastName), MsgLastRequired),
      Rule(NameShape(req.lastName.GetOr("")), MsgLastShape),
      Rule(req.ageRange.Some?, MsgAgeMissing),
      Rule(req.ageRange.GetOr(0) in {1, 2, 3}, MsgAgeInvalid),
      Rule(req.agreeToTerms == Some(true), MsgTerms) ]
  }

  // ---------------------------------------------------------------------------
  // Override
  // ---------------------------------------------------------------------------

  /** An override code 200, 400 or 500 decides the outcome on its own; any
      other code is ignored as if it were absent. */
  lemma ButtonsOverride(req: ButtonsRequest)
    ensures IsOverride(req.forceCode) ==> DemoButtons(req) == ResponseForCode(req.forceCode.value)
    ensures !IsOverride(req.forceCode) ==> DemoButtons(req) == DemoButtons(req.(forceCode := None))
  {
  }

  lemma CustomerOverride(req: CustomerRequest)
    ensures IsOverride(req.forceCode) ==> DemoCustomer(req) == ResponseForCode(req.forceCode.value)
    ensures !IsOverride(req.forceCode) ==> DemoCustomer(req) == DemoCustomer(req.(forceCode := None))
  {
  }

  // ---------------------------------------------------------------------------
  // First failure wins
  // ---------------------------------------------------------------------------

  /** Without an override, Buttons reports the earliest failing rule, and the
      option decides only when every rule holds. */
  lemma ButtonsFirstFailureWins(req: ButtonsRequest)
    requires !IsOverride(req.forceCode)
    ensures DemoButtons(req) == Evaluate(ButtonsRules(req), OptionOutcome(req.option))
  {
    var rules := ButtonsRules(req);
    var tail := OptionOutcome(req.option);
    if !rules[0].holds {
      EvaluateReports(rules, tail, 0);
    } else if !rules[1].holds {
      EvaluateReports(rules, tail, 1);
    } else if !rules[2].holds {
      EvaluateReports(rules, tail, 2);
    } else if !rules[3].holds {
      EvaluateReports(rules, tail, 3);
    } else if !rules[4].holds {
      EvaluateReports(rules, tail, 4);
    } else if !rules[5].holds {
      EvaluateReports(rules, tail, 5);
    } else {
      assert forall j :: 0 <= j < |rules| ==> rules[j].holds;
    }
  }

  /** Without an override, Customer reports the earliest failing rule, and
      succeeds when every rule holds. */
  lemma CustomerFirstFailureWins(req: CustomerRequest)
    requires !IsOverride(req.forceCode)
    ensures DemoCustomer(req) == Evaluate(CustomerRules(req), Ok)
  {
    var rules := CustomerRules(req);
    if !rules[0].holds {
      EvaluateReports(rules, Ok, 0);
    } else if !rules[1].holds {
      EvaluateReports(rules, Ok, 1);
    } else if !rules[2].holds {
      EvaluateReports(rules, Ok, 2);
    } else if !rules[3].holds {
      EvaluateReports(rules, Ok, 3);
    } else if !rules[4].holds {
      EvaluateReports(rules, Ok, 4);
    } else if !rules[5].holds {
      EvaluateReports(rules, Ok, 5);
    } else if !rules[6].holds {
      EvaluateReports(rules, Ok, 6);
    } else if !rules[7].holds {
      EvaluateReports(rules, Ok, 7);
    } else {
      assert forall j :: 0 <= j < |rules| ==> rules[j].holds;
    }
  }

  // ---------------------------------------------------------------------------
  // Individual wrinkles
  // ---------------------------------------------------------------------------

  /** The required check trims but the username pattern does not: a username
      with surrounding whitespace passes "Required" and then fails the shape. */
  lemma ButtonsUsernameNotTrimmed(req: ButtonsRequest)
    requires !IsOverride(req.forceCode)
    requires req.username.Some? && !Blank(req.username)
    requires req.username.value[0] in PyWhitespace
    ensures DemoButtons(req) == FieldError(MsgUsername)
  {
  }

  /** Once every field is valid, the lower-cased option decides: "reject"
      raises bad_request, "pending" raises server_error, and anything else,
      an absent option included, succeeds. */
  lemma ButtonsOptionDecides(req: ButtonsRequest)
    requires !IsOverride(req.forceCode)
    requires FirstFailure(ButtonsRules(req)).None?
    ensures DemoButtons(req) == BadRequest <==> AsciiLower(req.option.GetOr("")) == "reject"
    ensures DemoButtons(req) == ServerError <==> AsciiLower(req.option.GetOr("")) == "pending"
    ensures DemoButtons(req) == Ok <==>
      AsciiLower(req.option.GetOr("")) != "reject" && AsciiLower(req.option.GetOr("")) != "pending"
    ensures req.option.None? ==> DemoButtons(req) == Ok
  {
    ButtonsFirstFailureWins(req);
  }

  /** Lower-casing makes the option comparison case-insensitive for ASCII. */
  lemma OptionIgnoresCase(s: string)
    requires |s| == 6 && forall k :: 0 <= k < 6 ==> AsciiLowerChar(s[k]) == "reject"[k]
    ensures OptionOutcome(Some(s)) == BadRequest
  {
  }

  /** A missing age range and one outside {1, 2, 3} are told apart, while a
      missing and a false agreement read the same. */
  lemma CustomerAgeAndTermsMessages(req: CustomerRequest)
    requires !IsOverride(req.forceCode)
    requires forall j :: 0 <= j < 5 ==> CustomerRules(req)[j].holds
    ensures req.ageRange.None? ==> DemoCustomer(req) == FieldError(MsgAgeMissing)
    ensures req.ageRange.Some? && req.ageRange.value !in {1, 2, 3} ==>
      DemoCustomer(req) == FieldError(MsgAgeInvalid)
    ensures req.ageRange.Some? && req.ageRange.value in {1, 2, 3} ==>
      (DemoCustomer(req) == FieldError(MsgTerms) <==> req.agreeToTerms != Some(true))
    ensures req.ageRange.Some? && req.ageRange.value in {1, 2, 3} && req.agreeToTerms == Some(true) ==>
      DemoCustomer(req) == Ok
  {
    var rules := CustomerRules(req);
    assert rules[0].holds && rules[1].holds && rules[2].holds && rules[3].holds && rules[4].holds;
  }

  /** A value of the right shape is never blank: every shape demands a
      character outside Python's whitespace (a letter, a digit, or the `@`
      of an email), so a "Required" message is never given to a value that
      would pass its shape check. */
  lemma ShapesAreNotBlank(s: string)
    ensures UsernameShape(s) ==> !Blank(Some(s))
    ensures HasDigit(s) ==> !Blank(Some(s))
    ensures NameShape(s) ==> !Blank(Some(s))
    ensures EmailLanguage(s) ==> !Blank(Some(s))
  {
    if UsernameShape(s) || NameShape(s) {
      assert s[0] !in PyWhitespace;
    }
    if EmailLanguage(s) {
      var at, dot :| EmailSplitAt(s, at, dot);
      assert s[at] !in PyWhitespace;
    }
  }

  /** The field patterns on sample values: a username is one or more ASCII
      letters or digits, a password needs a digit anywhere, a name is two or
      more ASCII letters. */
  lemma FieldShapeExamples()
    ensures UsernameShape("bob1") && !UsernameShape("") && !UsernameShape("bob 1")
    ensures HasDigit("abc1") && !HasDigit("abc")
    ensures NameShape("Ann") && !NameShape("A") && !NameShape("Ann1")
  {
    assert !IsAsciiAlnum("bob 1"[3]);
    assert IsAsciiDigit("abc1"[3]);
    assert !IsAsciiLetter("Ann1"[3]);
    assert !IsAsciiDigit("abc"[0]) && !IsAsciiDigit("abc"[1]) && !IsAsciiDigit("abc"[2]);
  }

  /** Fields no rule reads never change the outcome. */
  lemma UncheckedFieldsIgnored(b: ButtonsRequest, radio3: Option<string>, platform: Option<string>,
                               dropdown: Option<string>, c: CustomerRequest, newsletter: Option<bool>)
    ensures DemoButtons(b.(radio3 := radio3, platform := platform, dropdown := dropdown)) == DemoButtons(b)
    ensures DemoCustomer(c.(subscribeNewsletter := newsletter)) == DemoCustomer(c)
  {
  }

  /** Field rules return their own specific message with code 400; forced
      outcomes carry only the generic bodies; success is always "ok"/200. */
  lemma OutcomeBodies(b: ButtonsRequest, c: CustomerRequest)
    ensures DemoButtons(b).FieldError? ==>
      DemoButtons(b).Message() in {MsgRequired, MsgUsername, MsgPassword, MsgEmail}
    ensures DemoCustomer(c).FieldError? ==>
      DemoCustomer(c).Message() in {MsgTitle, MsgFirstRequired, MsgFirstShape, MsgLastRequired,
                                    MsgLastShape, MsgAgeMissing, MsgAgeInvalid, MsgTerms}
    ensures DemoButtons(b).Raised? ==> DemoButtons(b) in {BadRequest, ServerError}
    ensures DemoCustomer(c).Raised? ==> DemoCustomer(c) in {BadRequest, ServerError}
    ensures DemoButtons(b).Code() in {200, 400, 500} && DemoCustomer(c).Code() in {200, 400, 500}
    ensures DemoButtons(b).Code() == 200 <==> DemoButtons(b) == Ok
    ensures DemoCustomer(c).Code() == 200 <==> DemoCustomer(c) == Ok
  {
  }

  // ---------------------------------------------------------------------------
  // Worked requests
  // ---------------------------------------------------------------------------

  /** The login "bob1" / "abc123" / "a@b.co" passes every field rule, so the
      option alone decides. */
  lemma SampleLoginIsValid(option: Option<string>)
    ensures ButtonsChecks(Some("bob1"), Some("abc123"), Some("a@b.co"), option) == OptionOutcome(option)
  {
    assert "bob1"[0] !in PyWhitespace && "abc123"[0] !in PyWhitespace && "a@b.co"[0] !in PyWhitespace;
    assert IsAsciiDigit("abc123"[3]);
    assert EmailSplitAt("a@b.co", 1, 3);
  }

  /** A valid login with option "approve" succeeds, the same with "reject"
      raises bad_request, and forceCode 500 raises server_error whatever else
      the request holds. */
  lemma ButtonsScenarios(forced: ButtonsRequest)
    requires forced.forceCode == Some(500)
    ensures DemoButtons(ButtonsRequest(Some("bob1"), Some("abc123"), Some("a@b.co"), Some("approve"),
                                       None, None, None, None)) == Ok
    ensures DemoButtons(ButtonsRequest(Some("bob1"), Some("abc123"), Some("a@b.co"), Some("reject"),
                                       None, None, None, None)) == BadRequest
    ensures DemoButtons(forced) == ServerError
  {
    SampleLoginIsValid(Some("approve"));
    SampleLoginIsValid(Some("reject"));
    assert AsciiLower("reject") == "reject";
    assert AsciiLower("approve")[0] == 'a';
  }

  /** A customer who fills in everything but leaves out the agreement is told
      to agree to the terms. */
  lemma CustomerScenario()
    ensures DemoCustomer(CustomerRequest(Some("Mr"), Some("Ann"), Some("Lee"), Some(2), None, Some(true), None))
      == FieldError(MsgTerms)
  {
    assert "Mr"[0] !in PyWhitespace && "Ann"[0] !in PyWhitespace && "Lee"[0] !in PyWhitespace;
  }
}
