# Flutter flow-test generator: validation rules in Dafny

This project models the decision logic of two parts of the Flutter flow-test
generator.

- **The demo form-validation backend** (`backend/main.py`). It has two POST
  handlers. `/api/demo/buttons` checks a login form: username, password,
  email and an approve/reject/pending option. `/api/demo/customer` checks a
  customer form: title, first and last name, age range and terms
  agreement. Each handler honours a `forceCode` override of 200, 400 or 500
  first. It then runs its field checks in a fixed order and answers with the
  message of the first check that fails. When every check passes it
  answers through `_response_for_code`.
- **The webview's pure rules** (`webview/main.js`). There are four:
  - the PICT constraint syntax check `#validateConstraintsSyntax`;
  - the output-path derivation `#getOutputFilePath`;
  - the button-enablement predicate of `#validateForm`;
  - the way `#updateSummaryFromCoverage` gives each summary row the status of
    its first matching test case.

The page's fields, the summary table cells and the coverage results are
plain values here. A handler's JSON body or raised `HTTPException` is an
`Outcome` value.

The model has six modules:

- `Wrappers`: `Option`.
- `Text`: Python `strip()` and JavaScript `trim()`, each with its own
  whitespace set; JavaScript `indexOf`, `lastIndexOf`, `split` and `join`;
  decimal rendering; ASCII lower-casing.
- `Backend`: the requests, the outcomes and the handlers.
- `BackendProperties`: a reference rule-list evaluator and the lemmas about
  the handlers.
- `Constraints`: the constraint file check.
- `Webview`: the output path, the buttons and the summary table.

Regular expressions are written as predicates over characters. The email
pattern `[a-zA-Z0-9@.\-]+@[a-zA-Z0-9.\-]+\.[a-zA-Z]{2,}` is stated as an
existential language, `EmailLanguage`. A split-free decision procedure,
`EmailShape`, cuts the email at the last `@` and the last `.` and is proved
equivalent to that language. In the same way, `\bIF\b`, `\bTHEN\b`,
`\[.+?\]` and `".+?"` are each stated as a language and decided by a scan
that is proved to decide it.

## Model

| member | source | states |
|---|---|---|
| Backend.ResponseForCode | backend/main.py:117-122 | 200 gives the success body and nothing else does; 400 raises the generic bad_request body with status 400; every other code, not just 500, raises the generic server_error body with status 500; a field-level error never comes from here |
| Backend.OptionOutcome | backend/main.py:66-75 | the lowered option (absent read as "") equal to "reject" raises bad_request and nothing else does; "pending" raises server_error and nothing else does; every other option, an absent one included, succeeds |
| Backend.DemoButtons | backend/main.py:43-75 | an override code answers through `_response_for_code`; a field error only comes without an override and carries one of the Buttons messages; anything raised is one of the two generic bodies |
| Backend.ButtonsChecks | backend/main.py:50-75 | the field checks give one of the Buttons messages or else the option's outcome; "Required" is only given when the username, password or email is blank |
| Backend.DemoCustomer | backend/main.py:78-114 | an override code answers through `_response_for_code`; a field error only comes without an override and carries one of the Customer messages; anything raised is one of the two generic bodies |
| Backend.CustomerChecks | backend/main.py:85-114 | the field checks give one of the Customer messages or else success, and success needs an age range in {1, 2, 3} and an agreement of `true` |
| Backend.EmailShape | backend/main.py:63 | accepts exactly the strings of the email pattern's language `X@Y.Z` (X over letters, digits, `@`, `.`, `-`; Y over letters, digits, `.`, `-`; Z two or more letters) |
| Backend.EmailSplitIsUnique | backend/main.py:63 | any way of reading a string as `X@Y.Z` puts the `@` at the last `@` and the `.` at the last `.` |
| Backend.BlankIsStripEmpty | backend/main.py:51-98 | the blank test, stated through characters, holds exactly for an absent value, an empty one, or one that is empty after Python `strip()` |
| BackendProperties.ShapesAreNotBlank | backend/main.py:51-98 | a value matching the username pattern, containing a digit, matching the name pattern or matching the email pattern is never blank, so "Required" never goes to a value that would pass its shape check |
| BackendProperties.FieldShapeExamples | backend/main.py:53-98 | the username pattern accepts `bob1` and rejects the empty string and `bob 1`; the digit search accepts `abc1` and rejects `abc`; the name pattern accepts `Ann` and rejects `A` and `Ann1` |
| BackendProperties.FirstFailure | backend/main.py:51-64 | finds the first rule of a list that fails, with every earlier rule holding, or reports that every rule holds |
| BackendProperties.Evaluate | backend/main.py:86-114 | an ordered rule list reports the message of its earliest failing rule, or falls through to the final outcome when every rule holds |
| BackendProperties.ButtonsOverride | backend/main.py:47-48 | a forceCode of 200, 400 or 500 decides the Buttons outcome by itself; any other forceCode behaves exactly as an absent one |
| BackendProperties.CustomerOverride | backend/main.py:82-83 | the same override rule for the Customer handler |
| BackendProperties.ButtonsFirstFailureWins | backend/main.py:43-75 | without an override, Buttons equals the reference evaluator on its six rules in source order (required and shape for username, password and email), falling through to the option |
| BackendProperties.CustomerFirstFailureWins | backend/main.py:78-114 | without an override, Customer equals the reference evaluator on its eight rules in source order, falling through to success |
| BackendProperties.ButtonsUsernameNotTrimmed | backend/main.py:51-54 | a username with leading whitespace but some other text passes "Required" and then fails the username pattern, because the pattern reads the unstripped value |
| BackendProperties.ButtonsOptionDecides | backend/main.py:66-75 | once every field rule holds, a lower-cased option "reject" raises bad_request, "pending" raises server_error, and anything else, an absent option included, succeeds, in both directions |
| BackendProperties.OptionIgnoresCase | backend/main.py:67-70 | any six-letter option that lowers to "reject" (such as "REJECT") raises bad_request |
| BackendProperties.CustomerAgeAndTermsMessages | backend/main.py:101-114 | with valid names, a missing age range and one outside {1, 2, 3} give different messages; with a valid age, the terms message appears exactly when agreement is not `true`, and success otherwise |
| BackendProperties.UncheckedFieldsIgnored | backend/main.py:17-35 | radio3, platform, dropdown and subscribeNewsletter never change either handler's outcome |
| BackendProperties.OutcomeBodies | backend/main.py:51-122 | field errors carry one of the handler's own messages with code 400; raised outcomes carry only the generic bodies; every code is 200, 400 or 500, and 200 means success |
| BackendProperties.SampleLoginIsValid | backend/main.py:51-64 | the login bob1 / abc123 / a@b.co passes every field rule, so the option alone decides |
| BackendProperties.ButtonsScenarios | backend/main.py:43-75 | that login with "approve" succeeds and with "reject" raises bad_request, and forceCode 500 raises server_error whatever the fields hold |
| BackendProperties.CustomerScenario | backend/main.py:78-109 | Mr / Ann / Lee / age 2 without an agreement is told to agree to the terms |
| Constraints.FindWord | webview/main.js:525 | decides whether the word occurs with a word boundary on each side (`\bIF\b`, `\bTHEN\b`) |
| Constraints.EnclosedFrom | webview/main.js:535-552 | decides whether an opener, one or more non-line-terminator characters and a closer occur (`\[.+?\]`, `".+?"`) |
| Constraints.ClosesFrom | webview/main.js:535-552 | decides whether a given opener is closed at or after a position, with no line terminator in between |
| Constraints.ThenSplit | webview/main.js:530-532 | on a line that has the word THEN, the IF part is everything before the first `THEN` substring and holds no `THEN`; the THEN part starts with that `THEN`; together they are the line |
| Constraints.CutIgnoresWords | webview/main.js:530 | the cut uses a plain substring search: in `ATHEN THEN` it falls inside `ATHEN`, leaving the IF part `A` |
| Constraints.CheckLine | webview/main.js:525-557 | a trimmed line gets no fault exactly when it passes all six checks; a reported fault is a check it fails, and every check before it in source order passes |
| Constraints.LineVerdict | webview/main.js:517-520 | a blank line or a `#` comment, once trimmed, never has a fault |
| Constraints.LineVerdictMeaning | webview/main.js:517-557 | a raw line has no fault exactly when it is skipped or its trimmed text passes every check; a reported fault is a check the trimmed text fails, after every earlier check passed |
| Constraints.ReportReadsBack | webview/main.js:526-556 | a report starts with `Line `, the text up to its first `:` is the decimal line number and reads back as that number, the fault's message follows `: `, and the quoted trimmed line ends it |
| Constraints.ValidateLines | webview/main.js:516-560 | the result is null exactly when no line has a fault; otherwise it is the report for the first faulty line, numbered from 1 |
| Constraints.ValidateConstraintsSyntax | webview/main.js:513-560 | over the content split at newlines: null exactly when no line has a fault, else the report for the first faulty line; null for empty content and for content of only blank and `#` lines |
| Webview.LastSegment | webview/main.js:359 | the last `/`-segment contains no `/` |
| Webview.LastSegmentAfterLastSlash | webview/main.js:359 | the last piece of `split('/')` is exactly the text after the last `/` |
| Webview.LastSegmentOfJoin | webview/main.js:359-361 | a directory ending in `/` followed by a name without `/` has that name as its last segment |
| Webview.RemoveFirst | webview/main.js:359 | `replace` with a string pattern leaves the text unchanged when the pattern is absent; otherwise it removes one occurrence, at the first one, and putting the pattern back there restores the text |
| Webview.RemoveDartExtension | webview/main.js:359 | a file name without a dot loses exactly its `.dart` extension |
| Webview.RemoveFirstDartOnly | webview/main.js:359 | only the first `.dart` goes: `a.dart_b.dart` becomes `a_b.dart` |
| Webview.DirPrefix | webview/main.js:360 | the directory prefix ends in `/`, starts with the directory, adds at most one character, and is the directory itself when it already ends in `/` |
| Webview.GetOutputFilePath | webview/main.js:354-362 | the path is empty exactly when either field is blank; otherwise it starts with the trimmed directory and ends with `_flow_test.dart` |
| Webview.PathSplitsBack | webview/main.js:359-361 | a directory prefix ending in `/` followed by a slash-free name and `_flow_test.dart` has that file name as its last segment |
| Webview.OutputPathParts | webview/main.js:354-362 | a non-empty output path splits back into the directory prefix and a last segment that is the input's file name, first `.dart` removed, followed by `_flow_test.dart` |
| Webview.ValidateForm | webview/main.js:343-351 | Generate is enabled exactly when input and output directory hold text, the widgets are valid and nothing is generating; Run Coverage is enabled exactly when the script label holds text other than `-` and nothing is generating |
| Webview.GenerateNeedsOutputPath | webview/main.js:343-362 | whenever Generate is enabled there is a non-empty output path |
| Webview.GeneratingDisablesBoth | webview/main.js:349-350 | while generating, both buttons are disabled |
| Webview.PlaceholderDisablesCoverage | webview/main.js:346-350 | a label that is `-` with any whitespace before and after it counts as no script and disables Run Coverage |
| Webview.FindMatch | webview/main.js:749 | finds the first test case whose name equals, or ends with, the row's name, or reports that none does |
| Webview.StatusOf | webview/main.js:752-758 | a matched case shows Passed exactly when its status is `passed`, and Failed otherwise |
| Webview.UpdateSummaryFromCoverage | webview/main.js:744-760 | every row keeps its name; rows with no name or no matching case are unchanged; any other row takes the status of its first matching case |
| Webview.EarlierSuffixMatchWins | webview/main.js:749 | an earlier suffix match beats a later exact match: row `tc1` takes the status of `login_tc1` before that of `tc1` |
| Text.TrimIsInfix | webview/main.js:517 | the trimmed text sits in the input right after its leading whitespace, and only whitespace lies before and after it |
| Text.AsciiLower | backend/main.py:67 | lower-casing keeps the length, leaves no ASCII capital, moves each ASCII capital to its small letter and leaves every other character alone |
| Text.AsciiLowerIdempotent | backend/main.py:67 | lowering an already lowered option changes nothing |
| Text.Trim | webview/main.js:517 | the trimmed text is empty exactly when the input is all whitespace, and otherwise neither starts nor ends with whitespace |
| Text.TrimPadded | webview/main.js:517 | trimming a text that neither starts nor ends with whitespace, padded with whitespace on both sides, gives that text back |
| Text.Split | webview/main.js:514 | `split` gives at least one piece, no piece contains the separator, and joining the pieces gives back the input |
| Text.SplitJoin | webview/main.js:514 | splitting undoes joining pieces that do not contain the separator |
| Text.IndexOf | webview/main.js:530 | `indexOf` gives the first occurrence, and -1 exactly when there is none |
| Text.NatToDecimal | webview/main.js:522 | the line number is written as decimal digits, with no leading zero on any rendering longer than one digit, and the digits read back as the number |

## Left out

- Transport and framework are left out: FastAPI routing, CORS, `/health`, the `print` calls and `uvicorn` start-up. A field error is modelled as the body `{"message": m, "code": 400}` only. Its HTTP status, which FastAPI sends as 200, is not modelled.
- Pydantic's coercion of JSON into the request types is not modelled. A request arrives already typed, with absent fields as `None`.
- `HasDigit` models `\d` as ASCII digits only. Python's `\d` also matches other Unicode decimal digits.
- `OptionOutcome` lower-cases ASCII letters only. No other character of Python's `str.lower()` maps into the letters of "reject" or "pending", except U+0130, which leaves a combining mark behind, so the comparison result is the same.
- `LineVerdict` states in its own contract only that skipped lines pass. `LineVerdictMeaning` states the full meaning of the verdict.
- `Webview.UpdateSummaryFromCoverage` models a missing `data-tc` attribute as the empty name. JavaScript treats both as falsy.
- Everything in `webview/main.js` that touches the page is left out, as is the async generate and coverage pipeline: the DOM, `fetch`, file pickers, dialogs, logging and progress icons. The text of the chosen files enters the model as plain strings.
- `src/webview/panel.ts`, `src/extension.ts`, `src/commands/generateTests.ts`, `src/services/dartRunner.ts` and `media/main.js` of the VS Code extension are not part of this model. They are editor message routing, HTML templating and process launching.
