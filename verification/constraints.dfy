/** The webview's PICT constraint syntax check: the file is split into lines,
    blank lines and `#` comments are skipped, and every other line must read
    `IF [param] = "value" THEN [param] = "value";`. The first offending line is
    reported, with a fixed order of checks inside a line. */
module Constraints {
  import opened Wrappers
  import opened Text

  /** The checks of one constraint line, in the order they are made. */
  datatype Fault =
    | MissingKeyword
    | IfBracket
    | ThenBracket
    | IfQuote
    | ThenQuote
    | MissingSemicolon
  {
    function Rank(): nat {
      match this
      case MissingKeyword => 0
      case IfBracket => 1
      case ThenBracket => 2
      case IfQuote => 3
      case ThenQuote => 4
      case MissingSemicolon => 5
    }

    function Message(): string {
      match this
      case MissingKeyword => "Missing IF or THEN keyword"
      case IfBracket => "IF parameter must be in [brackets]"
      case ThenBracket => "THEN parameter must be in [brackets]"
      case IfQuote => "IF value must be in \"quotes\""
      case ThenQuote => "THEN value must be in \"quotes\""
      case MissingSemicolon => "Constraint must end with ;"
    }
  }

  // ---------------------------------------------------------------------------
  // Regular-expression languages the checks test for
  // ---------------------------------------------------------------------------

  /** Characters of the regular-expression class `\w`. */
  predicate IsWordChar(c: char) { IsAsciiAlnum(c) || c == '_' }

  /** The word `w` sits at `p` with a word boundary on each side: a match of
      `\bIF\b` or `\bTHEN\b`. */
  predicate WordAt(s: string, w: string, p: int) {
    && OccursAt(s, w, p)
    && (p == 0 || !IsWordChar(s[p - 1]))
    && (p + |w| == |s| || !IsWordChar(s[p + |w|]))
  }

  ghost predicate HasWord(s: string, w: string) {
    exists p :: WordAt(s, w, p)
  }

  /** `s[i]` opens, `s[j]` closes, and the one or more characters between are
      not line terminators: a match of `\[.+?\]` or `".+?"`. */
  predicate EnclosedAt(s: string, open: char, close: char, i: int, j: int) {
    && 0 <= i && i + 2 <= j < |s|
    && s[i] == open && s[j] == close
    && forall m :: i < m < j ==> !IsLineTerminator(s[m])
  }

  ghost predicate Encloses(s: string, open: char, close: char) {
    exists i, j :: EnclosedAt(s, open, close, i, j)
  }

  // ---------------------------------------------------------------------------
  // Deciding them
  // ---------------------------------------------------------------------------

  /** `/\bw\b/.test(s[from..])`, scanning start positions from `from`. */
  function FindWord(s: string, w: string, from: nat): (b: bool)
    requires from <= |s|
    ensures b <==> exists p :: from <= p && WordAt(s, w, p)
    decreases |s| - from
  {
    if WordAt(s, w, from) then true
    else if from == |s| then false
    else FindWord(s, w, from + 1)
  }

  /** Whether some `j >= k` closes the opener at `i`, knowing that nothing
      strictly between `i` and `k` is a line terminator. */
  function ClosesFrom(s: string, open: char, close: char, i: nat, k: nat): (b: bool)
    requires i < k <= |s| && s[i] == open && !IsLineTerminator(close)
    requires forall m :: i < m < k ==> !IsLineTerminator(s[m])
    ensures b <==> exists j :: k <= j && EnclosedAt(s, open, close, i, j)
    decreases |s| - k
  {
    if k == |s| then false
    else if s[k] == close && i + 2 <= k then
      assert EnclosedAt(s, open, close, i, k);
      true
    else if IsLineTerminator(s[k]) then false
    else ClosesFrom(s, open, close, i, k + 1)
  }

  /** Whether an enclosed match starts at some position `a` or later. */
  function EnclosedFrom(s: string, open: char, close: char, a: nat): (b: bool)
    requires a <= |s| && !IsLineTerminator(close)
    ensures b <==> exists i, j :: a <= i && EnclosedAt(s, open, close, i, j)
    decreases |s| - a
  {
    if a == |s| then false
    else if s[a] == open && ClosesFrom(s, open, close, a, a + 1) then
      true
    else EnclosedFrom(s, open, close, a + 1)
  }

  // ---------------------------------------------------------------------------
  // One line
  // ---------------------------------------------------------------------------

  /** Where the line is cut: `line.indexOf('THEN')`, a plain substring search
      that ignores word boundaries. A result of -1 acts as 0 in `substring`. */
  function ThenCut(line: string): (k: nat)
    ensures k <= |line|
  {
    var t := IndexOf(line, "THEN");
    if t < 0 then 0 else t
  }

  function IfPart(line: string): string { line[..ThenCut(line)] }

  function ThenPart(line: string): string { line[ThenCut(line)..] }

  /** On a line that passed the keyword check, the IF part is everything
      before the first `THEN` (which it does not contain) and the THEN part
      starts with that `THEN`; together they are the whole line. */
  lemma ThenSplit(line: string)
    requires HasWord(line, "THEN")
    ensures IfPart(line) + ThenPart(line) == line
    ensures StartsWith(ThenPart(line), "THEN")
    ensures forall k :: 0 <= k <= |IfPart(line)| ==> !OccursAt(IfPart(line), "THEN", k)
  {
    var p :| WordAt(line, "THEN", p);
    assert OccursAt(line, "THEN", p);
    var c := ThenCut(line);
    assert OccursAt(line, "THEN", c);
    assert line[..c] + line[c..] == line;
    assert ThenPart(line)[..4] == line[c..c + 4];
    forall k | 0 <= k <= |IfPart(line)|
      ensures !OccursAt(IfPart(line), "THEN", k)
    {
      if OccursAt(IfPart(line), "THEN", k) {
        assert line[k..k + 4] == IfPart(line)[k..k + 4];
        assert OccursAt(line, "THEN", k);
      }
    }
  }

  /** The cut ignores word boundaries: in `ATHEN THEN` it falls inside the
      word `ATHEN`, before the only standalone `THEN`. */
  lemma CutIgnoresWords()
    ensures ThenCut("ATHEN THEN") == 1
    ensures IfPart("ATHEN THEN") == "A"
  {
    assert !OccursAt("ATHEN THEN", "THEN", 0) by {
      assert "ATHEN THEN"[0] == 'A';
    }
    assert OccursAt("ATHEN THEN", "THEN", 1);
  }

  /** What each check demands of a trimmed, non-comment line. */
  ghost predicate Passes(line: string, f: Fault) {
    match f
    case MissingKeyword => HasWord(line, "IF") && HasWord(line, "THEN")
    case IfBracket => Encloses(IfPart(line), '[', ']')
    case ThenBracket => Encloses(ThenPart(line), '[', ']')
    case IfQuote => Encloses(IfPart(line), '"', '"')
    case ThenQuote => Encloses(ThenPart(line), '"', '"')
    case MissingSemicolon => EndsWith(line, ";")
  }

  /** The checks on one trimmed, non-comment line. The fault reported is the
      first check in order that fails; no fault means every check passes. */
  function CheckLine(line: string): (r: Option<Fault>)
    ensures r.None? <==> forall f: Fault :: Passes(line, f)
    ensures r.Some? ==> !Passes(line, r.value)
    ensures r.Some? ==> forall f: Fault :: f.Rank() < r.value.Rank() ==> Passes(line, f)
  {
    var ifPart := IfPart(line);
    var thenPart := ThenPart(line);
    if !FindWord(line, "IF", 0) || !FindWord(line, "THEN", 0) then
      assert !Passes(line, MissingKeyword);
      Some(MissingKeyword)
    else if !EnclosedFrom(ifPart, '[', ']', 0) then
      assert Passes(line, MissingKeyword) && !Passes(line, IfBracket);
      Some(IfBracket)
    else if !EnclosedFrom(thenPart, '[', ']', 0) then
      assert Passes(line, MissingKeyword) && Passes(line, IfBracket) && !Passes(line, ThenBracket);
      Some(ThenBracket)
    else if !EnclosedFrom(ifPart, '"', '"', 0) then
      assert Passes(line, MissingKeyword) && Passes(line, IfBracket) && Passes(line, ThenBracket);
      assert !Passes(line, IfQuote);
      Some(IfQuote)
    else if !EnclosedFrom(thenPart, '"', '"', 0) then
      assert Passes(line, MissingKeyword) && Passes(line, IfBracket) && Passes(line, ThenBracket);
      assert Passes(line, IfQuote) && !Passes(line, ThenQuote);
      Some(ThenQuote)
    else if !EndsWith(line, ";") then
      assert Passes(line, MissingKeyword) && Passes(line, IfBracket) && Passes(line, ThenBracket);
      assert Passes(line, IfQuote) && Passes(line, ThenQuote) && !Passes(line, MissingSemicolon);
      Some(MissingSemicolon)
    else
      assert Passes(line, MissingKeyword) && Passes(line, IfBracket) && Passes(line, ThenBracket);
      assert Passes(line, IfQuote) && Passes(line, ThenQuote) && Passes(line, MissingSemicolon);
      None
  }

  /** A blank line or a `#` comment once trimmed (JavaScript's `trim()`). */
  predicate Skipped(raw: string) {
    var line := Trim(raw, JsWhitespace);
    line == [] || StartsWith(line, "#")
  }

  /** The verdict on one raw line of the file: skipped lines pass, any other
      line is trimmed and checked. */
  function LineVerdict(raw: string): (r: Option<Fault>)
    ensures Skipped(raw) ==> r.None?
  {
    if Skipped(raw) then None else CheckLine(Trim(raw, JsWhitespace))
  }

  /** A line passes exactly when it is skipped or its trimmed text passes
      every check; a reported fault is a check the trimmed text fails, and
      every check before it passes. */
  lemma LineVerdictMeaning(raw: string)
    ensures LineVerdict(raw).None? <==> Skipped(raw) || forall f: Fault :: Passes(Trim(raw, JsWhitespace), f)
    ensures LineVerdict(raw).Some? ==> !Skipped(raw) && !Passes(Trim(raw, JsWhitespace), LineVerdict(raw).value)
    ensures LineVerdict(raw).Some? ==> forall f: Fault :: f.Rank() < LineVerdict(raw).value.Rank() ==>
      Passes(Trim(raw, JsWhitespace), f)
  {
  }

  /** The message for a fault on the 1-based line `lineNum`, quoting the
      trimmed line. */
  function Report(lineNum: nat, f: Fault, line: string): string {
    "Line " + NatToDecimal(lineNum) + ": " + f.Message() + "\n\"" + line + "\""
  }

  /** A report reads back: after `Line ` come the decimal digits of the line
      number up to the first `:`, then the fault's message, and the quoted
      line closes the report. */
  lemma ReportReadsBack(lineNum: nat, f: Fault, line: string)
    ensures var r := Report(lineNum, f, line);
            var d := NatToDecimal(lineNum);
            && StartsWith(r, "Line ")
            && IndexOfChar(r, ':') == 5 + |d|
            && r[5..5 + |d|] == d
            && DecimalValue(r[5..IndexOfChar(r, ':')]) == lineNum
            && r[5 + |d|..7 + |d| + |f.Message()|] == ": " + f.Message()
            && EndsWith(r, "\n\"" + line + "\"")
  {
    ReportLayout(NatToDecimal(lineNum), f.Message(), line);
  }

  /** The layout of a report with number digits `d` and message `m`. */
  lemma ReportLayout(d: string, m: string, line: string)
    requires forall k :: 0 <= k < |d| ==> IsAsciiDigit(d[k])
    ensures var r := "Line " + d + ": " + m + "\n\"" + line + "\"";
            && StartsWith(r, "Line ") && r[5..5 + |d|] == d
            && IndexOfChar(r, ':') == 5 + |d|
            && r[5 + |d|..7 + |d| + |m|] == ": " + m
            && EndsWith(r, "\n\"" + line + "\"")
  {
    var tail := "\n\"" + line + "\"";
    var rest := ": " + m + tail;
    var r := "Line " + d + ": " + m + "\n\"" + line + "\"";
    assert r == "Line " + d + rest;
    NumberBeforeColon(r, d, rest);
    assert r[5 + |d|..] == rest;
    assert rest[..2 + |m|] == ": " + m;
    assert rest[|rest| - |tail|..] == tail;
  }

  /** In `Line <digits><rest>` with `rest` starting at a `:`, the first `:`
      ends the digits. */
  lemma NumberBeforeColon(r: string, d: string, rest: string)
    requires forall k :: 0 <= k < |d| ==> IsAsciiDigit(d[k])
    requires |rest| > 0 && rest[0] == ':'
    requires r == "Line " + d + rest
    ensures StartsWith(r, "Line ") && r[5..5 + |d|] == d
    ensures IndexOfChar(r, ':') == 5 + |d|
  {
    assert r[..5] == "Line ";
    assert r[5..5 + |d|] == d;
    forall k | 0 <= k < 5 + |d|
      ensures r[k] != ':'
    {
      if k < 5 {
        assert r[k] == "Line "[k];
      } else {
        assert r[k] == d[k - 5];
      }
    }
    IndexOfCharUnique(r, ':', 5 + |d|);
  }

  /** Line `i` is the first line of `lines` with a fault. */
  predicate FirstFaulty(lines: seq<string>, i: int) {
    && 0 <= i < |lines|
    && LineVerdict(lines[i]).Some?
    && forall j :: 0 <= j < i ==> LineVerdict(lines[j]).None?
  }

  // ---------------------------------------------------------------------------
  // The whole file
  // ---------------------------------------------------------------------------

  /** `#validateConstraintsSyntax`: `None` (JavaScript `null`) when no line has a
      fault, otherwise the report for the first faulty line, numbered from 1.
      Empty content and content made only of blank and comment lines pass. */
  method ValidateConstraintsSyntax(content: string) returns (r: Option<string>)
    ensures r.None? <==> forall i :: 0 <= i < |Lines(content)| ==> LineVerdict(Lines(content)[i]).None?
    ensures r.Some? ==> exists i :: FirstFaulty(Lines(content), i) && r.value == ReportFor(Lines(content), i)
    ensures (forall i :: 0 <= i < |Lines(content)| ==> Skipped(Lines(content)[i])) ==> r.None?
    ensures content == "" ==> r.None?
  {
    SkippedLinesPass(Lines(content));
    EmptyContentPasses(content);
    r := ValidateLines(Lines(content));
  }

  /** The lines of a file: its content split at every newline (JavaScript's
      `split('\n')`, which keeps empty pieces). */
  function Lines(content: string): seq<string> {
    Split(content, '\n')
  }

  /** The report for line `i` of `lines`: its 1-based number, the fault, and
      the trimmed text. */
  function ReportFor(lines: seq<string>, i: int): string
    requires 0 <= i < |lines| && LineVerdict(lines[i]).Some?
  {
    Report(i + 1, LineVerdict(lines[i]).value, Trim(lines[i], JsWhitespace))
  }

  /** The loop of `#validateConstraintsSyntax` over the split lines. */
  method ValidateLines(lines: seq<string>) returns (r: Option<string>)
    ensures r.None? <==> forall i :: 0 <= i < |lines| ==> LineVerdict(lines[i]).None?
    ensures r.Some? ==> exists i :: FirstFaulty(lines, i) && r.value == ReportFor(lines, i)
  {
    for i := 0 to |lines|
      invariant forall j :: 0 <= j < i ==> LineVerdict(lines[j]).None?
    {
      if Skipped(lines[i]) {
        continue;
      }
      var line := Trim(lines[i], JsWhitespace);
      var fault := CheckLine(line);
      if fault.Some? {
        assert FirstFaulty(lines, i);
        return Some(Report(i + 1, fault.value, line));
      }
    }
    return None;
  }

  /** A line with a fault is never skipped. */
  lemma SkippedLinesPass(lines: seq<string>)
    ensures forall i :: 0 <= i < |lines| && LineVerdict(lines[i]).Some? ==> !Skipped(lines[i])
  {
  }

  /** Empty content is one empty line, which is skipped. */
  lemma EmptyContentPasses(content: string)
    ensures content == "" ==> Lines(content) == [""] && LineVerdict("").None?
  {
  }
}
