/**
 * The small rules of the generator's webview page that are not tied to the
 * page itself: the output path derived from the two path fields, the
 * predicate that enables the Generate and Run Coverage buttons, and how a
 * coverage run fills the summary table. The page's fields, the summary
 * table's cells and the coverage results arrive as plain values here.
 */
module Webview {
  import opened Wrappers
  import opened Text

  // ---------------------------------------------------------------------------
  // Paths
  // ---------------------------------------------------------------------------

  /** `path.split('/').pop()`: the text after the last `/`, or the whole path
      when it has none. */
  function LastSegment(path: string): (r: string)
    ensures '/' !in r
  {
    var parts := Split(path, '/');
    parts[|parts| - 1]
  }

  /** Joining pieces puts the last piece after the last separator. */
  lemma {:induction false} JoinLast(parts: seq<string>, sep: char)
    requires |parts| >= 2
    ensures Join(parts, sep) == Join(parts[..|parts| - 1], sep) + [sep] + parts[|parts| - 1]
    decreases |parts|
  {
    if |parts| == 2 {
      assert parts[1..] == [parts[1]];
      assert parts[..1] == [parts[0]];
    } else {
      var n := |parts|;
      JoinLast(parts[1..], sep);
      assert parts[1..][..n - 2] == parts[..n - 1][1..];
      assert parts[1..][n - 2] == parts[n - 1];
    }
  }

  /** The last segment is exactly what follows the last `/` of the path. */
  lemma LastSegmentAfterLastSlash(path: string)
    ensures LastSegment(path) == path[LastIndexOf(path, '/') + 1..]
  {
    var parts := Split(path, '/');
    if |parts| == 1 {
      assert forall k :: 0 <= k < |path| ==> path[k] != '/';
    } else {
      JoinLast(parts, '/');
      AfterLastSlash(Join(parts[..|parts| - 1], '/'), parts[|parts| - 1]);
    }
  }

  /** What follows a `/` with no `/` after it is what follows the last `/`. */
  lemma AfterLastSlash(front: string, last: string)
    requires '/' !in last
    ensures var path := front + ['/'] + last;
            path[LastIndexOf(path, '/') + 1..] == last
  {
    var path := front + ['/'] + last;
    forall m | |front| < m < |path|
      ensures path[m] != '/'
    {
      assert path[m] == last[m - |front| - 1];
    }
    LastIndexOfUnique(path, '/', |front|);
    assert path[|front| + 1..] == last;
  }

  /** A path made of a directory ending in `/` and a name without `/` has that
      name as its last segment. */
  lemma LastSegmentOfJoin(dir: string, name: string)
    requires EndsWith(dir, "/") && '/' !in name
    ensures LastSegment(dir + name) == name
  {
    var path := dir + name;
    assert path[|dir| - 1] == dir[|dir| - 1] == '/';
    forall m | |dir| - 1 < m < |path|
      ensures path[m] != '/'
    {
      assert path[m] == name[m - |dir|];
    }
    LastIndexOfUnique(path, '/', |dir| - 1);
    LastSegmentAfterLastSlash(path);
    assert path[|dir|..] == name;
  }

  /** `s.replace(p, '')` with a string pattern: only the first occurrence of
      `p` is removed, and `s` is returned unchanged when `p` does not occur. */
  function RemoveFirst(s: string, p: string): (r: string)
    ensures IndexOf(s, p) < 0 ==> r == s
    ensures IndexOf(s, p) >= 0 ==> |r| + |p| == |s| && s == r[..IndexOf(s, p)] + p + r[IndexOf(s, p)..]
    ensures forall c :: c in r ==> c in s
  {
    var k := IndexOf(s, p);
    if k < 0 then s
    else
      var r := s[..k] + s[k + |p|..];
      assert r[..k] == s[..k] && r[k..] == s[k + |p|..];
      assert s == s[..k] + s[k..k + |p|] + s[k + |p|..];
      r
  }

  /** A file name with no dot loses exactly its `.dart` extension. */
  lemma RemoveDartExtension(name: string)
    requires '.' !in name
    ensures RemoveFirst(name + ".dart", ".dart") == name
  {
    var s := name + ".dart";
    assert OccursAt(s, ".dart", |name|);
    forall k | 0 <= k < |name|
      ensures !OccursAt(s, ".dart", k)
    {
      assert s[k] == name[k];
    }
    assert s[..|name|] == name;
  }

  /** Only the first `.dart` goes, wherever it is: `a.dart_b.dart` becomes
      `a_b.dart`. */
  lemma RemoveFirstDartOnly()
    ensures RemoveFirst("a.dart_b.dart", ".dart") == "a_b.dart"
  {
    var s := "a.dart_b.dart";
    assert !OccursAt(s, ".dart", 0) by {
      assert s[0] == 'a';
    }
    assert OccursAt(s, ".dart", 1);
    assert s[..1] + s[6..] == "a_b.dart";
  }

  /** The directory as a prefix: `dir` itself when it already ends in `/`,
      otherwise `dir` followed by one `/`. */
  function DirPrefix(dir: string): (r: string)
    ensures EndsWith(r, "/")
    ensures StartsWith(r, dir) && |r| <= |dir| + 1
    ensures EndsWith(dir, "/") ==> r == dir
  {
    if EndsWith(dir, "/") then dir
    else
      var r := dir + "/";
      assert r[..|dir|] == dir;
      r
  }

  /** Whether a field holds something other than whitespace, that is,
      whether its JavaScript `trim()` is non-empty. */
  predicate HasText(s: string) {
    exists k :: 0 <= k < |s| && s[k] !in JsWhitespace
  }

  /** `#getOutputFilePath`: the empty string when either field is blank,
      otherwise the directory (with `/` added when missing) followed by the
      input's file name without its first `.dart` and then `_flow_test.dart`. */
  function GetOutputFilePath(inputValue: string, dirValue: string): (r: string)
    ensures r == "" <==> !HasText(inputValue) || !HasText(dirValue)
    ensures r != "" ==> EndsWith(r, "_flow_test.dart")
    ensures r != "" ==> StartsWith(r, Trim(dirValue, JsWhitespace))
  {
    var inputPath := Trim(inputValue, JsWhitespace);
    var dir := Trim(dirValue, JsWhitespace);
    if inputPath == [] || dir == [] then ""
    else
      var name := RemoveFirst(LastSegment(inputPath), ".dart");
      var r := DirPrefix(dir) + name + "_flow_test.dart";
      assert r[|r| - 15..] == "_flow_test.dart";
      assert r[..|dir|] == DirPrefix(dir)[..|dir|];
      r
  }

  /** The output path splits back into its parts: the directory prefix, then
      a last segment that is the input's file name (first `.dart` removed)
      with `_flow_test.dart` appended. */
  lemma OutputPathParts(inputValue: string, dirValue: string)
    requires HasText(inputValue) && HasText(dirValue)
    ensures var r := GetOutputFilePath(inputValue, dirValue);
            var name := RemoveFirst(LastSegment(Trim(inputValue, JsWhitespace)), ".dart");
            && LastSegment(r) == name + "_flow_test.dart"
            && r == DirPrefix(Trim(dirValue, JsWhitespace)) + LastSegment(r)
  {
    OutputPathIs(inputValue, dirValue);
    PathSplitsBack(DirPrefix(Trim(dirValue, JsWhitespace)),
                   RemoveFirst(LastSegment(Trim(inputValue, JsWhitespace)), ".dart"));
  }

  /** A directory prefix followed by a test file name splits back into the
      two. */
  lemma PathSplitsBack(prefix: string, name: string)
    requires EndsWith(prefix, "/") && '/' !in name
    ensures LastSegment(prefix + name + "_flow_test.dart") == name + "_flow_test.dart"
    ensures prefix + name + "_flow_test.dart" == prefix + LastSegment(prefix + name + "_flow_test.dart")
  {
    TestFileNameHasNoSlash(name);
    assert prefix + name + "_flow_test.dart" == prefix + (name + "_flow_test.dart");
    LastSegmentOfJoin(prefix, name + "_flow_test.dart");
  }

  /** For two fields with text, the output path is assembled from the trimmed
      fields. */
  lemma OutputPathIs(inputValue: string, dirValue: string)
    requires HasText(inputValue) && HasText(dirValue)
    ensures GetOutputFilePath(inputValue, dirValue) ==
      DirPrefix(Trim(dirValue, JsWhitespace)) + RemoveFirst(LastSegment(Trim(inputValue, JsWhitespace)), ".dart")
        + "_flow_test.dart"
  {
  }

  /** Appending `_flow_test.dart` to a name without `/` adds no `/`. */
  lemma TestFileNameHasNoSlash(name: string)
    requires '/' !in name
    ensures '/' !in name + "_flow_test.dart"
  {
    var file := name + "_flow_test.dart";
    forall k | 0 <= k < |file|
      ensures file[k] != '/'
    {
      if k < |name| {
        assert file[k] == name[k];
      } else {
        assert file[k] == "_flow_test.dart"[k - |name|];
      }
    }
  }

  // ---------------------------------------------------------------------------
  // Button enablement
  // ---------------------------------------------------------------------------

  /** What `#validateForm` reads: the two path fields, the test-script label's
      text, whether the widget file parsed, and whether generation runs. */
  datatype Form = Form(
    inputFile: string,
    outputDir: string,
    testScriptText: string,
    hasValidWidgets: bool,
    isGenerating: bool)

  /** What `#validateForm` writes: the `disabled` flag of each button. */
  datatype ButtonStates = ButtonStates(generateDisabled: bool, runCoverageDisabled: bool)

  /** `#validateForm`'s predicate. The test-script label shows `-` when no
      script is chosen, which counts as none. */
  function ValidateForm(f: Form): (r: ButtonStates)
    ensures !r.generateDisabled <==>
      HasText(f.inputFile) && HasText(f.outputDir) && f.hasValidWidgets && !f.isGenerating
    ensures !r.runCoverageDisabled <==>
      HasText(f.testScriptText) && Trim(f.testScriptText, JsWhitespace) != "-" && !f.isGenerating
  {
    var hasInput := |Trim(f.inputFile, JsWhitespace)| > 0;
    var hasOutputDir := |Trim(f.outputDir, JsWhitespace)| > 0;
    var testScriptText := Trim(f.testScriptText, JsWhitespace);
    var hasTestScript := |testScriptText| > 0 && testScriptText != "-";
    ButtonStates(
      !hasInput || !hasOutputDir || !f.hasValidWidgets || f.isGenerating,
      !hasTestScript || f.isGenerating)
  }

  /** Generate is enabled only when there is an output path to write to. */
  lemma GenerateNeedsOutputPath(f: Form)
    requires !ValidateForm(f).generateDisabled
    ensures GetOutputFilePath(f.inputFile, f.outputDir) != ""
  {
  }

  /** While generation runs both buttons are disabled. */
  lemma GeneratingDisablesBoth(f: Form)
    requires f.isGenerating
    ensures ValidateForm(f).generateDisabled && ValidateForm(f).runCoverageDisabled
  {
  }

  /** The `-` placeholder counts as no script even with whitespace around it. */
  lemma PlaceholderDisablesCoverage(f: Form, pre: string, post: string)
    requires AllIn(pre, JsWhitespace) && AllIn(post, JsWhitespace)
    requires f.testScriptText == pre + "-" + post
    ensures ValidateForm(f).runCoverageDisabled
  {
    TrimPadded(pre, "-", post, JsWhitespace);
  }

  // ---------------------------------------------------------------------------
  // Summary table
  // ---------------------------------------------------------------------------

  /** One test case of a coverage run, as the extension reports it. */
  datatype TestCase = TestCase(name: string, status: string)

  /** The status a summary cell displays. */
  datatype Status = Pending | Running | Passed | Failed

  /** One result cell of the summary table: the test-case name in its
      `data-tc` attribute (empty when absent) and its displayed status. */
  datatype Cell = Cell(tc: string, status: Status)

  /** `tc.name === tcName || tc.name.endsWith(tcName)`. */
  predicate Matches(t: TestCase, tcName: string) {
    t.name == tcName || EndsWith(t.name, tcName)
  }

  /** Case `k` is the first one matching `tcName`. */
  predicate FirstMatch(cases: seq<TestCase>, tcName: string, k: int) {
    && 0 <= k < |cases|
    && Matches(cases[k], tcName)
    && forall j :: 0 <= j < k ==> !Matches(cases[j], tcName)
  }

  /** `testCases.find(...)`: the index of the first matching case. */
  function FindMatch(cases: seq<TestCase>, tcName: string): (r: Option<nat>)
    ensures r.Some? ==> FirstMatch(cases, tcName, r.value)
    ensures r.None? <==> forall k :: 0 <= k < |cases| ==> !Matches(cases[k], tcName)
  {
    if |cases| == 0 then None
    else if Matches(cases[0], tcName) then Some(0)
    else
      var rest := FindMatch(cases[1..], tcName);
      if rest.None? then
        assert forall k :: 1 <= k < |cases| ==> cases[k] == cases[1..][k - 1];
        None
      else
        assert forall j :: 1 <= j <= rest.value ==> cases[j] == cases[1..][j - 1];
        Some(rest.value + 1)
  }

  /** The status a matched case gives a row: `passed` shows Passed, any other
      status shows Failed. */
  function StatusOf(t: TestCase): (s: Status)
    ensures s.Passed? <==> t.status == "passed"
    ensures s == Passed || s == Failed
  {
    if t.status == "passed" then Passed else Failed
  }

  /** `#updateSummaryFromCoverage`: every cell with a `data-tc` name and a
      matching case takes the status of the first such case; every other cell
      is left as it was. */
  method UpdateSummaryFromCoverage(cells: seq<Cell>, cases: seq<TestCase>) returns (r: seq<Cell>)
    ensures |r| == |cells|
    ensures forall i :: 0 <= i < |r| ==> r[i].tc == cells[i].tc
    ensures forall i :: 0 <= i < |r| && cells[i].tc == "" ==> r[i] == cells[i]
    ensures forall i :: 0 <= i < |r| && (forall k :: 0 <= k < |cases| ==> !Matches(cases[k], cells[i].tc)) ==>
      r[i] == cells[i]
    ensures forall i, k :: 0 <= i < |r| && cells[i].tc != "" && FirstMatch(cases, cells[i].tc, k) ==>
      r[i].status == StatusOf(cases[k])
  {
    r := [];
    for i := 0 to |cells|
      invariant |r| == i
      invariant forall j :: 0 <= j < i ==> r[j].tc == cells[j].tc
      invariant forall j :: 0 <= j < i && cells[j].tc == "" ==> r[j] == cells[j]
      invariant forall j :: 0 <= j < i && (forall k :: 0 <= k < |cases| ==> !Matches(cases[k], cells[j].tc)) ==>
        r[j] == cells[j]
      invariant forall j, k :: 0 <= j < i && cells[j].tc != "" && FirstMatch(cases, cells[j].tc, k) ==>
        r[j].status == StatusOf(cases[k])
    {
      var cell := cells[i];
      var next := cell;
      if cell.tc != "" {
        var m := FindMatch(cases, cell.tc);
        if m.Some? {
          FirstMatchUnique(cases, cell.tc, m.value);
          next := Cell(cell.tc, StatusOf(cases[m.value]));
        }
      }
      r := r + [next];
    }
  }

  /** There is at most one first match. */
  lemma FirstMatchUnique(cases: seq<TestCase>, tcName: string, k: int)
    requires FirstMatch(cases, tcName, k)
    ensures forall m :: FirstMatch(cases, tcName, m) ==> m == k
  {
  }

  /** A suffix match earlier in the list wins over a later exact match: the
      row `tc1` takes the failed status of `login_tc1`. */
  lemma EarlierSuffixMatchWins()
    ensures FindMatch([TestCase("login_tc1", "failed"), TestCase("tc1", "passed")], "tc1") == Some(0)
  {
  }
}
