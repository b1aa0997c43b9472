/**
 * The code-task grader, harness/graders/grade_py.py: it reads the file
 * paths out of a unified diff, refuses any patch that is empty, names no
 * file, or touches anything but `impl.py` and `tests.py` (before any
 * workspace exists), counts the edit lines, reads the total coverage
 * percentage out of the coverage report, and passes a patch only when the
 * tests, the coverage threshold and the linter all succeed.
 *
 * Applying the patch and running the tests, the coverage report and the
 * linter are external tool runs; their outcomes are given as `ToolRuns`.
 */
module PatchGrader {
  import opened Text

  const AllowedFiles: set<string> := {"impl.py", "tests.py"}

  // ---------------------------------------------------------------------
  // Paths named by the diff headers (`_extract_patch_paths`)
  // ---------------------------------------------------------------------

  /** The index of the first tab in `s`, or `|s|` (what `s.split("\t", 1)[0]` keeps). */
  function FirstTab(s: string): (i: nat)
    ensures i <= |s| && (i < |s| ==> s[i] == '\t')
    ensures forall k :: 0 <= k < i ==> s[k] != '\t'
  {
    if s == [] || s[0] == '\t' then 0 else 1 + FirstTab(s[1..])
  }

  predicate IsHeader(line: string)
  {
    StartsWith(line, "+++ ") || StartsWith(line, "--- ")
  }

  /** The path a single diff line contributes, if it is a header naming a file. */
  function HeaderPath(line: string): Option<string>
  {
    if !IsHeader(line) then None else PathOfHeaderBody(Strip(line[4..]))
  }

  /** The path named by a trimmed header remainder: cut at the first tab, `/dev/null` skipped, one `a/` or `b/` removed. */
  function PathOfHeaderBody(rest: string): Option<string>
  {
    var path := rest[..FirstTab(rest)];
    if path == "/dev/null" then None
    else if StartsWith(path, "a/") || StartsWith(path, "b/") then Some(path[2..])
    else Some(path)
  }

  /** The paths of a sequence of diff lines, in line order. */
  function PathsOfLines(lines: seq<string>): seq<string>
  {
    if lines == [] then []
    else
      var last := lines[|lines| - 1];
      PathsOfLines(lines[..|lines| - 1]) + (if HeaderPath(last).Some? then [HeaderPath(last).value] else [])
  }

  function PatchPaths(patch: string): seq<string>
  {
    PathsOfLines(Lines(patch))
  }

  method ExtractPatchPaths(patch: string) returns (paths: seq<string>)
    ensures paths == PatchPaths(patch)
  {
    var lines := Lines(patch);
    paths := [];
    var i := 0;
    while i < |lines|
      invariant 0 <= i <= |lines|
      invariant paths == PathsOfLines(lines[..i])
    {
      PathsOfLinesStep(lines, i);
      var line := lines[i];
      if StartsWith(line, "+++ ") || StartsWith(line, "--- ") {
        var rest := Strip(line[4..]);
        var path := rest[..FirstTab(rest)];
        if path != "/dev/null" {
          if StartsWith(path, "a/") || StartsWith(path, "b/") {
            path := path[2..];
          }
          paths := paths + [path];
        }
      }
      i := i + 1;
    }
    assert lines[..i] == lines;
  }

  lemma PathsOfLinesStep(lines: seq<string>, i: nat)
    requires i < |lines|
    ensures PathsOfLines(lines[..i + 1]) ==
      PathsOfLines(lines[..i]) + (if HeaderPath(lines[i]).Some? then [HeaderPath(lines[i]).value] else [])
  {
    assert lines[..i + 1][..i] == lines[..i];
  }

  /** Path extraction distributes over the lines: the paths keep the order of their headers. */
  lemma {:induction false} PathsOfLinesAppend(a: seq<string>, b: seq<string>)
    ensures PathsOfLines(a + b) == PathsOfLines(a) + PathsOfLines(b)
    decreases |b|
  {
    if b != [] {
      var b' := b[..|b| - 1];
      assert (a + b)[..|a + b| - 1] == a + b';
      assert (a + b)[|a + b| - 1] == b[|b| - 1];
      PathsOfLinesAppend(a, b');
    } else {
      assert a + b == a;
    }
  }

  /** Every extracted path comes from a header line, and there are at most as many paths as lines. */
  lemma {:induction false} PathsFromHeaders(lines: seq<string>)
    ensures |PathsOfLines(lines)| <= |lines|
    ensures forall p :: p in PathsOfLines(lines) ==> exists k :: 0 <= k < |lines| && HeaderPath(lines[k]) == Some(p)
  {
    if lines != [] {
      var init := lines[..|lines| - 1];
      PathsFromHeaders(init);
      forall p | p in PathsOfLines(lines)
        ensures exists k :: 0 <= k < |lines| && HeaderPath(lines[k]) == Some(p)
      {
        if p in PathsOfLines(init) {
          var k :| 0 <= k < |init| && HeaderPath(init[k]) == Some(p);
          assert lines[k] == init[k];
        } else {
          assert HeaderPath(lines[|lines| - 1]) == Some(p);
        }
      }
    }
  }

  /** A header line reads the path off its remainder once that is trimmed. */
  lemma HeaderPathOfBody(marker: string, body: string)
    requires marker == "+++ " || marker == "--- "
    requires body == [] || (!IsSpace(body[0]) && !IsSpace(body[|body| - 1]))
    ensures HeaderPath(marker + body) == PathOfHeaderBody(body)
  {
    var line := marker + body;
    assert line[..4] == marker;
    assert line[4..] == body;
    StripOfStripped(body);
  }

  /** The remainder `<prefix><path>` followed by a tab and anything names `<path>`. */
  lemma PathOfPrefixedBody(prefix: string, path: string, tail: string)
    requires prefix == "a/" || prefix == "b/"
    requires forall k :: 0 <= k < |path| ==> path[k] != '\t'
    requires tail == [] || tail[0] == '\t'
    ensures PathOfHeaderBody(prefix + path + tail) == Some(path)
  {
    var body := prefix + path + tail;
    assert body[0] == prefix[0] && body[1] == prefix[1];
    assert forall k :: 2 <= k < 2 + |path| ==> body[k] == path[k - 2];
    assert forall k :: 0 <= k < 2 + |path| ==> body[k] != '\t';
    assert 2 + |path| < |body| ==> body[2 + |path|] == '\t';
    assert FirstTab(body) == 2 + |path|;
    assert body[..2 + |path|] == prefix + path;
    assert (prefix + path)[..2] == prefix;
    assert (prefix + path)[2..] == path;
  }

  /** A `+++ b/<path>` header followed by a tab and a timestamp names `<path>`. */
  lemma HeaderWithTimestamp(path: string, stamp: string)
    requires forall k :: 0 <= k < |path| ==> path[k] != '\t'
    requires stamp != [] && !IsSpace(stamp[|stamp| - 1])
    ensures HeaderPath("+++ b/" + path + "\t" + stamp) == Some(path)
  {
    var body := "b/" + path + ("\t" + stamp);
    assert "+++ b/" + path + "\t" + stamp == "+++ " + body;
    assert body[0] == 'b' && body[|body| - 1] == stamp[|stamp| - 1];
    HeaderPathOfBody("+++ ", body);
    PathOfPrefixedBody("b/", path, "\t" + stamp);
  }

  /** A bare `--- a/<path>` header names `<path>`. */
  lemma HeaderWithoutTimestamp(path: string)
    requires path != [] && !IsSpace(path[|path| - 1])
    requires forall k :: 0 <= k < |path| ==> path[k] != '\t'
    ensures HeaderPath("--- a/" + path) == Some(path)
  {
    var body := "a/" + path + [];
    assert "--- a/" + path == "--- " + body;
    assert body[0] == 'a' && body[|body| - 1] == path[|path| - 1];
    HeaderPathOfBody("--- ", body);
    PathOfPrefixedBody("a/", path, []);
  }

  /** A header remainder naming `/dev/null`, with or without a timestamp, names no file. */
  lemma DevNullBody(tail: string)
    requires tail == [] || tail[0] == '\t'
    ensures PathOfHeaderBody("/dev/null" + tail) == None
  {
    var body := "/dev/null" + tail;
    assert forall k :: 0 <= k < 9 ==> body[k] != '\t';
    assert 9 < |body| ==> body[9] == '\t';
    assert FirstTab(body) == 9;
    assert body[..9] == "/dev/null";
  }

  /** A header naming `/dev/null`, with or without a timestamp, contributes no path. */
  lemma DevNullSkipped(marker: string, tail: string)
    requires marker == "+++ " || marker == "--- "
    requires tail == [] || (tail[0] == '\t' && !IsSpace(tail[|tail| - 1]))
    ensures HeaderPath(marker + "/dev/null" + tail) == None
  {
    var body := "/dev/null" + tail;
    assert marker + "/dev/null" + tail == marker + body;
    assert body[0] == '/';
    assert body[|body| - 1] == if tail == [] then 'l' else tail[|tail| - 1];
    HeaderPathOfBody(marker, body);
    DevNullBody(tail);
  }

  // ---------------------------------------------------------------------
  // Path components (`pathlib.PurePosixPath` parts and name)
  // ---------------------------------------------------------------------

  /** The `/`-separated pieces of a path, empty and `.` pieces included. */
  function Components(s: string): (r: seq<string>)
    ensures |r| >= 1
    decreases |s|
  {
    match LastIndexOf(s, '/')
    case None => [s]
    case Some(j) => Components(s[..j]) + [s[j + 1..]]
  }

  /** The last piece that is neither empty nor `.`: `PurePosixPath(path).name`. */
  function LastName(pieces: seq<string>): string
  {
    if pieces == [] then ""
    else
      var last := pieces[|pieces| - 1];
      if last == "" || last == "." then LastName(pieces[..|pieces| - 1]) else last
  }

  function Name(path: string): string
  {
    LastName(Components(path))
  }

  /** `".." in PurePosixPath(path).parts`: the empty and `.` pieces it drops are never `..`. */
  predicate HasParentPart(path: string)
  {
    ".." in Components(path)
  }

  /** Appending a `/`-free file name adds exactly one component. */
  lemma ComponentsOfChild(dir: string, file: string)
    requires forall k :: 0 <= k < |file| ==> file[k] != '/'
    ensures Components(dir + "/" + file) == Components(dir) + [file]
  {
    var s := dir + "/" + file;
    assert s[|dir|] == '/';
    assert forall k :: |dir| < k < |s| ==> s[k] == file[k - |dir| - 1];
    assert LastIndexOf(s, '/') == Some(|dir|);
    assert s[..|dir|] == dir;
    assert s[|dir| + 1..] == file;
  }

  /** A path without `/` is one component. */
  lemma ComponentsOfFile(file: string)
    requires forall k :: 0 <= k < |file| ==> file[k] != '/'
    ensures Components(file) == [file]
  {
  }

  /** The name of `dir/file` is `file`, and such a path has a parent part exactly when `dir` has one. */
  lemma NameOfChild(dir: string, file: string)
    requires forall k :: 0 <= k < |file| ==> file[k] != '/'
    requires file != "" && file != "." && file != ".."
    ensures Name(dir + "/" + file) == file
    ensures HasParentPart(dir + "/" + file) <==> HasParentPart(dir)
  {
    ComponentsOfChild(dir, file);
    var pieces := Components(dir) + [file];
    assert pieces[..|pieces| - 1] == Components(dir);
  }

  // ---------------------------------------------------------------------
  // The safety whitelist (`_patch_is_safe`)
  // ---------------------------------------------------------------------

  datatype Safety = Safe | Unsafe(reason: string)

  /** The reason a single path is refused, checked in the source's order. */
  function PathViolation(path: string): Option<string>
  {
    if StartsWith(path, "/") then Some("absolute path in patch: " + path)
    else if HasParentPart(path) then Some("parent path in patch: " + path)
    else if Name(path) !in AllowedFiles then Some("patch touches disallowed file: " + path)
    else None
  }

  /** The reason of the first refused path, if any. */
  function FirstViolation(paths: seq<string>): Option<string>
  {
    if paths == [] then None
    else if PathViolation(paths[0]).Some? then PathViolation(paths[0])
    else FirstViolation(paths[1..])
  }

  function SafetyOf(patch: string): Safety
  {
    if IsBlank(patch) then Unsafe("empty patch")
    else if PatchPaths(patch) == [] then Unsafe("no file paths found in patch")
    else match FirstViolation(PatchPaths(patch))
      case Some(reason) => Unsafe(reason)
      case None => Safe
  }

  method PatchIsSafe(patch: string) returns (s: Safety)
    ensures s == SafetyOf(patch)
  {
    StripEmptyIffBlank(patch);
    if Strip(patch) == [] {
      return Unsafe("empty patch");
    }
    var paths := ExtractPatchPaths(patch);
    if paths == [] {
      return Unsafe("no file paths found in patch");
    }
    var i := 0;
    while i < |paths|
      invariant 0 <= i <= |paths|
      invariant FirstViolation(paths) == FirstViolation(paths[i..])
    {
      var path := paths[i];
      assert paths[i..][0] == path && paths[i..][1..] == paths[i + 1..];
      if StartsWith(path, "/") {
        return Unsafe("absolute path in patch: " + path);
      }
      if ".." in Components(path) {
        return Unsafe("parent path in patch: " + path);
      }
      if Name(path) !in AllowedFiles {
        return Unsafe("patch touches disallowed file: " + path);
      }
      i := i + 1;
    }
    return Safe;
  }

  /** The first violation is the reason of the earliest refused path; there is none iff every path is accepted. */
  lemma {:induction false} FirstViolationSpec(paths: seq<string>)
    ensures FirstViolation(paths).None? <==> forall k :: 0 <= k < |paths| ==> PathViolation(paths[k]).None?
    ensures FirstViolation(paths).Some? ==>
      exists k :: 0 <= k < |paths| && PathViolation(paths[k]) == FirstViolation(paths)
                  && forall j :: 0 <= j < k ==> PathViolation(paths[j]).None?
  {
    if paths != [] && PathViolation(paths[0]).None? {
      FirstViolationSpec(paths[1..]);
      assert forall k :: 1 <= k < |paths| ==> paths[k] == paths[1..][k - 1];
      if FirstViolation(paths).Some? {
        var k :| 0 <= k < |paths[1..]| && PathViolation(paths[1..][k]) == FirstViolation(paths[1..])
                 && forall j :: 0 <= j < k ==> PathViolation(paths[1..][j]).None?;
        assert PathViolation(paths[k + 1]) == FirstViolation(paths);
        assert forall j :: 0 <= j < k + 1 ==> PathViolation(paths[j]).None? by {
          forall j | 0 <= j < k + 1 ensures PathViolation(paths[j]).None? {
            if j > 0 {
              assert paths[j] == paths[1..][j - 1];
            }
          }
        }
      }
    }
  }

  /** A safe patch is non-blank, names at least one file, and every file is a relative, `..`-free `impl.py` or `tests.py`. */
  lemma SafeIff(patch: string)
    ensures SafetyOf(patch) == Safe <==>
      && !IsBlank(patch)
      && PatchPaths(patch) != []
      && forall p :: p in PatchPaths(patch) ==> !StartsWith(p, "/") && !HasParentPart(p) && Name(p) in AllowedFiles
  {
    var paths := PatchPaths(patch);
    FirstViolationSpec(paths);
    assert forall p :: p in paths <==> exists k :: 0 <= k < |paths| && paths[k] == p;
  }

  /** The refusal of an unsafe patch names either an emptiness problem or its first offending path. */
  lemma UnsafeReason(patch: string)
    requires SafetyOf(patch).Unsafe?
    ensures || (IsBlank(patch) && SafetyOf(patch).reason == "empty patch")
            || (!IsBlank(patch) && PatchPaths(patch) == [] && SafetyOf(patch).reason == "no file paths found in patch")
            || exists k :: 0 <= k < |PatchPaths(patch)| && PathViolation(PatchPaths(patch)[k]) == Some(SafetyOf(patch).reason)
                           && forall j :: 0 <= j < k ==> PathViolation(PatchPaths(patch)[j]).None?
  {
    FirstViolationSpec(PatchPaths(patch));
  }

  lemma RelativePath(path: string)
    requires path != [] && path[0] != '/'
    ensures !StartsWith(path, "/")
  {
    assert path[..1][0] == path[0];
  }

  /** `impl.py`, also inside a directory, is accepted. */
  lemma AllowedPathExamples()
    ensures PathViolation("impl.py").None?
    ensures PathViolation("src/tests.py").None?
  {
    ComponentsOfFile("impl.py");
    RelativePath("impl.py");
    assert Name("impl.py") == "impl.py";
    ComponentsOfFile("src");
    NameOfChild("src", "tests.py");
    assert "src" + "/" + "tests.py" == "src/tests.py";
    RelativePath("src/tests.py");
    assert !HasParentPart("src");
  }

  /** A path climbing out with `..`, a file outside the whitelist and an absolute path are refused with their reasons. */
  lemma ParentPathRefused()
    ensures PathViolation("../impl.py") == Some("parent path in patch: ../impl.py")
  {
    ComponentsOfFile("..");
    ComponentsOfChild("..", "impl.py");
    assert ".." + "/" + "impl.py" == "../impl.py";
    RelativePath("../impl.py");
    assert "parent path in patch: " + "../impl.py" == "parent path in patch: ../impl.py";
  }

  lemma DisallowedFileRefused()
    ensures PathViolation("setup.py") == Some("patch touches disallowed file: setup.py")
  {
    ComponentsOfFile("setup.py");
    RelativePath("setup.py");
    assert "patch touches disallowed file: " + "setup.py" == "patch touches disallowed file: setup.py";
    assert Name("setup.py") == "setup.py";
  }

  lemma AbsolutePathRefused()
    ensures PathViolation("/etc/passwd") == Some("absolute path in patch: /etc/passwd")
  {
    assert "/etc/passwd"[..1] == "/";
    assert "absolute path in patch: " + "/etc/passwd" == "absolute path in patch: /etc/passwd";
  }

  // ---------------------------------------------------------------------
  // Edit lines
  // ---------------------------------------------------------------------

  predicate IsAddedLine(line: string)
  {
    !StartsWith(line, "+++") && !StartsWith(line, "---") && StartsWith(line, "+")
  }

  predicate IsRemovedLine(line: string)
  {
    !StartsWith(line, "+++") && !StartsWith(line, "---") && StartsWith(line, "-")
  }

  function CountAdded(lines: seq<string>): nat
  {
    if lines == [] then 0
    else CountAdded(lines[..|lines| - 1]) + (if IsAddedLine(lines[|lines| - 1]) then 1 else 0)
  }

  function CountRemoved(lines: seq<string>): nat
  {
    if lines == [] then 0
    else CountRemoved(lines[..|lines| - 1]) + (if IsRemovedLine(lines[|lines| - 1]) then 1 else 0)
  }

  /** The number of lines starting `+` or `-`, file headers excluded. */
  function EditLines(patch: string): nat
  {
    CountAdded(Lines(patch)) + CountRemoved(Lines(patch))
  }

  method CountEditLines(patch: string) returns (added: nat, removed: nat)
    ensures added == CountAdded(Lines(patch)) && removed == CountRemoved(Lines(patch))
  {
    var lines := Lines(patch);
    added, removed := 0, 0;
    var i := 0;
    while i < |lines|
      invariant 0 <= i <= |lines|
      invariant added == CountAdded(lines[..i]) && removed == CountRemoved(lines[..i])
    {
      var line := lines[i];
      assert lines[..i + 1][..i] == lines[..i];
      if StartsWith(line, "+++") || StartsWith(line, "---") {
        i := i + 1;
        continue;
      }
      if StartsWith(line, "+") {
        added := added + 1;
      } else if StartsWith(line, "-") {
        removed := removed + 1;
      }
      i := i + 1;
    }
    assert lines[..i] == lines;
  }

  /** No line is both an addition and a removal, and no file header is either, so every line is counted at most once. */
  lemma EditLineKinds(line: string)
    ensures !(IsAddedLine(line) && IsRemovedLine(line))
    ensures IsHeader(line) ==> !IsAddedLine(line) && !IsRemovedLine(line)
  {
    if IsHeader(line) {
      assert line[..4][..3] == line[..3];
    }
  }

  lemma {:induction false} EditLinesBounded(lines: seq<string>)
    ensures CountAdded(lines) + CountRemoved(lines) <= |lines|
  {
    if lines != [] {
      EditLinesBounded(lines[..|lines| - 1]);
      EditLineKinds(lines[|lines| - 1]);
    }
  }

  // ---------------------------------------------------------------------
  // Coverage (`_parse_coverage`): the first `TOTAL\s+\d+\s+\d+\s+(\d+)%`
  // ---------------------------------------------------------------------

  predicate IsDigit(c: char)
  {
    '0' <= c <= '9'
  }

  /** The length of the whitespace run at `i`. */
  function SpaceRun(s: string, i: nat): (n: nat)
    requires i <= |s|
    ensures i + n <= |s|
    decreases |s| - i
  {
    if i < |s| && IsSpace(s[i]) then 1 + SpaceRun(s, i + 1) else 0
  }

  /** The length of the digit run at `i`. */
  function DigitRun(s: string, i: nat): (n: nat)
    requires i <= |s|
    ensures i + n <= |s|
    decreases |s| - i
  {
    if i < |s| && IsDigit(s[i]) then 1 + DigitRun(s, i + 1) else 0
  }

  /** The value of a decimal numeral. */
  function DigitsValue(ds: string): nat
  {
    if ds == [] then 0
    else DigitsValue(ds[..|ds| - 1]) * 10 + ((ds[|ds| - 1] as int - '0' as int) % 10)
  }

  /** Where a numeral sits in the report text. */
  datatype Span = Span(start: nat, end: nat)

  /** `\s+\d+` at `j`: the span of the digits, when both runs are non-empty. */
  function Column(s: string, j: nat): (r: Option<Span>)
    requires j <= |s|
    ensures r.Some? ==> j < r.value.start < r.value.end <= |s|
  {
    var spaces := SpaceRun(s, j);
    var digits := DigitRun(s, j + spaces);
    if spaces == 0 || digits == 0 then None else Some(Span(j + spaces, j + spaces + digits))
  }

  /** `TOTAL\s+\d+\s+\d+\s+\d+` at `i`: the span of the last numeral. */
  function TotalColumns(s: string, i: nat): (r: Option<Span>)
    requires i <= |s|
    ensures r.Some? ==> i < r.value.start < r.value.end <= |s|
  {
    if !OccursAt(s, "TOTAL", i) then None
    else match Column(s, i + 5)
      case None => None
      case Some(c1) =>
        match Column(s, c1.end)
        case None => None
        case Some(c2) => Column(s, c2.end)
  }

  /**
   * The match anchored at `i`, if there is one, and the value of its group.
   * Whitespace and digits are disjoint, so each `+` run is maximal and no
   * backtracking can produce another match at the same start.
   */
  function CoverageAt(s: string, i: nat): Option<nat>
    requires i <= |s|
  {
    match TotalColumns(s, i)
    case None => None
    case Some(c) => if c.end < |s| && s[c.end] == '%' then Some(DigitsValue(s[c.start..c.end])) else None
  }

  /** `re.search` from `i` on: the leftmost match. */
  function CoverageFrom(s: string, i: nat): (r: Option<nat>)
    requires i <= |s|
    ensures r.Some? ==> exists k :: i <= k <= |s| && CoverageAt(s, k) == r && forall j :: i <= j < k ==> CoverageAt(s, j).None?
    ensures r.None? ==> forall j :: i <= j <= |s| ==> CoverageAt(s, j).None?
    decreases |s| - i
  {
    if CoverageAt(s, i).Some? then CoverageAt(s, i)
    else if i == |s| then None
    else CoverageFrom(s, i + 1)
  }

  function ParseCoverage(report: string): Option<nat>
  {
    CoverageFrom(report, 0)
  }

  /** The decimal numeral of `n`. */
  function Decimal(n: nat): (ds: string)
    ensures ds != [] && forall k :: 0 <= k < |ds| ==> IsDigit(ds[k])
  {
    if n < 10 then [('0' as int + n) as char] else Decimal(n / 10) + [('0' as int + n % 10) as char]
  }

  lemma {:induction false} DigitsValueOfDecimal(n: nat)
    ensures DigitsValue(Decimal(n)) == n
  {
    var ds := Decimal(n);
    if n >= 10 {
      DigitsValueOfDecimal(n / 10);
      assert ds[..|ds| - 1] == Decimal(n / 10);
    }
  }

  /** A non-empty run of whitespace, as `\s+` matches it. */
  predicate IsSpaceRun(w: string)
  {
    w != [] && forall k :: 0 <= k < |w| ==> IsSpace(w[k])
  }

  /**
   * A coverage total line: `TOTAL`, then the statement count, the missed
   * count and the percentage, each after its own run of whitespace (the
   * tool pads its columns to widths of its choosing).
   */
  function TotalLine(w1: string, w2: string, w3: string, statements: nat, missed: nat, percent: nat): string
  {
    "TOTAL" + w1 + Decimal(statements) + w2 + Decimal(missed) + w3 + Decimal(percent) + "%"
  }

  lemma {:induction false} SpaceRunOf(s: string, i: nat, n: nat)
    requires i + n < |s| && !IsSpace(s[i + n])
    requires forall k :: i <= k < i + n ==> IsSpace(s[k])
    ensures SpaceRun(s, i) == n
    decreases n
  {
    if n > 0 {
      SpaceRunOf(s, i + 1, n - 1);
    }
  }

  lemma {:induction false} DigitRunOf(s: string, i: nat, n: nat)
    requires i + n < |s| && !IsDigit(s[i + n])
    requires forall k :: i <= k < i + n ==> IsDigit(s[k])
    ensures DigitRun(s, i) == n
    decreases n
  {
    if n > 0 {
      DigitRunOf(s, i + 1, n - 1);
    }
  }

  /** Dropping the first piece of a suffix moves the index past it. */
  lemma SuffixStep(s: string, j: nat, x: string, y: string)
    requires j <= |s| && s[j..] == x + y
    ensures j + |x| <= |s| && s[j + |x|..] == y
  {
    assert s[j + |x|..] == s[j..][|x|..];
  }

  /** A numeral before a character that is not a digit forms a digit run of its length. */
  lemma NumeralAt(s: string, j: nat, digits: string, z: string)
    requires j <= |s| && s[j..] == digits + z
    requires forall k :: 0 <= k < |digits| ==> IsDigit(digits[k])
    requires z != [] && !IsDigit(z[0])
    ensures DigitRun(s, j) == |digits| && s[j..j + |digits|] == digits
  {
    assert forall k :: j <= k < |s| ==> s[k] == s[j..][k - j];
    DigitRunOf(s, j, |digits|);
    assert s[j..j + |digits|] == s[j..][..|digits|];
  }

  lemma CoverageAtOfSpan(s: string, i: nat, span: Span)
    requires i <= |s| && TotalColumns(s, i) == Some(span) && span.end < |s| && s[span.end] == '%'
    ensures CoverageAt(s, i) == Some(DigitsValue(s[span.start..span.end]))
  {
  }

  /** A whitespace run before a digit is a maximal run of its length. */
  lemma SpacesAt(s: string, j: nat, w: string, digits: string, z: string)
    requires j <= |s| && s[j..] == w + (digits + z)
    requires IsSpaceRun(w) && digits != [] && IsDigit(digits[0])
    ensures SpaceRun(s, j) == |w|
  {
    assert forall k :: j <= k < |s| ==> s[k] == s[j..][k - j];
    SpaceRunOf(s, j, |w|);
  }

  /** One column of a total line: whitespace, then a numeral, then something that is not a digit. */
  lemma ColumnAt(s: string, j: nat, w: string, digits: string, z: string)
    requires j <= |s| && s[j..] == w + (digits + z)
    requires IsSpaceRun(w)
    requires digits != [] && forall k :: 0 <= k < |digits| ==> IsDigit(digits[k])
    requires z != [] && !IsDigit(z[0])
    ensures Column(s, j) == Some(Span(j + |w|, j + |w| + |digits|))
    ensures s[j + |w|..j + |w| + |digits|] == digits && s[j + |w| + |digits|..] == z
  {
    SpacesAt(s, j, w, digits, z);
    SuffixStep(s, j, w, digits + z);
    NumeralAt(s, j + |w|, digits, z);
    SuffixStep(s, j + |w|, digits, z);
  }

  /** Three columns at `j`, the last numeral followed by `z`; `e1` and `e2` are where the first two end. */
  lemma ThreeColumns(s: string, j: nat, w1: string, a: string, w2: string, b: string, w3: string, c: string, z: string)
    returns (e1: nat, e2: nat, span: Span)
    requires j <= |s| && s[j..] == w1 + (a + (w2 + (b + (w3 + (c + z)))))
    requires IsSpaceRun(w1) && IsSpaceRun(w2) && IsSpaceRun(w3)
    requires a != [] && forall k :: 0 <= k < |a| ==> IsDigit(a[k])
    requires b != [] && forall k :: 0 <= k < |b| ==> IsDigit(b[k])
    requires c != [] && forall k :: 0 <= k < |c| ==> IsDigit(c[k])
    requires z != [] && !IsDigit(z[0])
    ensures span.start <= span.end <= |s| && s[span.start..span.end] == c && s[span.end..] == z
    ensures e1 <= |s| && e2 <= |s|
    ensures Column(s, j).Some? && Column(s, j).value.end == e1
    ensures Column(s, e1).Some? && Column(s, e1).value.end == e2
    ensures Column(s, e2) == Some(span)
  {
    ColumnAt(s, j, w1, a, w2 + (b + (w3 + (c + z))));
    e1 := j + |w1| + |a|;
    e2, span := TwoColumns(s, e1, w2, b, w3, c, z);
  }

  /** The last two columns of a total line at `j`. */
  lemma TwoColumns(s: string, j: nat, w2: string, b: string, w3: string, c: string, z: string) returns (e2: nat, span: Span)
    requires j <= |s| && s[j..] == w2 + (b + (w3 + (c + z)))
    requires IsSpaceRun(w2) && IsSpaceRun(w3)
    requires b != [] && forall k :: 0 <= k < |b| ==> IsDigit(b[k])
    requires c != [] && forall k :: 0 <= k < |c| ==> IsDigit(c[k])
    requires z != [] && !IsDigit(z[0])
    ensures span.start <= span.end <= |s| && s[span.start..span.end] == c && s[span.end..] == z
    ensures e2 <= |s|
    ensures Column(s, j).Some? && Column(s, j).value.end == e2
    ensures Column(s, e2) == Some(span)
  {
    ColumnAt(s, j, w2, b, w3 + (c + z));
    e2 := j + |w2| + |b|;
    ColumnAt(s, e2, w3, c, z);
    span := Span(e2 + |w3|, e2 + |w3| + |c|);
  }

  lemma TotalColumnsOf(s: string, i: nat, e1: nat, e2: nat, span: Span)
    requires i + 5 <= |s| && OccursAt(s, "TOTAL", i) && e1 <= |s| && e2 <= |s|
    requires Column(s, i + 5).Some? && Column(s, i + 5).value.end == e1
    requires Column(s, e1).Some? && Column(s, e1).value.end == e2
    requires Column(s, e2) == Some(span)
    ensures TotalColumns(s, i) == Some(span)
  {
  }

  /** `TOTAL` and three columns at `i`, the last numeral followed by `z`. */
  lemma TotalAt(s: string, i: nat, w1: string, a: string, w2: string, b: string, w3: string, c: string, z: string)
    returns (span: Span)
    requires i <= |s| && s[i..] == "TOTAL" + (w1 + (a + (w2 + (b + (w3 + (c + z))))))
    requires IsSpaceRun(w1) && IsSpaceRun(w2) && IsSpaceRun(w3)
    requires a != [] && forall k :: 0 <= k < |a| ==> IsDigit(a[k])
    requires b != [] && forall k :: 0 <= k < |b| ==> IsDigit(b[k])
    requires c != [] && forall k :: 0 <= k < |c| ==> IsDigit(c[k])
    requires z != [] && !IsDigit(z[0])
    ensures TotalColumns(s, i) == Some(span)
    ensures span.start <= span.end <= |s| && s[span.start..span.end] == c && s[span.end..] == z
  {
    var r0 := w1 + (a + (w2 + (b + (w3 + (c + z)))));
    assert s[i..i + 5] == s[i..][..5];
    SuffixStep(s, i, "TOTAL", r0);
    var e1, e2;
    e1, e2, span := ThreeColumns(s, i + 5, w1, a, w2, b, w3, c, z);
    TotalColumnsOf(s, i, e1, e2, span);
  }

  /** The total line, regrouped to the right as the column lemmas read it. */
  lemma TotalLineRegrouped(prefix: string, w1: string, a: string, w2: string, b: string, w3: string, c: string, rest: string)
    ensures prefix + ("TOTAL" + w1 + a + w2 + b + w3 + c + "%") + rest ==
      prefix + ("TOTAL" + (w1 + (a + (w2 + (b + (w3 + (c + ("%" + rest))))))))
  {
  }

  /** The columns of a total line at `|prefix|`: the last numeral is the percentage, followed by `%`. */
  lemma TotalLineColumns(prefix: string, w1: string, w2: string, w3: string, statements: nat, missed: nat, percent: nat, rest: string)
    returns (span: Span)
    requires IsSpaceRun(w1) && IsSpaceRun(w2) && IsSpaceRun(w3)
    ensures var s := prefix + TotalLine(w1, w2, w3, statements, missed, percent) + rest;
      && TotalColumns(s, |prefix|) == Some(span) && span.end < |s| && s[span.end] == '%'
      && s[span.start..span.end] == Decimal(percent)
  {
    var a, b, c := Decimal(statements), Decimal(missed), Decimal(percent);
    var s := prefix + ("TOTAL" + (w1 + (a + (w2 + (b + (w3 + (c + ("%" + rest))))))));
    TotalLineRegrouped(prefix, w1, a, w2, b, w3, c, rest);
    assert s[|prefix|..] == "TOTAL" + (w1 + (a + (w2 + (b + (w3 + (c + ("%" + rest)))))));
    span := TotalAt(s, |prefix|, w1, a, w2, b, w3, c, "%" + rest);
    assert s[span.end..][0] == '%';
  }

  /** A total line at `|prefix|`, whatever the widths of its whitespace, is a match whose group is its percentage. */
  lemma TotalLineMatches(prefix: string, w1: string, w2: string, w3: string, statements: nat, missed: nat, percent: nat, rest: string)
    requires IsSpaceRun(w1) && IsSpaceRun(w2) && IsSpaceRun(w3)
    ensures CoverageAt(prefix + TotalLine(w1, w2, w3, statements, missed, percent) + rest, |prefix|) == Some(percent)
  {
    var span := TotalLineColumns(prefix, w1, w2, w3, statements, missed, percent, rest);
    CoverageAtOfSpan(prefix + TotalLine(w1, w2, w3, statements, missed, percent) + rest, |prefix|, span);
    DigitsValueOfDecimal(percent);
  }

  /**
   * The parser reads back the percentage of a total line, wherever it sits
   * after text without a capital `T` (such as the report's column header).
   */
  lemma CoverageOfTotalLine(prefix: string, w1: string, w2: string, w3: string, statements: nat, missed: nat, percent: nat, rest: string)
    requires IsSpaceRun(w1) && IsSpaceRun(w2) && IsSpaceRun(w3)
    requires forall k :: 0 <= k < |prefix| ==> prefix[k] != 'T'
    ensures ParseCoverage(prefix + TotalLine(w1, w2, w3, statements, missed, percent) + rest) == Some(percent)
  {
    var s := prefix + TotalLine(w1, w2, w3, statements, missed, percent) + rest;
    TotalLineMatches(prefix, w1, w2, w3, statements, missed, percent, rest);
    forall j | 0 <= j < |prefix| ensures CoverageAt(s, j).None? {
      assert s[j] == prefix[j];
      if j + 5 <= |s| {
        assert s[j..j + 5][0] == s[j];
      }
    }
    CoverageFromSkips(s, 0, |prefix|);
  }

  /** Search passes over start positions that cannot match. */
  lemma CoverageFromSkips(s: string, i: nat, k: nat)
    requires i <= k <= |s| && forall j :: i <= j < k ==> CoverageAt(s, j).None?
    ensures CoverageFrom(s, i) == CoverageFrom(s, k)
    decreases k - i
  {
    if i < k {
      CoverageFromSkips(s, i + 1, k);
    }
  }

  /** A report without `TOTAL` has no coverage figure. */
  lemma NoTotalNoCoverage(report: string)
    requires !Contains(report, "TOTAL")
    ensures ParseCoverage(report).None?
  {
  }

  // ---------------------------------------------------------------------
  // The grade (`evaluate`)
  // ---------------------------------------------------------------------

  /** The outcomes of the external tool runs on the patched workspace copy. */
  datatype ToolRuns = ToolRuns(
    applied: bool,          // `patch -p0` or `patch -p1` succeeded
    applyError: string,     // the trimmed output of the failed apply
    testsExit: int,         // exit status of the coverage-instrumented test run
    testsStdout: string,
    testsStderr: string,
    reportText: string,     // standard output of the coverage report
    ruffExit: int,          // exit status of the linter
    ruffStdout: string,
    ruffStderr: string)

  datatype PatchGrade =
    | Rejected(patchError: string)
    | ApplyFailed(patchError: string, editLines: nat)
    | Ran(testsOk: bool, coveragePercent: Option<nat>, coverageOk: bool, ruffOk: bool,
          pytestOutput: string, pytestError: string, ruffOutput: string, ruffError: string, editLines: nat)
  {
    predicate Passed()
    {
      Ran? && testsOk && coverageOk && ruffOk
    }

    predicate PatchApplied()
    {
      Ran?
    }
  }

  predicate CoverageOk(percent: Option<nat>, minCoverage: real)
  {
    percent.Some? && percent.value as real >= minCoverage
  }

  function GradePatch(patch: string, runs: ToolRuns, minCoverage: real): PatchGrade
  {
    var safety := SafetyOf(patch);
    if safety.Unsafe? then Rejected(safety.reason)
    else if !runs.applied then ApplyFailed(runs.applyError, EditLines(patch))
    else
      var percent := ParseCoverage(runs.reportText);
      Ran(runs.testsExit == 0, percent, CoverageOk(percent, minCoverage), runs.ruffExit == 0,
          Strip(runs.testsStdout), Strip(runs.testsStderr), Strip(runs.ruffStdout), Strip(runs.ruffStderr),
          EditLines(patch))
  }

  method Evaluate(patch: string, runs: ToolRuns, minCoverage: real) returns (g: PatchGrade)
    ensures g == GradePatch(patch, runs, minCoverage)
  {
    var safety := PatchIsSafe(patch);
    if safety.Unsafe? {
      return Rejected(safety.reason);
    }
    var added, removed := CountEditLines(patch);
    var editLines := added + removed;
    assert editLines == EditLines(patch);
    if !runs.applied {
      g := ApplyFailed(runs.applyError, editLines);
    } else {
      var testsOk := runs.testsExit == 0;
      var percent := ParseCoverage(runs.reportText);
      var coverageOk := percent.Some? && percent.value as real >= minCoverage;
      var ruffOk := runs.ruffExit == 0;
      g := Ran(testsOk, percent, coverageOk, ruffOk, Strip(runs.testsStdout), Strip(runs.testsStderr),
               Strip(runs.ruffStdout), Strip(runs.ruffStderr), editLines);
    }
  }

  /**
   * A patch passes exactly when it is safe, it applies, the tests exit 0,
   * a coverage total at least the threshold is reported, and the linter
   * exits 0; all three tool verdicts are reported even when one fails.
   */
  lemma PassedIff(patch: string, runs: ToolRuns, minCoverage: real)
    ensures GradePatch(patch, runs, minCoverage).Passed() <==>
      && SafetyOf(patch) == Safe && runs.applied && runs.testsExit == 0
      && ParseCoverage(runs.reportText).Some? && ParseCoverage(runs.reportText).value as real >= minCoverage
      && runs.ruffExit == 0
    ensures SafetyOf(patch) == Safe && runs.applied ==>
      var g := GradePatch(patch, runs, minCoverage);
      g.Ran? && (g.testsOk <==> runs.testsExit == 0) && (g.ruffOk <==> runs.ruffExit == 0)
      && g.coveragePercent == ParseCoverage(runs.reportText)
  {
  }

  /** An unsafe patch is refused with its reason whatever the tools would have done: nothing runs. */
  lemma {:induction false} UnsafeIgnoresTools(patch: string, runs1: ToolRuns, runs2: ToolRuns, minCoverage: real)
    requires SafetyOf(patch).Unsafe?
    ensures GradePatch(patch, runs1, minCoverage) == GradePatch(patch, runs2, minCoverage) == Rejected(SafetyOf(patch).reason)
    ensures !GradePatch(patch, runs1, minCoverage).Passed() && !GradePatch(patch, runs1, minCoverage).PatchApplied()
  {
  }

  /** A safe patch that fails to apply fails, and still reports its edit-line count. */
  lemma ApplyFailureKeepsEditCount(patch: string, runs: ToolRuns, minCoverage: real)
    requires SafetyOf(patch) == Safe && !runs.applied
    ensures GradePatch(patch, runs, minCoverage) == ApplyFailed(runs.applyError, EditLines(patch))
    ensures EditLines(patch) <= |Lines(patch)|
  {
    EditLinesBounded(Lines(patch));
  }
}
