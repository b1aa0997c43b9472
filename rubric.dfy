/**
 * Rubric extraction and pattern matching shared by the free-text graders
 * (harness/graders/grade_md.py, harness/graders/grade_lean.py).
 *
 * A rubric is a delimited comment block in the task text: `<!-- rubric: ... -->`
 * for general and synthesis tasks, `/- rubric: ... -/` for formal-proof tasks.
 * Inside it, lines `must: <pattern>` and `should: <pattern>` (prefix matched
 * case-insensitively after trimming) contribute patterns; everything else is
 * ignored.
 */
module Rubric {
  import opened Text

  datatype Rubric = Rubric(must: seq<string>, should: seq<string>)

  const MdOpener: string := "<!--"
  const MdCloser: string := "-->"
  const LeanOpener: string := "/-"
  const LeanCloser: string := "-/"

  /** The first index at or after `i` that is not whitespace (the regex `\s*`). */
  function SkipSpaces(s: string, i: nat): (j: nat)
    requires i <= |s|
    ensures i <= j <= |s| && (j < |s| ==> !IsSpace(s[j]))
    ensures forall k :: i <= k < j ==> IsSpace(s[k])
    decreases |s| - i
  {
    if i < |s| && IsSpace(s[i]) then SkipSpaces(s, i + 1) else i
  }

  /**
   * When `opener`, optional whitespace and `rubric:` (in any ASCII case) start
   * at index `i`, the index just past them.  The greedy `\s*` cannot give
   * back characters, since `r` is not whitespace.
   */
  function HeaderEnd(text: string, opener: string, i: nat): (r: Option<nat>)
    requires i <= |text|
    ensures r.Some? ==> i + |opener| + 7 <= r.value <= |text|
  {
    if !OccursAt(text, opener, i) then None
    else
      var j := SkipSpaces(text, i + |opener|);
      if j + 7 <= |text| && Lower(text[j..j + 7]) == "rubric:" then Some(j + 7) else None
  }

  /** The match of `opener \s* rubric: (.*?) closer` (dot matches newline) whose header starts at `i`. */
  function BlockAt(text: string, opener: string, closer: string, i: nat): Option<string>
    requires i <= |text|
  {
    match HeaderEnd(text, opener, i)
    case None => None
    case Some(j) =>
      match Find(text[j..], closer)
      case None => None
      case Some(k) => Some(text[j..j + k])
  }

  /** `re.search(...)` from index `i` on: the leftmost start for which the pattern matches. */
  function BlockFrom(text: string, opener: string, closer: string, i: nat): Option<string>
    requires i <= |text|
    decreases |text| - i
  {
    var here := BlockAt(text, opener, closer, i);
    if here.Some? then here
    else if i == |text| then None
    else BlockFrom(text, opener, closer, i + 1)
  }

  /** The captured rubric block of a task text, if the delimited block is present and closed. */
  function Block(text: string, opener: string, closer: string): Option<string>
  {
    BlockFrom(text, opener, closer, 0)
  }

  /** The lazy `(.*?)` stops at the first closer: a captured block never contains one. */
  lemma {:induction false} BlockLacksCloser(text: string, opener: string, closer: string, i: nat)
    requires i <= |text| && closer != []
    ensures BlockFrom(text, opener, closer, i).Some? ==> !Contains(BlockFrom(text, opener, closer, i).value, closer)
    decreases |text| - i
  {
    var here := BlockAt(text, opener, closer, i);
    if here.Some? {
      var j := HeaderEnd(text, opener, i).value;
      var rest := text[j..];
      var k := Find(rest, closer).value;
      var block := rest[..k];
      assert here.value == block;
      if Contains(block, closer) {
        var m := Find(block, closer).value;
        assert OccursAt(rest, closer, m) by {
          assert block[m..m + |closer|] == rest[m..m + |closer|];
        }
        assert false;
      }
    } else if i < |text| {
      BlockLacksCloser(text, opener, closer, i + 1);
    }
  }

  /** Whether the header starting at `k`, if there is one, is followed by a closer. */
  predicate ClosedHeaderAt(text: string, opener: string, closer: string, k: nat)
    requires k <= |text|
  {
    HeaderEnd(text, opener, k).Some? && Find(text[HeaderEnd(text, opener, k).value..], closer).Some?
  }

  /**
   * There is no block from `i` on exactly when no header at or after `i` is
   * followed by a closer: an unterminated block is treated as absent.
   */
  lemma {:induction false} NoClosedHeaderNoBlock(text: string, opener: string, closer: string, i: nat)
    requires i <= |text|
    ensures BlockFrom(text, opener, closer, i) == None <==>
      forall k :: i <= k <= |text| ==> !ClosedHeaderAt(text, opener, closer, k)
    decreases |text| - i
  {
    assert BlockAt(text, opener, closer, i).None? <==> !ClosedHeaderAt(text, opener, closer, i);
    if i < |text| {
      NoClosedHeaderNoBlock(text, opener, closer, i + 1);
      assert (forall k :: i <= k <= |text| ==> !ClosedHeaderAt(text, opener, closer, k)) <==>
        !ClosedHeaderAt(text, opener, closer, i) && forall k :: i + 1 <= k <= |text| ==> !ClosedHeaderAt(text, opener, closer, k);
    }
  }

  /** An unterminated block (no closer anywhere) is treated as absent. */
  lemma {:induction false} NoCloserNoBlock(text: string, opener: string, closer: string, i: nat)
    requires i <= |text|
    requires !Contains(text, closer)
    ensures BlockFrom(text, opener, closer, i) == None
    decreases |text| - i
  {
    match HeaderEnd(text, opener, i) {
      case None =>
      case Some(j) =>
        if Find(text[j..], closer).Some? {
          var k := Find(text[j..], closer).value;
          assert text[j..][k..k + |closer|] == text[j + k..j + k + |closer|];
          ContainsAt(text, closer, j + k);
        }
    }
    if i < |text| {
      NoCloserNoBlock(text, opener, closer, i + 1);
    }
  }

  /** A text in which the opener never occurs has no rubric block. */
  lemma {:induction false} NoOpenerNoBlock(text: string, opener: string, closer: string, i: nat)
    requires i <= |text|
    requires !Contains(text, opener)
    ensures BlockFrom(text, opener, closer, i) == None
    decreases |text| - i
  {
    if OccursAt(text, opener, i) {
      ContainsAt(text, opener, i);
    }
    if i < |text| {
      NoOpenerNoBlock(text, opener, closer, i + 1);
    }
  }

  /** The search moves past the indices at which the opener does not start. */
  lemma {:induction false} BlockFromSkips(text: string, opener: string, closer: string, i: nat, j: nat)
    requires i <= j <= |text|
    requires forall k :: i <= k < j ==> !OccursAt(text, opener, k)
    ensures BlockFrom(text, opener, closer, i) == BlockFrom(text, opener, closer, j)
    decreases j - i
  {
    if i < j {
      BlockFromSkips(text, opener, closer, i + 1, j);
    }
  }

  /** How one line of a rubric block contributes. */
  datatype LineKind = MustLine(pattern: string) | ShouldLine(pattern: string) | Ignored

  /**
   * The first `:` of a line whose lower-cased form starts with `must:` is its
   * fifth character (and the seventh for `should:`), so the remainder after
   * the first colon is the text after the prefix.
   */
  function Classify(line: string): LineKind
  {
    var l := Strip(line);
    if l == [] then Ignored
    else if StartsWith(Lower(l), "must:") then MustLine(Strip(l[5..]))
    else if StartsWith(Lower(l), "should:") then ShouldLine(Strip(l[7..]))
    else Ignored
  }

  /** The classification of each line, in order. */
  function KindsOf(lines: seq<string>): (kinds: seq<LineKind>)
    ensures |kinds| == |lines| && forall k :: 0 <= k < |lines| ==> kinds[k] == Classify(lines[k])
  {
    seq(|lines|, k requires 0 <= k < |lines| => Classify(lines[k]))
  }

  /** The rubric the line loop builds, appending in order. */
  function RubricOfKinds(kinds: seq<LineKind>): Rubric
    decreases |kinds|
  {
    if kinds == [] then Rubric([], [])
    else Step(RubricOfKinds(kinds[..|kinds| - 1]), kinds[|kinds| - 1])
  }

  /** One iteration of the line loop. */
  function Step(r: Rubric, kind: LineKind): Rubric
  {
    match kind
    case MustLine(p) => r.(must := r.must + [p])
    case ShouldLine(p) => r.(should := r.should + [p])
    case Ignored => r
  }

  function RubricOfLines(lines: seq<string>): Rubric
  {
    RubricOfKinds(KindsOf(lines))
  }

  /** The rubric of a task text: empty unless a closed block is present. */
  function RubricOf(text: string, opener: string, closer: string): Rubric
  {
    match Block(text, opener, closer)
    case None => Rubric([], [])
    case Some(block) => RubricOfLines(Lines(block))
  }

  function MdRubric(text: string): Rubric
  {
    RubricOf(text, MdOpener, MdCloser)
  }

  function LeanRubric(text: string): Rubric
  {
    RubricOf(text, LeanOpener, LeanCloser)
  }

  /** `_parse_rubric`: the loop over the block's lines. */
  method ParseRubric(text: string, opener: string, closer: string) returns (r: Rubric)
    ensures r == RubricOf(text, opener, closer)
  {
    var block := Block(text, opener, closer);
    if block.None? {
      return Rubric([], []);
    }
    var lines := Lines(block.value);
    var must: seq<string> := [];
    var should: seq<string> := [];
    var i := 0;
    while i < |lines|
      invariant 0 <= i <= |lines|
      invariant Rubric(must, should) == RubricOfKinds(KindsOf(lines[..i]))
    {
      assert KindsOf(lines[..i + 1])[..i] == KindsOf(lines[..i]);
      var line := Strip(lines[i]);
      if line == [] {
        i := i + 1;
        continue;
      }
      if StartsWith(Lower(line), "must:") {
        must := must + [Strip(line[5..])];
      } else if StartsWith(Lower(line), "should:") {
        should := should + [Strip(line[7..])];
      }
      i := i + 1;
    }
    assert lines[..i] == lines;
    r := Rubric(must, should);
  }

  /** The rubric of concatenated kind lists is the concatenation: source order is kept. */
  lemma {:induction false} RubricOfKindsAppend(a: seq<LineKind>, b: seq<LineKind>)
    ensures RubricOfKinds(a + b).must == RubricOfKinds(a).must + RubricOfKinds(b).must
    ensures RubricOfKinds(a + b).should == RubricOfKinds(a).should + RubricOfKinds(b).should
    decreases |b|
  {
    if b == [] {
      assert a + b == a;
    } else {
      var b' := b[..|b| - 1];
      assert (a + b)[..|a + b| - 1] == a + b';
      assert (a + b)[|a + b| - 1] == b[|b| - 1];
      RubricOfKindsAppend(a, b');
    }
  }

  /** The rubric of a block made of two parts lists the first part's patterns before the second's. */
  lemma RubricOfLinesAppend(a: seq<string>, b: seq<string>)
    ensures RubricOfLines(a + b).must == RubricOfLines(a).must + RubricOfLines(b).must
    ensures RubricOfLines(a + b).should == RubricOfLines(a).should + RubricOfLines(b).should
  {
    var ka, kb, kab := KindsOf(a), KindsOf(b), KindsOf(a + b);
    forall k | 0 <= k < |kab| ensures kab[k] == (ka + kb)[k] {
      if k < |a| {
        assert (a + b)[k] == a[k];
      } else {
        assert (a + b)[k] == b[k - |a|];
      }
    }
    assert kab == ka + kb;
    RubricOfKindsAppend(KindsOf(a), KindsOf(b));
  }

  lemma {:induction false} KindsMembership(kinds: seq<LineKind>, p: string)
    ensures p in RubricOfKinds(kinds).must <==> MustLine(p) in kinds
    ensures p in RubricOfKinds(kinds).should <==> ShouldLine(p) in kinds
    decreases |kinds|
  {
    if kinds != [] {
      var init := kinds[..|kinds| - 1];
      KindsMembership(init, p);
      assert kinds == init + [kinds[|kinds| - 1]];
    }
  }

  /** A pattern is required (optional) exactly when some line of the block is a `must:` (`should:`) line for it. */
  lemma PatternFromLines(lines: seq<string>, p: string)
    ensures p in RubricOfLines(lines).must <==> exists k :: 0 <= k < |lines| && Classify(lines[k]) == MustLine(p)
    ensures p in RubricOfLines(lines).should <==> exists k :: 0 <= k < |lines| && Classify(lines[k]) == ShouldLine(p)
  {
    var kinds := KindsOf(lines);
    KindsMembership(kinds, p);
    if MustLine(p) in kinds {
      var k :| 0 <= k < |kinds| && kinds[k] == MustLine(p);
    }
    if ShouldLine(p) in kinds {
      var k :| 0 <= k < |kinds| && kinds[k] == ShouldLine(p);
    }
  }

  /**
   * When no header is followed by a closer (the block is missing, or
   * unterminated, or either delimiter is absent) both lists are empty.
   */
  lemma AbsentBlockEmptyRubric(text: string, opener: string, closer: string)
    requires forall k :: 0 <= k <= |text| ==> !ClosedHeaderAt(text, opener, closer, k)
    ensures RubricOf(text, opener, closer) == Rubric([], [])
  {
    NoClosedHeaderNoBlock(text, opener, closer, 0);
  }

  /**
   * `re.search(regex, text, flags=re.I | re.M) is not None`.  Regular
   * expression semantics are not modelled: the search is an uninterpreted
   * parameter.
   */
  type RegexSearch = (string, string) -> bool

  predicate IsRegexPattern(pattern: string)
  {
    StartsWith(pattern, "re:") || (StartsWith(pattern, "/") && EndsWith(pattern, "/") && |pattern| > 2)
  }

  /** `_match_pattern`: a `re:` or `/.../` pattern is a regex search; anything else a case-insensitive substring. */
  predicate Matches(pattern: string, text: string, search: RegexSearch)
  {
    if StartsWith(pattern, "re:") then search(Strip(pattern[3..]), text)
    else if StartsWith(pattern, "/") && EndsWith(pattern, "/") && |pattern| > 2 then search(pattern[1..|pattern| - 1], text)
    else Contains(Lower(text), Lower(pattern))
  }

  lemma LowerUpperChar(c: char)
    ensures LowerChar(UpperChar(c)) == LowerChar(c)
  {
  }

  lemma LowerOfUpper(s: string)
    ensures Lower(Upper(s)) == Lower(s)
  {
    forall i | 0 <= i < |s| ensures Lower(Upper(s))[i] == Lower(s)[i] {
      LowerUpperChar(s[i]);
    }
  }

  /** Plain patterns match regardless of the case of the answer or of the pattern. */
  lemma PlainMatchIgnoresCase(pattern: string, text: string, search: RegexSearch)
    requires !IsRegexPattern(pattern)
    ensures Matches(pattern, Upper(text), search) == Matches(pattern, text, search)
    ensures !IsRegexPattern(Upper(pattern))
    ensures Matches(Upper(pattern), text, search) == Matches(pattern, text, search)
  {
    LowerOfUpper(text);
    LowerOfUpper(pattern);
    var u := Upper(pattern);
    if |pattern| > 0 {
      assert u[0] == UpperChar(pattern[0]) && u[0] != 'r';
      assert u[0] == '/' <==> pattern[0] == '/';
      assert u[|u| - 1] == '/' <==> pattern[|pattern| - 1] == '/';
    }
    assert !StartsWith(u, "re:");
  }

  /** The `re:` marker is case-sensitive: `RE:` and `Re:` patterns are plain substrings. */
  lemma CapitalReMarkerIsPlain(pattern: string, text: string, search: RegexSearch)
    requires |pattern| >= 3 && pattern[0] in "rR" && pattern[1] in "eE" && pattern[2] == ':'
    requires pattern[..2] != "re"
    ensures Matches(pattern, text, search) == Contains(Lower(text), Lower(pattern))
  {
    assert pattern[..3][..2] == pattern[..2];
    assert !StartsWith(pattern, "re:");
  }
}
