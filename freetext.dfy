/**
 * The free-text graders: harness/graders/grade_md.py (general text),
 * harness/graders/grade_lean.py (formal proofs) and
 * harness/graders/grade_synth.py (short syntheses).
 *
 * Each grader extracts the task's rubric, lists the required patterns the
 * answer misses, counts the optional patterns it hits, applies its family's
 * format heuristics and, when an arbiter (an external judge) is configured,
 * requires the arbiter's verdict as well: the arbiter can veto a pass but
 * never rescue a failure.  An exception raised by the arbiter's client is
 * not caught: grading ends with that exception in place of a grade.
 */
module FreeText {
  import opened Text
  import opened Rubric

  /**
   * What the judge's client gives back for a prompt: the reply text, or the
   * exception it raises (a `RuntimeError` when the judge's command fails).
   */
  datatype Reply = Replied(text: string) | ReplyRaised(typeName: string, message: string)

  /**
   * The external judge.  `cmdTemplate` is its configured command (the
   * arbiter counts as configured only when it is present and non-empty);
   * `generate` stands for what its client gives back for a prompt.
   */
  datatype Arbiter = Arbiter(cmdTemplate: Option<string>, generate: string -> Reply)

  predicate Configured(arbiter: Option<Arbiter>)
  {
    arbiter.Some? && arbiter.value.cmdTemplate.Some? && arbiter.value.cmdTemplate.value != ""
  }

  /** The fixed-format instruction sent to the judge. */
  function ArbiterPrompt(taskText: string, answer: string): string
  {
    "You are a strict grader. Output only PASS or FAIL.\n\n" + "Task:\n" + taskText + "\n\n" + "Answer:\n" + answer + "\n"
  }

  /** `_arbiter_verdict`'s reading of a reply: PASS present and FAIL absent, after trimming and upper-casing. */
  predicate ReplyPasses(reply: string)
  {
    var u := Upper(Strip(reply));
    Contains(u, "PASS") && !Contains(u, "FAIL")
  }

  /** What the configured arbiter gives back for the verdict prompt; None when no arbiter is configured. */
  function ArbiterReply(arbiter: Option<Arbiter>, taskText: string, answer: string): Option<Reply>
  {
    if Configured(arbiter) then Some(arbiter.value.generate(ArbiterPrompt(taskText, answer))) else None
  }

  /** The configured arbiter's client raises on the verdict prompt for this answer. */
  predicate ArbiterRaises(arbiter: Option<Arbiter>, taskText: string, answer: string)
  {
    var reply := ArbiterReply(arbiter, taskText, answer);
    reply.Some? && reply.value.ReplyRaised?
  }

  /** The fail-closed rule: a reply with both words, with neither, or an empty reply is a FAIL. */
  lemma FailClosed(reply: string)
    ensures Contains(Upper(Strip(reply)), "PASS") && Contains(Upper(Strip(reply)), "FAIL") ==> !ReplyPasses(reply)
    ensures !Contains(Upper(Strip(reply)), "PASS") ==> !ReplyPasses(reply)
    ensures IsBlank(reply) ==> !ReplyPasses(reply)
  {
    StripEmptyIffBlank(reply);
  }

  lemma UpperOfUpper(s: string)
    requires forall i :: 0 <= i < |s| ==> !('a' <= s[i] <= 'z')
    ensures Upper(s) == s
  {
  }

  /** A string of the same length as `sub` contains it only by being it. */
  lemma SameLengthContains(s: string, sub: string)
    requires |s| == |sub| && s != sub
    ensures !Contains(s, sub)
  {
    assert s[0..|sub|] == s;
    assert forall i :: 0 <= i <= |s| ==> !OccursAt(s, sub, i);
  }

  lemma StripLeftPadded()
    ensures StripLeft(" pass\n") == "pass\n"
  {
    assert " pass\n" == [' '] + "pass\n";
    StripLeftDropsSpace(' ', "pass\n");
    assert "pass\n"[0] == 'p';
  }

  lemma StripLeftDropsSpace(c: char, s: string)
    requires IsSpace(c)
    ensures StripLeft([c] + s) == StripLeft(s)
  {
    assert ([c] + s)[1..] == s;
  }

  lemma StripRightPadded()
    ensures StripRight("pass\n") == "pass"
  {
    assert "pass\n"[4] == '\n' && "pass\n"[3] == 's';
    assert "pass\n"[..4] == "pass";
    assert StripRight("pass\n") == StripRight("pass");
  }

  lemma UpperPass()
    ensures Upper("pass") == "PASS"
  {
    var u := Upper("pass");
    assert u[0] == 'P' && u[1] == 'A' && u[2] == 'S' && u[3] == 'S';
  }

  /** A lower-case verdict word surrounded by whitespace is read as PASS. */
  lemma LowerCasePassExample()
    ensures ReplyPasses(" pass\n")
  {
    StripLeftPadded();
    StripRightPadded();
    UpperPass();
    assert OccursAt("PASS", "PASS", 0);
    ContainsAt("PASS", "PASS", 0);
    SameLengthContains("PASS", "FAIL");
  }

  /** An upper-case word occurring in `s` still occurs after upper-casing. */
  lemma UpperKeepsUpperOccurrence(s: string, sub: string, i: nat)
    requires OccursAt(s, sub, i) && forall k :: 0 <= k < |sub| ==> UpperChar(sub[k]) == sub[k]
    ensures OccursAt(Upper(s), sub, i)
  {
    forall k | 0 <= k < |sub| ensures Upper(s)[i..i + |sub|][k] == sub[k] {
      assert s[i..i + |sub|][k] == s[i + k];
    }
  }

  /** A reply naming both words is read as FAIL. */
  lemma BothWordsExample()
    ensures !ReplyPasses("PASS or FAIL")
  {
    var reply := "PASS or FAIL";
    assert reply[0] == 'P' && reply[11] == 'L';
    StripOfStripped(reply);
    assert reply[8..12] == "FAIL";
    UpperKeepsUpperOccurrence(reply, "FAIL", 8);
    ContainsAt(Upper(reply), "FAIL", 8);
  }

  /** `[p for p in must if not _match_pattern(p, answer)]`. */
  function Missing(must: seq<string>, answer: string, search: RegexSearch): seq<string>
  {
    if must == [] then []
    else (if Matches(must[0], answer, search) then [] else [must[0]]) + Missing(must[1..], answer, search)
  }

  /** `s` is obtained from `t` by deleting elements (order kept). */
  predicate IsSubsequence(s: seq<string>, t: seq<string>)
    decreases |t|
  {
    if s == [] then true
    else if t == [] then false
    else if s[0] == t[0] then IsSubsequence(s[1..], t[1..])
    else IsSubsequence(s, t[1..])
  }

  /** The missing patterns are exactly the required ones that do not match, as an ordered sublist. */
  lemma {:induction false} MissingSpec(must: seq<string>, answer: string, search: RegexSearch)
    ensures forall p :: p in Missing(must, answer, search) <==> p in must && !Matches(p, answer, search)
    ensures IsSubsequence(Missing(must, answer, search), must)
    ensures |Missing(must, answer, search)| <= |must|
  {
    if must != [] {
      MissingSpec(must[1..], answer, search);
      var rest := Missing(must[1..], answer, search);
      if !Matches(must[0], answer, search) {
        assert Missing(must, answer, search) == [must[0]] + rest;
        assert ([must[0]] + rest)[1..] == rest;
      } else {
        assert Missing(must, answer, search) == rest;
        assert IsSubsequence(rest, must[1..]);
        SubsequenceOfTail(rest, must);
      }
    }
  }

  lemma {:induction false} SubsequenceOfTail(s: seq<string>, t: seq<string>)
    requires t != [] && IsSubsequence(s, t[1..])
    ensures IsSubsequence(s, t)
    decreases |t|, 0
  {
    if s != [] && s[0] == t[0] {
      SubsequenceDropHead(s, t[1..]);
    }
  }

  lemma {:induction false} SubsequenceDropHead(s: seq<string>, t: seq<string>)
    requires s != [] && IsSubsequence(s, t)
    ensures IsSubsequence(s[1..], t)
    decreases |t|, 1
  {
    if s[0] == t[0] {
      SubsequenceOfTail(s[1..], t);
    } else {
      SubsequenceDropHead(s, t[1..]);
      SubsequenceOfTail(s[1..], t);
    }
  }

  /** Nothing is missing exactly when every required pattern matches. */
  lemma {:induction false} NothingMissingIffAllMatch(must: seq<string>, answer: string, search: RegexSearch)
    ensures Missing(must, answer, search) == [] <==> forall p :: p in must ==> Matches(p, answer, search)
  {
    if must != [] {
      NothingMissingIffAllMatch(must[1..], answer, search);
      assert forall p :: p in must <==> p == must[0] || p in must[1..];
    }
  }

  /** `sum(1 for p in should if _match_pattern(p, answer))`. */
  function ShouldHits(should: seq<string>, answer: string, search: RegexSearch): nat
  {
    if should == [] then 0
    else (if Matches(should[0], answer, search) then 1 else 0) + ShouldHits(should[1..], answer, search)
  }

  lemma {:induction false} ShouldHitsBounded(should: seq<string>, answer: string, search: RegexSearch)
    ensures ShouldHits(should, answer, search) <= |should|
    ensures ShouldHits(should, answer, search) == |should| <==> forall p :: p in should ==> Matches(p, answer, search)
  {
    if should != [] {
      ShouldHitsBounded(should[1..], answer, search);
      assert forall p :: p in should <==> p == should[0] || p in should[1..];
    }
  }

  /** The family-specific format checks, as each grader reports them. */
  datatype FormatChecks =
    | MdChecks(lengthOk: bool)
    | LeanChecks(lengthOk: bool, fenceOk: bool)
    | SynthChecks(lengthOk: bool, paragraphsOk: bool, wordCount: nat)
  {
    predicate AllPass()
    {
      match this
      case MdChecks(l) => l
      case LeanChecks(l, f) => l && f
      case SynthChecks(l, p, _) => l && p
    }
  }

  /** The grade record of a free-text task. */
  datatype FreeTextGrade = FreeTextGrade(
    passed: bool,
    missing: seq<string>,
    shouldHits: nat,
    checks: FormatChecks,
    arbiterPass: Option<bool>)

  /** What a free-text grader gives back: a grade, or the exception the arbiter raised. */
  datatype GraderOutcome = Graded(grade: FreeTextGrade) | GraderRaised(typeName: string, message: string)

  /** `passed`: the heuristics alone without an arbiter, else the heuristics and the arbiter. */
  function Combine(heuristicsPass: bool, arbiterPass: Option<bool>): bool
  {
    if arbiterPass.None? then heuristicsPass else heuristicsPass && arbiterPass.value
  }

  function GradeWith(rubric: Rubric, taskText: string, answer: string, checks: FormatChecks,
                     arbiter: Option<Arbiter>, search: RegexSearch): GraderOutcome
  {
    var reply := ArbiterReply(arbiter, taskText, answer);
    if reply.Some? && reply.value.ReplyRaised? then GraderRaised(reply.value.typeName, reply.value.message)
    else
      var missing := Missing(rubric.must, answer, search);
      var arbiterPass := if reply.Some? then Some(ReplyPasses(reply.value.text)) else None;
      Graded(FreeTextGrade(Combine(missing == [] && checks.AllPass(), arbiterPass), missing,
                           ShouldHits(rubric.should, answer, search), checks, arbiterPass))
  }

  /** General free text (`grade_md.evaluate`): the trimmed answer has at least 60 characters. */
  function GradeMd(taskText: string, answer: string, arbiter: Option<Arbiter>, search: RegexSearch): GraderOutcome
  {
    GradeWith(MdRubric(taskText), taskText, answer, MdChecks(|Strip(answer)| >= 60), arbiter, search)
  }

  /** Formal proofs (`grade_lean.evaluate`): at least 80 trimmed characters and no code fence. */
  function GradeLean(taskText: string, answer: string, arbiter: Option<Arbiter>, search: RegexSearch): GraderOutcome
  {
    GradeWith(LeanRubric(taskText), taskText, answer,
              LeanChecks(|Strip(answer)| >= 80, !Contains(answer, "```")), arbiter, search)
  }

  predicate IsWordChar(c: char)
  {
    ('A' <= c <= 'Z') || ('a' <= c <= 'z') || ('0' <= c <= '9') || c == '\''
  }

  /** The length of the run of word characters that starts `s`. */
  function RunLength(s: string): (n: nat)
    ensures n <= |s| && (n < |s| ==> !IsWordChar(s[n]))
    ensures forall k :: 0 <= k < n ==> IsWordChar(s[k])
  {
    if s != [] && IsWordChar(s[0]) then 1 + RunLength(s[1..]) else 0
  }

  /** `re.findall(r"[A-Za-z0-9']+", s)`: the maximal runs of word characters, left to right. */
  function Words(s: string): seq<string>
    decreases |s|
  {
    if s == [] then []
    else if !IsWordChar(s[0]) then Words(s[1..])
    else
      var n := RunLength(s);
      [s[..n]] + Words(s[n..])
  }

  /** The characters of `s` that are word characters, in order. */
  function WordChars(s: string): string
  {
    if s == [] then [] else (if IsWordChar(s[0]) then [s[0]] else []) + WordChars(s[1..])
  }

  /**
   * The tokens are non-empty runs of word characters that together hold
   * every word character of the answer, in order.
   */
  lemma {:induction false} WordsSpec(s: string)
    ensures forall k :: 0 <= k < |Words(s)| ==> Words(s)[k] != [] && forall j :: 0 <= j < |Words(s)[k]| ==> IsWordChar(Words(s)[k][j])
    ensures Concat(Words(s)) == WordChars(s)
    decreases |s|
  {
    if s != [] {
      if !IsWordChar(s[0]) {
        WordsSpec(s[1..]);
      } else {
        var n := RunLength(s);
        WordsSpec(s[n..]);
        WordCharsOfRun(s, n);
        ConcatAppend([s[..n]], Words(s[n..]));
        assert Concat([s[..n]]) == s[..n];
      }
    }
  }

  lemma {:induction false} WordCharsOfRun(s: string, n: nat)
    requires n <= |s| && forall k :: 0 <= k < n ==> IsWordChar(s[k])
    ensures WordChars(s) == s[..n] + WordChars(s[n..])
    decreases n
  {
    if n > 0 {
      WordCharsOfRun(s[1..], n - 1);
      assert s[1..][n - 1..] == s[n..];
      assert s[..n] == [s[0]] + s[1..][..n - 1];
    }
  }

  /** `_word_count`. */
  function WordCount(s: string): nat
  {
    |Words(s)|
  }

  /**
   * Reference count of word runs: a left-to-right scan that counts each
   * position holding a word character whose predecessor (if any) does not.
   */
  function RunStarts(s: string, afterWord: bool): nat
  {
    if s == [] then 0
    else (if IsWordChar(s[0]) && !afterWord then 1 else 0) + RunStarts(s[1..], IsWordChar(s[0]))
  }

  /** `findall` yields one token per maximal run: the word count is the number of places a run starts. */
  lemma {:induction false} WordCountIsRunStarts(s: string)
    ensures WordCount(s) == RunStarts(s, false)
    decreases |s|
  {
    if s != [] {
      if !IsWordChar(s[0]) {
        WordCountIsRunStarts(s[1..]);
      } else {
        var n := RunLength(s);
        WordCountIsRunStarts(s[n..]);
        RunStartsInsideRun(s[1..], n - 1);
        assert s[1..][n - 1..] == s[n..];
        RunStartsAfterRun(s[n..]);
      }
    }
  }

  /** Inside a run of word characters no new run starts. */
  lemma {:induction false} RunStartsInsideRun(s: string, m: nat)
    requires m <= |s| && forall k :: 0 <= k < m ==> IsWordChar(s[k])
    ensures RunStarts(s, true) == RunStarts(s[m..], true)
    decreases m
  {
    if m > 0 {
      RunStartsInsideRun(s[1..], m - 1);
      assert s[1..][m - 1..] == s[m..];
    }
  }

  /** Where a run has ended, having just left it does not matter. */
  lemma RunStartsAfterRun(t: string)
    requires t == [] || !IsWordChar(t[0])
    ensures RunStarts(t, true) == RunStarts(t, false)
  {
  }

  /** `[p for p in answer.split("\n\n") if p.strip()]`. */
  function Paragraphs(answer: string): seq<string>
  {
    NonBlank(Split(answer, "\n\n"))
  }

  /** The pieces whose `strip()` is non-empty, that is the non-blank ones (see `StripEmptyIffBlank`). */
  function NonBlank(pieces: seq<string>): (r: seq<string>)
    ensures forall k :: 0 <= k < |r| ==> !IsBlank(r[k])
    ensures |r| <= |pieces|
  {
    if pieces == [] then []
    else (if !IsBlank(pieces[0]) then [pieces[0]] else []) + NonBlank(pieces[1..])
  }

  /** Short syntheses (`grade_synth.evaluate`): 40 to 220 words in one or two paragraphs. */
  function GradeSynth(taskText: string, answer: string, arbiter: Option<Arbiter>, search: RegexSearch): GraderOutcome
  {
    var words := WordCount(answer);
    var paragraphs := Paragraphs(answer);
    GradeWith(MdRubric(taskText), taskText, answer,
              SynthChecks(40 <= words <= 220, 1 <= |paragraphs| <= 2, words), arbiter, search)
  }

  /**
   * The paragraphs keep every non-blank piece and no blank one, in order:
   * an ordered sublist holding each non-blank piece as often as the pieces do.
   */
  lemma NonBlankSpec(pieces: seq<string>)
    ensures IsSubsequence(NonBlank(pieces), pieces)
    ensures forall p :: multiset(NonBlank(pieces))[p] == if IsBlank(p) then 0 else multiset(pieces)[p]
  {
    NonBlankOrdered(pieces);
    NonBlankCounts(pieces);
  }

  lemma {:induction false} NonBlankOrdered(pieces: seq<string>)
    ensures IsSubsequence(NonBlank(pieces), pieces)
  {
    if pieces != [] {
      var rest := NonBlank(pieces[1..]);
      NonBlankOrdered(pieces[1..]);
      if IsBlank(pieces[0]) {
        assert NonBlank(pieces) == rest;
        if rest != [] {
          SubsequenceOfTail(rest, pieces);
        }
      } else {
        assert NonBlank(pieces) == [pieces[0]] + rest;
        assert ([pieces[0]] + rest)[1..] == rest;
      }
    }
  }

  lemma {:induction false} NonBlankCounts(pieces: seq<string>)
    ensures forall p :: multiset(NonBlank(pieces))[p] == if IsBlank(p) then 0 else multiset(pieces)[p]
  {
    if pieces != [] {
      NonBlankCounts(pieces[1..]);
      assert pieces == [pieces[0]] + pieces[1..];
      assert multiset(pieces) == multiset([pieces[0]]) + multiset(pieces[1..]);
    }
  }

  /** Splitting the pieces splits the paragraphs. */
  lemma {:induction false} NonBlankAppend(a: seq<string>, b: seq<string>)
    ensures NonBlank(a + b) == NonBlank(a) + NonBlank(b)
  {
    if a != [] {
      NonBlankAppend(a[1..], b);
      assert (a + b)[1..] == a[1..] + b;
    } else {
      assert a + b == b;
    }
  }

  /** A run of pieces holding a non-blank one yields at least one paragraph. */
  lemma {:induction false} NonBlankHasOne(pieces: seq<string>, i: nat)
    requires i < |pieces| && !IsBlank(pieces[i])
    ensures |NonBlank(pieces)| >= 1
  {
    if i > 0 {
      NonBlankHasOne(pieces[1..], i - 1);
    }
  }

  /**
   * An answer with three non-blank "\n\n"-pieces has at least three
   * paragraphs, so `paragraphs_ok` is false and the synthesis grade fails,
   * whatever its word count.
   */
  lemma ThreeParagraphsFail(taskText: string, answer: string, arbiter: Option<Arbiter>, search: RegexSearch,
                            i: nat, j: nat, k: nat)
    requires i < j < k < |Split(answer, "\n\n")|
    requires var pieces := Split(answer, "\n\n");
      !IsBlank(pieces[i]) && !IsBlank(pieces[j]) && !IsBlank(pieces[k])
    ensures |Paragraphs(answer)| >= 3
    ensures GradeSynth(taskText, answer, arbiter, search).Graded? ==> !GradeSynth(taskText, answer, arbiter, search).grade.passed
  {
    ThreeNonBlankPieces(Split(answer, "\n\n"), i, j, k);
  }

  lemma ThreeNonBlankPieces(pieces: seq<string>, i: nat, j: nat, k: nat)
    requires i < j < k < |pieces|
    requires !IsBlank(pieces[i]) && !IsBlank(pieces[j]) && !IsBlank(pieces[k])
    ensures |NonBlank(pieces)| >= 3
  {
    var a, b, c := pieces[..i + 1], pieces[i + 1..j + 1], pieces[j + 1..];
    assert pieces == a + b + c;
    NonBlankAppend(a + b, c);
    NonBlankAppend(a, b);
    NonBlankHasOne(a, i);
    assert b[j - (i + 1)] == pieces[j];
    NonBlankHasOne(b, j - (i + 1));
    assert c[k - (j + 1)] == pieces[k];
    NonBlankHasOne(c, k - (j + 1));
  }

  /** An empty (or blank) answer has no paragraph, so the synthesis grader never passes it. */
  lemma BlankAnswerHasNoParagraph(taskText: string, answer: string, arbiter: Option<Arbiter>, search: RegexSearch)
    requires IsBlank(answer)
    ensures Paragraphs(answer) == []
    ensures GradeSynth(taskText, answer, arbiter, search).Graded? ==> !GradeSynth(taskText, answer, arbiter, search).grade.passed
  {
    var pieces := Split(answer, "\n\n");
    forall k | 0 <= k < |pieces| ensures IsBlank(pieces[k]) {
      SplitBlank(answer, k);
    }
    AllBlankNonBlank(pieces);
  }

  lemma AllBlankNonBlank(pieces: seq<string>)
    requires forall k :: 0 <= k < |pieces| ==> IsBlank(pieces[k])
    ensures NonBlank(pieces) == []
  {
    if pieces != [] {
      AllBlankNonBlank(pieces[1..]);
    }
  }

  /** Every piece of a blank string is blank. */
  lemma {:induction false} SplitBlank(s: string, k: nat)
    requires IsBlank(s) && k < |Split(s, "\n\n")|
    ensures IsBlank(Split(s, "\n\n")[k])
    decreases |s|
  {
    match Find(s, "\n\n") {
      case None =>
        assert Split(s, "\n\n") == [s];
      case Some(i) =>
        var rest := s[i + 2..];
        assert Split(s, "\n\n") == [s[..i]] + Split(rest, "\n\n");
        if k > 0 {
          assert IsBlank(rest) by {
            assert forall m :: 0 <= m < |rest| ==> rest[m] == s[i + 2 + m];
          }
          SplitBlank(rest, k - 1);
        } else {
          assert forall m :: 0 <= m < i ==> s[..i][m] == s[m];
        }
    }
  }

  /** The heuristic verdict of a grade: nothing missing and every format check passed. */
  predicate HeuristicsPass(g: FreeTextGrade)
  {
    g.missing == [] && g.checks.AllPass()
  }

  /**
   * For every family: grading raises exactly when the arbiter's client
   * does, with its exception.  Otherwise, with no configured arbiter the
   * grade is the heuristic verdict; with one, a pass needs both, so a PASS
   * never rescues a failed heuristic.  A grade passes only if every required
   * pattern matches.
   */
  lemma {:induction false} ArbiterOnlyVetoes(rubric: Rubric, taskText: string, answer: string, checks: FormatChecks,
                                            arbiter: Option<Arbiter>, search: RegexSearch)
    ensures var o := GradeWith(rubric, taskText, answer, checks, arbiter, search);
      && (o.GraderRaised? <==> ArbiterRaises(arbiter, taskText, answer))
      && (o.GraderRaised? ==> ArbiterReply(arbiter, taskText, answer) == Some(ReplyRaised(o.typeName, o.message)))
      && GradeWith(rubric, taskText, answer, checks, None, search).Graded?
      && (o.Graded? ==>
            var g := o.grade;
            && (!Configured(arbiter) ==> (g.passed <==> HeuristicsPass(g)))
            && (g.passed ==> HeuristicsPass(g))
            && (g.passed ==> forall p :: p in rubric.must ==> Matches(p, answer, search))
            && (g.passed <==> HeuristicsPass(GradeWith(rubric, taskText, answer, checks, None, search).grade)
                              && (Configured(arbiter) ==> ReplyPasses(ArbiterReply(arbiter, taskText, answer).value.text))))
  {
    NothingMissingIffAllMatch(rubric.must, answer, search);
  }

  /**
   * The general grader raises iff the arbiter does; otherwise it passes iff
   * every required pattern matches, the answer is long enough and no arbiter
   * vetoes.
   */
  lemma GradeMdSpec(taskText: string, answer: string, arbiter: Option<Arbiter>, search: RegexSearch)
    ensures var o := GradeMd(taskText, answer, arbiter, search);
      && (o.GraderRaised? <==> ArbiterRaises(arbiter, taskText, answer))
      && (o.GraderRaised? ==> ArbiterReply(arbiter, taskText, answer) == Some(ReplyRaised(o.typeName, o.message)))
      && (o.Graded? ==>
            var g := o.grade;
            && (g.passed <==> (forall p :: p in MdRubric(taskText).must ==> Matches(p, answer, search))
                              && |Strip(answer)| >= 60
                              && g.arbiterPass != Some(false))
            && (forall p :: p in g.missing <==> p in MdRubric(taskText).must && !Matches(p, answer, search))
            && g.shouldHits <= |MdRubric(taskText).should|)
  {
    var rubric := MdRubric(taskText);
    MissingSpec(rubric.must, answer, search);
    NothingMissingIffAllMatch(rubric.must, answer, search);
    ShouldHitsBounded(rubric.should, answer, search);
  }

  /**
   * The formal-proof grader raises iff the arbiter does; otherwise it passes
   * iff every required pattern matches, the answer is long enough, has no
   * fence, and no arbiter vetoes.
   */
  lemma GradeLeanSpec(taskText: string, answer: string, arbiter: Option<Arbiter>, search: RegexSearch)
    ensures var o := GradeLean(taskText, answer, arbiter, search);
      && (o.GraderRaised? <==> ArbiterRaises(arbiter, taskText, answer))
      && (o.GraderRaised? ==> ArbiterReply(arbiter, taskText, answer) == Some(ReplyRaised(o.typeName, o.message)))
      && (o.Graded? ==>
            var g := o.grade;
            && (g.passed <==> (forall p :: p in LeanRubric(taskText).must ==> Matches(p, answer, search))
                              && |Strip(answer)| >= 80 && !Contains(answer, "```")
                              && g.arbiterPass != Some(false))
            && g.shouldHits <= |LeanRubric(taskText).should|)
  {
    var rubric := LeanRubric(taskText);
    MissingSpec(rubric.must, answer, search);
    NothingMissingIffAllMatch(rubric.must, answer, search);
    ShouldHitsBounded(rubric.should, answer, search);
  }

  /**
   * The synthesis grader raises iff the arbiter does; otherwise it passes iff
   * every required pattern matches, 40..220 words, one or two paragraphs, and
   * no arbiter veto.
   */
  lemma GradeSynthSpec(taskText: string, answer: string, arbiter: Option<Arbiter>, search: RegexSearch)
    ensures var o := GradeSynth(taskText, answer, arbiter, search);
      && (o.GraderRaised? <==> ArbiterRaises(arbiter, taskText, answer))
      && (o.GraderRaised? ==> ArbiterReply(arbiter, taskText, answer) == Some(ReplyRaised(o.typeName, o.message)))
      && (o.Graded? ==>
            var g := o.grade;
            && (g.passed <==> (forall p :: p in MdRubric(taskText).must ==> Matches(p, answer, search))
                              && 40 <= WordCount(answer) <= 220 && 1 <= |Paragraphs(answer)| <= 2
                              && g.arbiterPass != Some(false))
            && g.shouldHits <= |MdRubric(taskText).should|)
  {
    var rubric := MdRubric(taskText);
    MissingSpec(rubric.must, answer, search);
    NothingMissingIffAllMatch(rubric.must, answer, search);
    ShouldHitsBounded(rubric.should, answer, search);
  }

  /** The first required pattern of the md grader's test rubric occurs in the test answer. */
  lemma VerdictMatches(search: RegexSearch)
    ensures Matches("Verdict:", "Verdict: true.", search)
  {
    assert "Verdict:"[..3] != "re:" by { assert "Verdict:"[..3][0] != "re:"[0]; }
    assert Lower("Verdict:") == "verdict:";
    assert Lower("Verdict: true.") == "verdict: true.";
    ContainsAt("verdict: true.", "verdict:", 0);
  }

  lemma LowerTestAnswer()
    ensures Lower("Verdict: true.") == "verdict: true."
  {
  }

  lemma NoProofSketchInAnswer()
    ensures !Contains("verdict: true.", "proof sketch:")
  {
    assert !OccursAt("verdict: true.", "proof sketch:", 0) by { assert "verdict: true."[0..13][0] != "proof sketch:"[0]; }
    assert !OccursAt("verdict: true.", "proof sketch:", 1) by { assert "verdict: true."[1..14][0] != "proof sketch:"[0]; }
    assert FindFrom("verdict: true.", "proof sketch:", 2) == None;
  }

  /** The second required pattern of that rubric does not occur in the test answer. */
  lemma ProofSketchMissing(search: RegexSearch)
    ensures !Matches("Proof sketch:", "Verdict: true.", search)
  {
    assert "Proof sketch:"[..3] != "re:" by { assert "Proof sketch:"[..3][0] != "re:"[0]; }
    assert Lower("Proof sketch:") == "proof sketch:";
    LowerTestAnswer();
    NoProofSketchInAnswer();
  }

  /**
   * The task file of the md grader's missing-pattern test, after `strip()`:
   * "# Task", a blank line, then `<!-- rubric:`, the lines `must: Verdict:`
   * and `must: Proof sketch:`, and `-->` on a line of its own.
   */
  const MissingMustTask := MissingMustHead + MissingMustBlock + MdCloser

  const MissingMustHead := "# Task\n\n<!-- rubric:"

  /** The text its rubric block captures, between the header and the closer. */
  const MissingMustBlock := "\n" + VerdictLine + "\n" + SketchLine + "\n"

  const VerdictLine := "must: Verdict:"

  const SketchLine := "must: Proof sketch:"

  lemma LowerOfLower(s: string)
    requires forall i :: 0 <= i < |s| ==> !('A' <= s[i] <= 'Z')
    ensures Lower(s) == s
  {
  }

  /** The only header of the test task starts at index 8 and ends at 20. */
  lemma MissingMustHeader(t: string)
    requires t == MissingMustTask
    ensures HeaderEnd(t, MdOpener, 8) == Some(20)
  {
    var h := MissingMustHead;
    assert forall k :: 0 <= k < |h| ==> t[k] == h[k];
    assert t[8..12] == h[8..12] == MdOpener;
    assert IsSpace(t[12]) && !IsSpace(t[13]);
    assert SkipSpaces(t, 12) == 13;
    assert t[13..20] == h[13..20] == "rubric:";
    LowerOfLower("rubric:");
  }

  /** No header starts before index 8. */
  lemma MissingMustNoEarlierOpener(t: string, k: nat)
    requires t == MissingMustTask && k < 8
    ensures !OccursAt(t, MdOpener, k)
  {
    var h := MissingMustHead;
    assert k + 4 <= |t|;
    assert t[k..k + 4][0] == t[k] == h[k];
    assert forall j :: 0 <= j < 8 ==> h[j] != '<';
  }

  lemma MissingMustTaskBlock(t: string)
    requires t == MissingMustTask
    ensures Block(t, MdOpener, MdCloser) == Some(MissingMustBlock)
  {
    forall k | 0 <= k < 8 ensures !OccursAt(t, MdOpener, k) {
      MissingMustNoEarlierOpener(t, k);
    }
    BlockFromSkips(t, MdOpener, MdCloser, 0, 8);
    MissingMustHeader(t);
    var b := MissingMustBlock;
    assert t[|MissingMustHead|..] == b + MdCloser;
    MissingMustBlockHasNoDash(b);
    FindAfter(b, MdCloser);
    assert t[20..20 + |b|] == b;
  }

  lemma MissingMustBlockHasNoDash(b: string)
    requires b == MissingMustBlock
    ensures forall j :: 0 <= j < |b| ==> b[j] != '-'
  {
    var v, w := VerdictLine, SketchLine;
    assert forall j :: 0 <= j < |v| ==> v[j] != '-';
    assert forall j :: 0 <= j < |w| ==> w[j] != '-';
  }

  lemma VerdictLineUnbroken(v: string)
    requires v == VerdictLine
    ensures forall k :: 0 <= k < |v| ==> !IsLineBreak(v[k])
  {
  }

  lemma SketchLineUnbroken(w: string)
    requires w == SketchLine
    ensures forall k :: 0 <= k < |w| ==> !IsLineBreak(w[k])
  {
  }

  /** Lines that follow a leading line break: an empty first line, then the two lines. */
  lemma LinesAfterBreak(a: string, b: string)
    requires forall k :: 0 <= k < |a| ==> !IsLineBreak(a[k])
    requires forall k :: 0 <= k < |b| ==> !IsLineBreak(b[k])
    ensures Lines("\n" + a + "\n" + b + "\n") == ["", a, b]
  {
    var s1 := a + "\n" + (b + "\n");
    LinesOfTwo(a, b, s1);
    LinesCons([], s1);
    assert [] + "\n" + s1 == "\n" + s1;
    BreaksReassociate(a, b);
  }

  lemma LinesOfTwo(a: string, b: string, s1: string)
    requires forall k :: 0 <= k < |a| ==> !IsLineBreak(a[k])
    requires forall k :: 0 <= k < |b| ==> !IsLineBreak(b[k])
    requires s1 == a + "\n" + (b + "\n")
    ensures Lines(s1) == [a, b]
  {
    LinesCons(b, []);
    assert b + "\n" + [] == b + "\n";
    LinesCons(a, b + "\n");
  }

  lemma BreaksReassociate(a: string, b: string)
    ensures "\n" + a + "\n" + b + "\n" == "\n" + (a + "\n" + (b + "\n"))
  {
  }

  /** A `must:` line with one space after the colon and a trimmed pattern yields that pattern. */
  lemma ClassifyMust(line: string, pattern: string)
    requires line == "must: " + pattern && pattern != [] && !IsSpace(pattern[0]) && !IsSpace(pattern[|pattern| - 1])
    ensures Classify(line) == MustLine(pattern)
  {
    assert line[0] == 'm' && line[|line| - 1] == pattern[|pattern| - 1];
    StripOfStripped(line);
    assert Lower(line)[..5] == "must:" by {
      assert line[..5] == "must:";
      LowerOfLower(line[..5]);
      assert Lower(line)[..5] == Lower(line[..5]);
    }
    var tail := line[5..];
    assert tail == " " + pattern;
    StripLeadingSpace(tail);
    assert tail[1..] == pattern;
  }

  lemma ClassifyVerdictLine(line: string, pattern: string)
    requires line == VerdictLine && pattern == "Verdict:"
    ensures Classify(line) == MustLine(pattern)
  {
    ClassifyMust(line, pattern);
  }

  lemma ClassifySketchLine(line: string, pattern: string)
    requires line == SketchLine && pattern == "Proof sketch:"
    ensures Classify(line) == MustLine(pattern)
  {
    ClassifyMust(line, pattern);
  }

  /** An ignored line followed by two `must:` lines gives those two patterns, in order. */
  lemma RubricOfTwoMusts(lines: seq<string>, p: string, q: string)
    requires |lines| == 3 && Classify(lines[0]) == Ignored
    requires Classify(lines[1]) == MustLine(p) && Classify(lines[2]) == MustLine(q)
    ensures RubricOfLines(lines) == Rubric([p, q], [])
  {
    var kinds := KindsOf(lines);
    assert kinds[..2][..1] == kinds[..1];
    assert kinds[..1][..0] == [];
    assert RubricOfKinds(kinds[..1]) == Rubric([], []);
    assert RubricOfKinds(kinds[..2]) == Rubric([p], []);
  }

  /** The md rubric of the test task requires "Verdict:" and then "Proof sketch:", and nothing optional. */
  lemma MissingMustRubric(t: string)
    requires t == MissingMustTask
    ensures MdRubric(t) == Rubric(["Verdict:", "Proof sketch:"], [])
  {
    MissingMustTaskBlock(t);
    var first, second, verdict, sketch := VerdictLine, SketchLine, "Verdict:", "Proof sketch:";
    VerdictLineUnbroken(first);
    SketchLineUnbroken(second);
    LinesAfterBreak(first, second);
    var lines := ["", first, second];
    ClassifyVerdictLine(first, verdict);
    ClassifySketchLine(second, sketch);
    assert Classify(lines[0]) == Ignored;
    RubricOfTwoMusts(lines, verdict, sketch);
  }

  /**
   * The md grader's missing-pattern test: the answer "Verdict: true." fails
   * with "Proof sketch:" missing, whatever the arbiter says, and without an
   * arbiter (as in the test) it is graded.
   */
  lemma MissingProofSketchExample(t: string, answer: string, arbiter: Option<Arbiter>, search: RegexSearch)
    requires t == MissingMustTask && answer == "Verdict: true."
    ensures var o := GradeMd(t, answer, arbiter, search);
      && (arbiter == None ==> o.Graded?)
      && (o.Graded? ==> !o.grade.passed && o.grade.missing == ["Proof sketch:"])
  {
    MissingMustRubric(t);
    MissingOfTestAnswer(MdRubric(t).must, answer, search);
    GradeMdMissing(t, answer, arbiter, search);
  }

  /** Without an arbiter the md grader grades; a graded answer lists exactly the unmatched patterns, and fails if any. */
  lemma GradeMdMissing(taskText: string, answer: string, arbiter: Option<Arbiter>, search: RegexSearch)
    ensures var o := GradeMd(taskText, answer, arbiter, search);
      && (arbiter == None ==> o.Graded?)
      && (o.Graded? ==> o.grade.missing == Missing(MdRubric(taskText).must, answer, search)
                        && (o.grade.missing != [] ==> !o.grade.passed))
  {
  }

  /** Of the test's two patterns, only "Proof sketch:" is absent from the answer. */
  lemma MissingOfTestAnswer(must: seq<string>, answer: string, search: RegexSearch)
    requires must == ["Verdict:", "Proof sketch:"] && answer == "Verdict: true."
    ensures Missing(must, answer, search) == ["Proof sketch:"]
  {
    VerdictMatches(search);
    ProofSketchMissing(search);
    MissingOfTwo(must[0], must[1], answer, search);
    assert must == [must[0], must[1]];
  }

  /** Of two patterns, only the one that does not match the answer is missing. */
  lemma MissingOfTwo(p: string, q: string, answer: string, search: RegexSearch)
    requires Matches(p, answer, search) && !Matches(q, answer, search)
    ensures Missing([p, q], answer, search) == [q]
  {
    assert [p, q][1..] == [q];
    assert [q][1..] == [];
    assert Missing([q], answer, search) == [q] + Missing([], answer, search);
    assert Missing([p, q], answer, search) == [] + Missing([q], answer, search);
  }
}
