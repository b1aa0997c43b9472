/**
 * `slugify` of the refactoring unit `tasks/py/r01_slugify`: a text is
 * trimmed and lower-cased, runs of whitespace and underscores become one
 * "-", every character outside `[a-z0-9-]` is dropped, runs of "-" are
 * collapsed and edge dashes removed; a slug longer than `max_len` is cut
 * back to a word boundary.
 */
module Slugify {
  import opened Text

  predicate IsSlugChar(c: char)
  {
    ('a' <= c <= 'z') || ('0' <= c <= '9') || c == '-'
  }

  predicate IsDash(c: char)
  {
    c == '-'
  }

  /** The class `[\s_]`. */
  predicate IsGap(c: char)
  {
    IsSpace(c) || c == '_'
  }

  /** The characters after the leading run of `p`-characters. */
  function SkipRun(s: string, p: char -> bool): (r: string)
    ensures |r| <= |s|
    ensures r == [] || !p(r[0])
  {
    if s != [] && p(s[0]) then SkipRun(s[1..], p) else s
  }

  lemma {:induction false} SkipRunSuffix(s: string, p: char -> bool)
    ensures SkipRun(s, p) == s[|s| - |SkipRun(s, p)|..]
  {
    if s != [] && p(s[0]) {
      SkipRunSuffix(s[1..], p);
      assert s[1..][|s| - 1 - |SkipRun(s, p)|..] == s[|s| - |SkipRun(s, p)|..];
    }
  }

  /** `re.sub(cls + "+", [mark], s)` for a one-character class `p`: each maximal run of the class becomes `mark`. */
  function SquashRuns(s: string, p: char -> bool, mark: char): (r: string)
    ensures r == [] <==> s == []
    ensures s != [] && !p(s[0]) ==> r[0] == s[0]
    decreases |s|
  {
    if s == [] then []
    else if p(s[0]) then
      var rest := SkipRun(s[1..], p);
      [mark] + SquashRuns(rest, p, mark)
    else [s[0]] + SquashRuns(s[1..], p, mark)
  }

  /** `re.sub(r"[^a-z0-9-]", "", s)`. */
  function KeepSlugChars(s: string): (r: string)
    ensures forall k :: 0 <= k < |r| ==> IsSlugChar(r[k])
  {
    if s == [] then []
    else (if IsSlugChar(s[0]) then [s[0]] else []) + KeepSlugChars(s[1..])
  }

  function TrimDashLeft(s: string): (r: string)
    ensures |r| <= |s|
    ensures r == [] || r[0] != '-'
  {
    if s != [] && s[0] == '-' then TrimDashLeft(s[1..]) else s
  }

  function TrimDashRight(s: string): (r: string)
    ensures |r| <= |s|
    ensures r == [] || r[|r| - 1] != '-'
  {
    if s != [] && s[|s| - 1] == '-' then TrimDashRight(s[..|s| - 1]) else s
  }

  lemma {:induction false} TrimDashLeftSuffix(s: string)
    ensures TrimDashLeft(s) == s[|s| - |TrimDashLeft(s)|..]
  {
    if s != [] && s[0] == '-' {
      TrimDashLeftSuffix(s[1..]);
      assert s[1..][|s| - 1 - |TrimDashLeft(s)|..] == s[|s| - |TrimDashLeft(s)|..];
    }
  }

  lemma {:induction false} TrimDashRightPrefix(s: string)
    ensures TrimDashRight(s) == s[..|TrimDashRight(s)|]
  {
    if s != [] && s[|s| - 1] == '-' {
      TrimDashRightPrefix(s[..|s| - 1]);
      assert s[..|s| - 1][..|TrimDashRight(s)|] == s[..|TrimDashRight(s)|];
    }
  }

  /** `s.strip("-")`. */
  function TrimDashes(s: string): string
  {
    TrimDashRight(TrimDashLeft(s))
  }

  /** The slug before truncation. */
  function Slug(text: string): string
  {
    var s := Lower(Strip(text));
    TrimDashes(SquashRuns(KeepSlugChars(SquashRuns(s, IsGap, '-')), IsDash, '-'))
  }

  /** `slugify(text, max_len)`; `text` is `str(text)`, None for Python's None. */
  function Slugify(text: Option<string>, maxLen: Option<int>): string
  {
    if text.None? then ""
    else
      Truncate(Slug(text.value), maxLen)
  }

  /** The `max_len` step of `slugify` applied to the slug `s`. */
  function Truncate(s: string, maxLen: Option<int>): string
  {
    if maxLen.None? || maxLen.value <= 0 || |s| <= maxLen.value then s
    else
      var cut := s[..maxLen.value];
      var kept := match LastIndexOf(cut, '-') case Some(i) => cut[..i] case None => cut;
      TrimDashes(kept)
  }

  // ---------------------------------------------------------------------
  // The shape of a slug
  // ---------------------------------------------------------------------

  predicate NoDoubleDash(s: string)
  {
    forall k :: 0 <= k < |s| - 1 ==> !(s[k] == '-' && s[k + 1] == '-')
  }

  /** Only `[a-z0-9-]`, no leading or trailing "-", and no "--". */
  predicate IsCleanSlug(s: string)
  {
    && (forall k :: 0 <= k < |s| ==> IsSlugChar(s[k]))
    && (s == [] || (s[0] != '-' && s[|s| - 1] != '-'))
    && NoDoubleDash(s)
  }

  /** Collapsing the runs of "-" leaves no "--" and only characters that were there. */
  lemma {:induction false} SquashDashes(s: string)
    requires forall k :: 0 <= k < |s| ==> IsSlugChar(s[k])
    ensures var r := SquashRuns(s, IsDash, '-');
      NoDoubleDash(r) && forall k :: 0 <= k < |r| ==> IsSlugChar(r[k])
    decreases |s|
  {
    if s != [] {
      if IsDash(s[0]) {
        var rest := SkipRun(s[1..], IsDash);
        SkipRunSuffix(s[1..], IsDash);
        assert forall k :: 0 <= k < |rest| ==> rest[k] == s[|s| - |rest| + k];
        SquashDashes(rest);
        PrependSlugChar('-', SquashRuns(rest, IsDash, '-'));
      } else {
        SquashDashes(s[1..]);
        PrependSlugChar(s[0], SquashRuns(s[1..], IsDash, '-'));
      }
    }
  }

  lemma PrependSlugChar(c: char, x: string)
    requires IsSlugChar(c) && NoDoubleDash(x) && forall k :: 0 <= k < |x| ==> IsSlugChar(x[k])
    requires c == '-' ==> x == [] || x[0] != '-'
    ensures NoDoubleDash([c] + x) && forall k :: 0 <= k < |x| + 1 ==> IsSlugChar(([c] + x)[k])
  {
    var r := [c] + x;
    forall k | 0 < k < |r| ensures r[k] == x[k - 1] {
    }
  }

  /** `strip("-")` keeps a slice of its argument and removes the edge dashes. */
  lemma TrimDashesSlice(s: string) returns (i: nat, j: nat)
    ensures i <= j <= |s| && TrimDashes(s) == s[i..j]
    ensures TrimDashes(s) == [] || (TrimDashes(s)[0] != '-' && TrimDashes(s)[|TrimDashes(s)| - 1] != '-')
    ensures i == j || (s[i] != '-' && s[j - 1] != '-')
  {
    var l := TrimDashLeft(s);
    TrimDashLeftSuffix(s);
    i := |s| - |l|;
    var r := TrimDashRight(l);
    TrimDashRightPrefix(l);
    j := i + |r|;
    assert r == l[..|r|];
    assert r == s[i..j];
    if r != [] {
      assert r[0] == l[0] == s[i];
      assert r[|r| - 1] == s[j - 1];
    }
  }

  /** A slice of a string without "--" has none either. */
  lemma SliceNoDoubleDash(s: string, i: nat, j: nat)
    requires i <= j <= |s| && NoDoubleDash(s) && forall k :: 0 <= k < |s| ==> IsSlugChar(s[k])
    ensures NoDoubleDash(s[i..j]) && forall k :: 0 <= k < j - i ==> IsSlugChar(s[i..j][k])
  {
    var t := s[i..j];
    forall k | 0 <= k < |t| - 1 ensures !(t[k] == '-' && t[k + 1] == '-') {
      assert t[k] == s[i + k] && t[k + 1] == s[i + k + 1];
    }
  }

  /** The untruncated slug is clean. */
  lemma SlugIsClean(text: string)
    ensures IsCleanSlug(Slug(text))
  {
    CleanTrimmed(KeepSlugChars(SquashRuns(Lower(Strip(text)), IsGap, '-')));
  }

  lemma CleanTrimmed(s: string)
    requires forall k :: 0 <= k < |s| ==> IsSlugChar(s[k])
    ensures IsCleanSlug(TrimDashes(SquashRuns(s, IsDash, '-')))
  {
    var squashed := SquashRuns(s, IsDash, '-');
    SquashDashes(s);
    var i, j := TrimDashesSlice(squashed);
    CleanSlice(squashed, i, j);
  }

  /** A slice of a string of slug characters without "--" is clean once its ends are not dashes. */
  lemma CleanSlice(s: string, i: nat, j: nat)
    requires i <= j <= |s| && NoDoubleDash(s) && forall k :: 0 <= k < |s| ==> IsSlugChar(s[k])
    requires i == j || (s[i] != '-' && s[j - 1] != '-')
    ensures IsCleanSlug(s[i..j])
  {
    SliceNoDoubleDash(s, i, j);
  }

  /** Cutting a clean slug right before one of its dashes leaves a clean slug. */
  lemma CleanBeforeDash(s: string, i: nat)
    requires IsCleanSlug(s) && i < |s| && s[i] == '-'
    ensures IsCleanSlug(s[..i]) && s[..i] != []
  {
    SliceNoDoubleDash(s, 0, i);
    assert i > 0;
    assert s[i - 1] != '-';
  }

  lemma CleanPrefixWithoutDash(s: string, m: nat)
    requires IsCleanSlug(s) && 0 < m <= |s|
    requires forall k :: 0 <= k < m ==> s[k] != '-'
    ensures IsCleanSlug(s[..m])
  {
    SliceNoDoubleDash(s, 0, m);
  }

  lemma TrimDashesOfClean(s: string)
    requires s == [] || (s[0] != '-' && s[|s| - 1] != '-')
    ensures TrimDashes(s) == s
  {
  }

  /**
   * Without a positive `max_len`, or for a slug that fits, the slug is
   * returned whole. Otherwise the result is the slug's first `max_len`
   * characters cut back to before the last "-" among them, when there is
   * one: a clean prefix of the slug no longer than `max_len`.
   */
  lemma Truncation(s: string, maxLen: Option<int>)
    requires IsCleanSlug(s)
    ensures var r := Truncate(s, maxLen);
      && IsCleanSlug(r)
      && (maxLen.None? || maxLen.value <= 0 || |s| <= maxLen.value ==> r == s)
      && (maxLen.Some? && 0 < maxLen.value < |s| ==>
            && |r| <= maxLen.value && r == s[..|r|]
            && (LastIndexOf(s[..maxLen.value], '-').Some? ==> r == s[..LastIndexOf(s[..maxLen.value], '-').value])
            && (LastIndexOf(s[..maxLen.value], '-').None? ==> r == s[..maxLen.value]))
  {
    if maxLen.Some? && 0 < maxLen.value < |s| {
      var m := maxLen.value;
      var cut := s[..m];
      match LastIndexOf(cut, '-')
      case Some(i) =>
        assert cut[..i] == s[..i];
        assert s[i] == cut[i];
        CleanBeforeDash(s, i);
        TrimDashesOfClean(s[..i]);
      case None =>
        assert forall k :: 0 <= k < m ==> s[k] == cut[k];
        CleanPrefixWithoutDash(s, m);
        TrimDashesOfClean(cut);
    }
  }

  /** Every result of `slugify` is a clean slug; Python's None gives "". */
  lemma SlugifyIsClean(text: Option<string>, maxLen: Option<int>)
    ensures IsCleanSlug(Slugify(text, maxLen))
    ensures text.None? ==> Slugify(text, maxLen) == ""
  {
    if text.Some? {
      SlugIsClean(text.value);
      Truncation(Slug(text.value), maxLen);
    }
  }

  // ---------------------------------------------------------------------
  // Idempotence
  // ---------------------------------------------------------------------

  lemma {:induction false} SquashWithoutRuns(s: string, p: char -> bool, mark: char)
    requires forall k :: 0 <= k < |s| ==> !p(s[k])
    ensures SquashRuns(s, p, mark) == s
  {
    if s != [] {
      SquashWithoutRuns(s[1..], p, mark);
    }
  }

  lemma {:induction false} SquashSingleDashes(s: string)
    requires NoDoubleDash(s)
    ensures SquashRuns(s, IsDash, '-') == s
  {
    if s != [] {
      assert NoDoubleDash(s[1..]) by {
        forall k | 0 <= k < |s| - 2 ensures !(s[1..][k] == '-' && s[1..][k + 1] == '-') {
          assert s[1..][k] == s[k + 1] && s[1..][k + 1] == s[k + 2];
        }
      }
      SquashSingleDashes(s[1..]);
      if IsDash(s[0]) {
        assert SkipRun(s[1..], IsDash) == s[1..];
      }
    }
  }

  lemma {:induction false} KeepAllSlugChars(s: string)
    requires forall k :: 0 <= k < |s| ==> IsSlugChar(s[k])
    ensures KeepSlugChars(s) == s
  {
    if s != [] {
      KeepAllSlugChars(s[1..]);
    }
  }

  /** A clean slug is its own untruncated slug. */
  lemma SlugOfClean(s: string)
    requires IsCleanSlug(s)
    ensures Slug(s) == s
  {
    StripOfStripped(s);
    assert Lower(s) == s;
    SquashWithoutRuns(s, IsGap, '-');
    KeepAllSlugChars(s);
    SquashSingleDashes(s);
    TrimDashesOfClean(s);
  }

  /** Applying `slugify` with the same `max_len` to its own result changes nothing. */
  lemma SlugifyIdempotent(text: Option<string>, maxLen: Option<int>)
    ensures Slugify(Some(Slugify(text, maxLen)), maxLen) == Slugify(text, maxLen)
  {
    var r := Slugify(text, maxLen);
    SlugifyIsClean(text, maxLen);
    SlugOfClean(r);
    if text.Some? {
      SlugIsClean(text.value);
      Truncation(Slug(text.value), maxLen);
    }
    assert Slugify(Some(r), maxLen) == Truncate(r, maxLen);
  }

  // ---------------------------------------------------------------------
  // Examples
  // ---------------------------------------------------------------------

  /** Edge dashes are removed. */
  lemma EdgeDashesExample()
    ensures Slugify(Some("---A---"), Some(50)) == "a"
  {
    EdgeDashesLowered();
    EdgeDashesKept();
    EdgeDashesSquashed();
    EdgeDashesTrimmed();
  }

  lemma EdgeDashesKept()
    ensures KeepSlugChars(SquashRuns("---a---", IsGap, '-')) == "---a---"
  {
    EdgeDashesNoGaps();
    EdgeDashesAllSlugChars();
  }

  lemma EdgeDashesNoGaps()
    ensures SquashRuns("---a---", IsGap, '-') == "---a---"
  {
  }

  lemma EdgeDashesAllSlugChars()
    ensures KeepSlugChars("---a---") == "---a---"
  {
  }

  lemma EdgeDashesTrimmed()
    ensures TrimDashes("-a-") == "a"
  {
  }

  lemma EdgeDashesLowered()
    ensures Lower(Strip("---A---")) == "---a---"
  {
    StripOfStripped("---A---");
  }

  lemma EdgeDashesSquashed()
    ensures SquashRuns("---a---", IsDash, '-') == "-a-"
  {
  }
}
