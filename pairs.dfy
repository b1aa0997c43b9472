/**
 * `parse_pairs` of the refactoring unit `tasks/py/r03_parser`: a line such
 * as "a=1; b=two; c=" read as a dictionary of keys and values. The line
 * is split at `sep`; each chunk is split at its first `kv`.
 */
module Pairs {
  import opened Text

  datatype Pair = Pair(key: string, value: string)

  /** A trimmed key and value, kept only when the key is non-empty. */
  function KeyValue(key: string, value: string): Option<Pair>
  {
    if |key| == 0 then None else Some(Pair(key, value))
  }

  /** What one chunk contributes: a trimmed, non-empty key and its trimmed value, or nothing. */
  function PairOf(raw: string, kv: string): Option<Pair>
    requires kv != []
  {
    var part := Strip(raw);
    if |part| == 0 then None
    else
      match Find(part, kv)
      case Some(i) => KeyValue(Strip(part[..i]), Strip(part[i + |kv|..]))
      case None => KeyValue(Strip(part), Strip(""))
  }

  /** A chunk holding `kv` splits at its first `kv`. */
  lemma PairOfFound(raw: string, kv: string, i: nat)
    requires kv != [] && |Strip(raw)| > 0 && Find(Strip(raw), kv) == Some(i)
    ensures PairOf(raw, kv) == KeyValue(Strip(Strip(raw)[..i]), Strip(Strip(raw)[i + |kv|..]))
  {
  }

  /** A chunk without `kv` is all key, with the empty value. */
  lemma PairOfNotFound(raw: string, kv: string)
    requires kv != [] && |Strip(raw)| > 0 && Find(Strip(raw), kv) == None
    ensures PairOf(raw, kv) == KeyValue(Strip(Strip(raw)), "")
  {
    assert Strip("") == "";
  }

  lemma KeyValueSome(key: string, value: string)
    requires |key| > 0
    ensures KeyValue(key, value) == Some(Pair(key, value))
  {
  }

  /** Each chunk's contribution, in order. */
  function Contributions(chunks: seq<string>, kv: string): (r: seq<Option<Pair>>)
    requires kv != []
    ensures |r| == |chunks| && forall n :: 0 <= n < |chunks| ==> r[n] == PairOf(chunks[n], kv)
  {
    seq(|chunks|, n requires 0 <= n < |chunks| => PairOf(chunks[n], kv))
  }

  /** The dictionary the contributions build, in order, a later key overwriting an earlier one. */
  function Build(pairs: seq<Option<Pair>>): map<string, string>
  {
    if pairs == [] then map[] else Add(Build(pairs[..|pairs| - 1]), pairs[|pairs| - 1])
  }

  /** The dictionary after one chunk's contribution. */
  function Add(result: map<string, string>, pair: Option<Pair>): map<string, string>
  {
    match pair
    case None => result
    case Some(pair) => result[pair.key := pair.value]
  }

  /** One more contribution updates the dictionary built so far. */
  lemma BuildSnoc(pairs: seq<Option<Pair>>, n: nat)
    requires n < |pairs|
    ensures Build(pairs[..n + 1]) == Add(Build(pairs[..n]), pairs[n])
  {
    assert pairs[..n + 1][..n] == pairs[..n];
  }

  /** `parse_pairs(line, sep, kv)`; None for Python's None. */
  function ParsePairsOf(line: Option<string>, sep: string, kv: string): map<string, string>
    requires sep != [] && kv != []
  {
    if line.None? then map[] else Build(Contributions(Split(line.value, sep), kv))
  }

  /** `parse_pairs`: the line split at `sep`, then the dictionary filled chunk by chunk. */
  method ParsePairs(line: Option<string>, sep: string, kv: string) returns (result: map<string, string>)
    requires sep != [] && kv != []
    ensures result == ParsePairsOf(line, sep, kv)
  {
    result := map[];
    if line.None? {
      return;
    }
    var chunks := Split(line.value, sep);
    result := Fill(chunks, kv);
  }

  /** The loop over the chunks, each trimmed and split at its first `kv`. */
  method Fill(chunks: seq<string>, kv: string) returns (result: map<string, string>)
    requires kv != []
    ensures result == Build(Contributions(chunks, kv))
  {
    result := map[];
    ghost var pairs := Contributions(chunks, kv);
    var n := 0;
    assert pairs[..n] == [];
    while n < |chunks|
      invariant 0 <= n <= |chunks|
      invariant result == Build(pairs[..n])
    {
      ghost var before := result;
      BuildSnoc(pairs, n);
      var raw := chunks[n];
      var part := Strip(raw);
      if |part| != 0 {
        var key, value;
        if Contains(part, kv) {
          var i := Find(part, kv).value;
          PairOfFound(raw, kv, i);
          key, value := part[..i], part[i + |kv|..];
        } else {
          PairOfNotFound(raw, kv);
          key, value := part, "";
        }
        key := Strip(key);
        value := Strip(value);
        if |key| != 0 {
          KeyValueSome(key, value);
          result := result[key := value];
        }
      }
      assert result == Add(before, pairs[n]);
      n := n + 1;
    }
    assert pairs[..n] == pairs;
  }

  // ---------------------------------------------------------------------
  // What the dictionary holds
  // ---------------------------------------------------------------------

  /** None gives the empty dictionary. */
  lemma NoneIsEmpty(sep: string, kv: string)
    requires sep != [] && kv != []
    ensures ParsePairsOf(None, sep, kv) == map[]
  {
  }

  /** A chunk that is blank after trimming contributes nothing. */
  lemma BlankChunkIgnored(raw: string, kv: string)
    requires kv != [] && IsBlank(raw)
    ensures PairOf(raw, kv) == None
  {
    StripEmptyIffBlank(raw);
  }

  lemma {:induction false} SliceLacksSep(s: string, sep: string, a: nat, b: nat)
    requires sep != [] && a <= b <= |s| && !Contains(s, sep)
    ensures !Contains(s[a..b], sep)
  {
    var t := s[a..b];
    if Contains(t, sep) {
      var j := Find(t, sep).value;
      assert t[j..j + |sep|] == sep;
      assert s[a + j..a + j + |sep|] == t[j..j + |sep|];
      ContainsAt(s, sep, a + j);
    }
  }

  /**
   * A chunk holding `kv` splits at its first `kv`: the key is the trimmed
   * text before it, which never contains `kv`, and the value is the trimmed
   * rest, further `kv`s included. The chunk is dropped exactly when that key
   * is empty.
   */
  lemma SplitsAtFirst(raw: string, kv: string, i: nat)
    requires kv != [] && |Strip(raw)| > 0 && Find(Strip(raw), kv) == Some(i)
    ensures var part := Strip(raw);
      var key, value := Strip(part[..i]), Strip(part[i + |kv|..]);
      && (PairOf(raw, kv).None? <==> |key| == 0)
      && (|key| > 0 ==> PairOf(raw, kv) == Some(Pair(key, value)))
      && !Contains(key, kv) && Strip(key) == key && Strip(value) == value
  {
    var part := Strip(raw);
    var key, value := Strip(part[..i]), Strip(part[i + |kv|..]);
    PairOfFound(raw, kv, i);
    if |key| > 0 {
      KeyValueSome(key, value);
    }
    KeyLacksSep(part, kv, i);
    StripIdempotent(part[..i]);
    StripIdempotent(part[i + |kv|..]);
  }

  /** The trimmed text before the first `kv` does not contain `kv`. */
  lemma KeyLacksSep(part: string, kv: string, i: nat)
    requires kv != [] && Find(part, kv) == Some(i)
    ensures !Contains(Strip(part[..i]), kv)
  {
    BeforeFirstLacksSep(part, kv, i);
    TrimmedLacksSep(part[..i], kv);
  }

  /** Trimming cannot create an occurrence of `kv`. */
  lemma TrimmedLacksSep(t: string, kv: string)
    requires kv != [] && !Contains(t, kv)
    ensures !Contains(Strip(t), kv)
  {
    var j := StripIsSlice(t);
    SliceLacksSep(t, kv, j, j + |Strip(t)|);
  }

  /** A non-blank chunk without `kv` is all key, with the value "". */
  lemma WholeChunkKey(raw: string, kv: string)
    requires kv != [] && |Strip(raw)| > 0 && Find(Strip(raw), kv) == None
    ensures PairOf(raw, kv) == Some(Pair(Strip(raw), ""))
  {
    PairOfNotFound(raw, kv);
    StripIdempotent(raw);
    KeyValueSome(Strip(raw), "");
  }

  /** Every contribution has a non-empty key free of `kv`, and both key and value are trimmed. */
  lemma ContributionTrimmed(raw: string, kv: string)
    requires kv != []
    ensures PairOf(raw, kv).Some? ==>
      var pair := PairOf(raw, kv).value;
      && |pair.key| > 0 && !Contains(pair.key, kv)
      && Strip(pair.key) == pair.key && Strip(pair.value) == pair.value
  {
    var part := Strip(raw);
    if |part| > 0 {
      match Find(part, kv)
      case Some(i) =>
        SplitsAtFirst(raw, kv, i);
      case None =>
        WholeChunkKey(raw, kv);
        StripIdempotent(raw);
        assert Strip("") == "";
    }
  }

  /** A key is in the dictionary exactly when some chunk contributes it. */
  lemma {:induction false} KeysOfChunks(pairs: seq<Option<Pair>>, key: string)
    ensures key in Build(pairs) <==> exists n :: 0 <= n < |pairs| && pairs[n].Some? && pairs[n].value.key == key
  {
    if pairs != [] {
      var init := pairs[..|pairs| - 1];
      KeysOfChunks(init, key);
      assert forall n :: 0 <= n < |init| ==> init[n] == pairs[n];
    }
  }

  /**
   * The value of a key is the one the last chunk with that key gives: a
   * later occurrence overwrites an earlier one.
   */
  lemma {:induction false} LastOccurrenceWins(pairs: seq<Option<Pair>>, n: nat)
    requires n < |pairs| && pairs[n].Some?
    requires forall m :: n < m < |pairs| && pairs[m].Some? ==> pairs[m].value.key != pairs[n].value.key
    ensures pairs[n].value.key in Build(pairs) && Build(pairs)[pairs[n].value.key] == pairs[n].value.value
  {
    var init := pairs[..|pairs| - 1];
    if n < |pairs| - 1 {
      assert init[n] == pairs[n];
      forall m | n < m < |init| && init[m].Some? ensures init[m].value.key != init[n].value.key {
        assert init[m] == pairs[m];
      }
      LastOccurrenceWins(init, n);
    }
  }

  // ---------------------------------------------------------------------
  // The two documented lines
  // ---------------------------------------------------------------------

  lemma BasicChunks(line: string)
    requires line == "a=1; b=two; c="
    ensures Split(line, ";") == ["a=1", " b=two", " c="]
  {
    BasicChunksFirst(line);
    BasicChunksRest(line[4..]);
  }

  lemma BasicChunksFirst(line: string)
    requires line == "a=1; b=two; c="
    ensures Split(line, ";") == ["a=1"] + Split(line[4..], ";") && line[4..] == " b=two; c="
  {
    assert line[..3] == "a=1";
    SplitAtChar(line, ';', 3);
  }

  lemma BasicChunksRest(rest: string)
    requires rest == " b=two; c="
    ensures Split(rest, ";") == [" b=two", " c="]
  {
    SplitAtChar(rest, ';', 6);
    assert rest[..6] == " b=two";
    SingleChunk(rest[7..]);
  }

  lemma SingleChunk(last: string)
    requires last == " c=" || last == " "
    ensures Split(last, ";") == [last]
  {
    SplitNoChar(last, ';');
  }

  /** A chunk whose trimmed form `part` has its first `c` at `i`, before a non-empty key. */
  lemma PairFromChar(raw: string, part: string, c: char, i: nat, key: string, value: string)
    requires Strip(raw) == part && i < |part| && part[i] == c && forall j :: 0 <= j < i ==> part[j] != c
    requires Strip(part[..i]) == key && Strip(part[i + 1..]) == value && |key| > 0
    ensures PairOf(raw, [c]) == Some(Pair(key, value))
  {
    FindCharAt(part, c, i);
    PairOfFound(raw, [c], i);
    KeyValueSome(key, value);
  }

  lemma PairA(raw: string)
    requires raw == "a=1"
    ensures PairOf(raw, "=") == Some(Pair("a", "1"))
  {
    PairAParts(raw);
    PairFromChar(raw, raw, '=', 1, "a", "1");
  }

  lemma PairAParts(raw: string)
    requires raw == "a=1"
    ensures Strip(raw) == raw && raw[1] == '=' && raw[0] != '='
    ensures Strip(raw[..1]) == "a" && Strip(raw[2..]) == "1"
  {
    StripOfStripped(raw);
    assert raw[..1] == "a" && raw[2..] == "1";
    StripOfStripped("a");
    StripOfStripped("1");
  }

  /** The trimmed form of " k=v" is "k=v" for a one-character key `k`. */
  lemma SpacedParts(raw: string, part: string, key: string, value: string)
    requires |raw| >= 3 && IsSpace(raw[0]) && !IsSpace(raw[1]) && !IsSpace(raw[|raw| - 1])
    requires part == raw[1..] && key == part[..1] && value == part[2..]
    requires value == [] || (!IsSpace(value[0]) && !IsSpace(value[|value| - 1]))
    ensures Strip(raw) == part && Strip(part[..1]) == key && Strip(part[2..]) == value
  {
    StripLeadingSpace(raw);
    StripOfStripped(key);
    StripOfStripped(value);
  }

  lemma PairB(raw: string)
    requires raw == " b=two"
    ensures PairOf(raw, "=") == Some(Pair("b", "two"))
  {
    var part := "b=two";
    assert raw[1..] == part && part[..1] == "b" && part[2..] == "two";
    SpacedParts(raw, part, "b", "two");
    PairFromChar(raw, part, '=', 1, "b", "two");
  }

  lemma PairC(raw: string)
    requires raw == " c="
    ensures PairOf(raw, "=") == Some(Pair("c", ""))
  {
    var part := "c=";
    assert raw[1..] == part && part[..1] == "c" && part[2..] == "";
    SpacedParts(raw, part, "c", "");
    PairFromChar(raw, part, '=', 1, "c", "");
  }

  /** A line whose split is known parses as its chunks do. */
  lemma ParseFromChunks(line: string, sep: string, kv: string, chunks: seq<string>)
    requires sep != [] && kv != [] && Split(line, sep) == chunks
    ensures ParsePairsOf(Some(line), sep, kv) == Build(Contributions(chunks, kv))
  {
  }

  /** "a=1; b=two; c=" gives {a: 1, b: two, c: ""}. */
  lemma BasicExample(line: string)
    requires line == "a=1; b=two; c="
    ensures ParsePairsOf(Some(line), ";", "=") == map["a" := "1", "b" := "two", "c" := ""]
  {
    var chunks := ["a=1", " b=two", " c="];
    BasicChunks(line);
    ParseFromChunks(line, ";", "=", chunks);
    BasicBuild(chunks);
  }

  lemma BasicBuild(chunks: seq<string>)
    requires chunks == ["a=1", " b=two", " c="]
    ensures Build(Contributions(chunks, "=")) == map["a" := "1", "b" := "two", "c" := ""]
  {
    BasicContributions(chunks);
    BuildThree(Contributions(chunks, "="), Pair("a", "1"), Pair("b", "two"), Pair("c", ""));
  }

  lemma BasicContributions(chunks: seq<string>)
    requires chunks == ["a=1", " b=two", " c="]
    ensures Contributions(chunks, "=") == [Some(Pair("a", "1")), Some(Pair("b", "two")), Some(Pair("c", ""))]
  {
    PairA(chunks[0]);
    PairB(chunks[1]);
    PairC(chunks[2]);
    ContributionsOfThree(chunks, "=", Some(Pair("a", "1")), Some(Pair("b", "two")), Some(Pair("c", "")));
  }

  lemma ContributionsOfThree(chunks: seq<string>, kv: string, x: Option<Pair>, y: Option<Pair>, z: Option<Pair>)
    requires kv != [] && |chunks| == 3
    requires PairOf(chunks[0], kv) == x && PairOf(chunks[1], kv) == y && PairOf(chunks[2], kv) == z
    ensures Contributions(chunks, kv) == [x, y, z]
  {
    var r := Contributions(chunks, kv);
    assert r[0] == x && r[1] == y && r[2] == z;
    SeqOfThree(r, x, y, z);
  }

  lemma SeqOfThree<T>(r: seq<T>, x: T, y: T, z: T)
    requires |r| == 3 && r[0] == x && r[1] == y && r[2] == z
    ensures r == [x, y, z]
  {
  }

  /** Three contributions with distinct keys give a dictionary of three entries. */
  lemma BuildThree(pairs: seq<Option<Pair>>, p: Pair, q: Pair, r: Pair)
    requires pairs == [Some(p), Some(q), Some(r)]
    ensures Build(pairs) == map[p.key := p.value, q.key := q.value, r.key := r.value]
  {
    assert pairs[..0] == [] && pairs[..3] == pairs;
    BuildSnoc(pairs, 0);
    BuildSnoc(pairs, 1);
    BuildSnoc(pairs, 2);
  }

  lemma EmptyChunks(line: string)
    requires line == " ; x=1;; "
    ensures Split(line, ";") == [" ", " x=1", "", " "]
  {
    EmptyChunksFirst(line);
    EmptyChunksRest(line[2..]);
  }

  lemma EmptyChunksFirst(line: string)
    requires line == " ; x=1;; "
    ensures Split(line, ";") == [" "] + Split(line[2..], ";") && line[2..] == " x=1;; "
  {
    assert line[0] != ';' && line[1] == ';' && line[..1] == " ";
    SplitAtChar(line, ';', 1);
  }

  lemma EmptyChunksRest(rest: string)
    requires rest == " x=1;; "
    ensures Split(rest, ";") == [" x=1", "", " "]
  {
    SplitAtChar(rest, ';', 4);
    assert rest[..4] == " x=1";
    EmptyChunksLast(rest[5..]);
  }

  lemma EmptyChunksLast(rest: string)
    requires rest == "; "
    ensures Split(rest, ";") == ["", " "]
  {
    SplitAtChar(rest, ';', 0);
    assert rest[..0] == "";
    SingleChunk(rest[1..]);
  }

  lemma PairX(raw: string)
    requires raw == " x=1"
    ensures PairOf(raw, "=") == Some(Pair("x", "1"))
  {
    var part := "x=1";
    assert raw[1..] == part && part[..1] == "x" && part[2..] == "1";
    SpacedParts(raw, part, "x", "1");
    PairFromChar(raw, part, '=', 1, "x", "1");
  }

  /** " ; x=1;; " gives {x: 1}: the blank chunks are ignored. */
  lemma EmptyChunksExample(line: string)
    requires line == " ; x=1;; "
    ensures ParsePairsOf(Some(line), ";", "=") == map["x" := "1"]
  {
    var chunks := [" ", " x=1", "", " "];
    EmptyChunks(line);
    ParseFromChunks(line, ";", "=", chunks);
    EmptyChunksBuild(chunks);
  }

  lemma EmptyChunksBuild(chunks: seq<string>)
    requires chunks == [" ", " x=1", "", " "]
    ensures Build(Contributions(chunks, "=")) == map["x" := "1"]
  {
    EmptyContributions(chunks);
    BuildOne(Contributions(chunks, "="), Pair("x", "1"));
  }

  lemma EmptyContributions(chunks: seq<string>)
    requires chunks == [" ", " x=1", "", " "]
    ensures Contributions(chunks, "=") == [None, Some(Pair("x", "1")), None, None]
  {
    SpaceIgnored(chunks[0]);
    PairX(chunks[1]);
    assert IsBlank(chunks[2]);
    BlankChunkIgnored(chunks[2], "=");
    SpaceIgnored(chunks[3]);
    ContributionsOfFour(chunks, "=", Pair("x", "1"));
  }

  lemma SpaceIgnored(raw: string)
    requires raw == " "
    ensures PairOf(raw, "=") == None
  {
    assert IsSpace(raw[0]);
    BlankChunkIgnored(raw, "=");
  }

  lemma ContributionsOfFour(chunks: seq<string>, kv: string, p: Pair)
    requires kv != [] && |chunks| == 4
    requires PairOf(chunks[0], kv) == None && PairOf(chunks[1], kv) == Some(p)
    requires PairOf(chunks[2], kv) == None && PairOf(chunks[3], kv) == None
    ensures Contributions(chunks, kv) == [None, Some(p), None, None]
  {
    var r := Contributions(chunks, kv);
    assert r[0] == None && r[1] == Some(p) && r[2] == None && r[3] == None;
    SeqOfFour(r, None, Some(p), None, None);
  }

  lemma SeqOfFour<T>(r: seq<T>, w: T, x: T, y: T, z: T)
    requires |r| == 4 && r[0] == w && r[1] == x && r[2] == y && r[3] == z
    ensures r == [w, x, y, z]
  {
  }

  /** One contribution among ignored chunks gives a dictionary of one entry. */
  lemma BuildOne(pairs: seq<Option<Pair>>, p: Pair)
    requires pairs == [None, Some(p), None, None]
    ensures Build(pairs) == map[p.key := p.value]
  {
    assert pairs[..0] == [] && pairs[..4] == pairs;
    BuildSnoc(pairs, 0);
    BuildSnoc(pairs, 1);
    BuildSnoc(pairs, 2);
    BuildSnoc(pairs, 3);
  }
}
