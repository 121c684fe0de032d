/**
 * The output checks of the diff package's tests: normalizeDiff, which
 * collapses white space before a result is compared with an expected
 * string, and checkExpected, which checks a rendered diff against an
 * expectation and then checks the shape of every line of it.
 *
 * The failures checkExpected reports with t.Errorf are returned as a list,
 * in the order they are reported. The test slices the text before the
 * first colon from its third byte on, and panics when that text is shorter
 * than two bytes; the model ends the list with SlicePanic there, as the
 * panic ends the test. Strings here are sequences of characters, so the
 * model drops two characters rather than two UTF-8 bytes. The two agree on
 * every line whose first two characters are ASCII, which includes every
 * line that passes the prefix check (PrefixedSliceIsByteSlice).
 */
module DiffCheck {

  import opened Wrappers
  import opened Strs

  // ---------------------------------------------------------------------
  // normalizeDiff
  // ---------------------------------------------------------------------

  /** A word: a non-empty run of characters none of which is white space. */
  predicate IsWord(w: string)
  {
    |w| > 0 && forall i | 0 <= i < |w| :: !IsSpace(w[i])
  }

  /** The length of the word at the head of s. */
  function WordLength(s: string): (n: nat)
    requires |s| > 0 && !IsSpace(s[0])
    ensures 1 <= n <= |s|
    ensures IsWord(s[..n])
    ensures n < |s| ==> IsSpace(s[n])
    decreases |s|
  {
    if |s| == 1 || IsSpace(s[1]) then 1
    else
      var m := WordLength(s[1..]);
      assert s[..m + 1] == [s[0]] + s[1..][..m];
      m + 1
  }

  /** strings.Fields: the words of s, in order. */
  function Fields(s: string): (fs: seq<string>)
    ensures forall k | 0 <= k < |fs| :: IsWord(fs[k])
    decreases |s|
  {
    if |s| == 0 then []
    else if IsSpace(s[0]) then Fields(s[1..])
    else
      var n := WordLength(s);
      [s[..n]] + Fields(s[n..])
  }

  /** normalizeDiff: the words of s joined by single spaces. */
  function NormalizeDiff(s: string): string
  {
    Join(Fields(s), ' ')
  }

  /**
   * Every white-space character is a single space with a non-space
   * character on each side of it.
   */
  predicate Collapsed(r: string)
  {
    forall i | 0 <= i < |r| && IsSpace(r[i]) ::
      r[i] == ' ' && 0 < i < |r| - 1 && !IsSpace(r[i - 1]) && !IsSpace(r[i + 1])
  }

  /** The characters of s that are not white space, in order. */
  function NonSpace(s: string): string
    decreases |s|
  {
    if |s| == 0 then ""
    else (if IsSpace(s[0]) then "" else [s[0]]) + NonSpace(s[1..])
  }

  /** The words, concatenated. */
  function Concat(fs: seq<string>): string
  {
    if |fs| == 0 then "" else fs[0] + Concat(fs[1..])
  }

  /** Words joined by single spaces are collapsed, and start with the first word. */
  lemma {:induction false} JoinWordsCollapsed(fs: seq<string>)
    requires forall k | 0 <= k < |fs| :: IsWord(fs[k])
    ensures Collapsed(Join(fs, ' '))
    ensures |fs| > 0 ==> |Join(fs, ' ')| > 0
    decreases |fs|
  {
    if |fs| > 1 {
      var w := fs[0];
      var rest := Join(fs[1..], ' ');
      JoinWordsCollapsed(fs[1..]);
      var r := Join(fs, ' ');
      assert r == w + [' '] + rest;
      forall i | 0 <= i < |r| && IsSpace(r[i])
        ensures r[i] == ' ' && 0 < i < |r| - 1 && !IsSpace(r[i - 1]) && !IsSpace(r[i + 1])
      {
        if i > |w| {
          assert r[i] == rest[i - |w| - 1];
          assert r[i - 1] == rest[i - |w| - 2];
          assert r[i + 1] == rest[i - |w|];
        }
      }
    }
  }

  /**
   * normalizeDiff leaves no white space at either end, no white space other
   * than single spaces, and never two spaces in a row.
   */
  lemma NormalizeDiffCollapsed(s: string)
    ensures Collapsed(NormalizeDiff(s))
    ensures NormalizeDiff(s) != "" ==>
      !IsSpace(NormalizeDiff(s)[0]) && !IsSpace(NormalizeDiff(s)[|NormalizeDiff(s)| - 1])
    ensures forall i | 0 <= i < |NormalizeDiff(s)| - 1 ::
      !(NormalizeDiff(s)[i] == ' ' && NormalizeDiff(s)[i + 1] == ' ')
  {
    JoinWordsCollapsed(Fields(s));
  }

  lemma {:induction false} NonSpaceConcat(a: string, b: string)
    ensures NonSpace(a + b) == NonSpace(a) + NonSpace(b)
    decreases |a|
  {
    if |a| > 0 {
      var h := if IsSpace(a[0]) then "" else [a[0]];
      assert (a + b)[0] == a[0];
      assert (a + b)[1..] == a[1..] + b;
      assert NonSpace(a + b) == h + NonSpace(a[1..] + b);
      assert NonSpace(a) == h + NonSpace(a[1..]);
      NonSpaceConcat(a[1..], b);
    } else {
      assert a + b == b;
    }
  }

  lemma {:induction false} NonSpaceWord(w: string)
    requires forall i | 0 <= i < |w| :: !IsSpace(w[i])
    ensures NonSpace(w) == w
    decreases |w|
  {
    if |w| > 0 {
      NonSpaceWord(w[1..]);
      assert w == [w[0]] + w[1..];
    }
  }

  /** The non-space characters of s are its words, concatenated. */
  lemma {:induction false} NonSpaceFields(s: string)
    ensures NonSpace(s) == Concat(Fields(s))
    decreases |s|
  {
    if |s| > 0 {
      if IsSpace(s[0]) {
        NonSpaceFields(s[1..]);
      } else {
        var n := WordLength(s);
        assert s == s[..n] + s[n..];
        NonSpaceConcat(s[..n], s[n..]);
        NonSpaceWord(s[..n]);
        NonSpaceFields(s[n..]);
        assert Fields(s)[1..] == Fields(s[n..]);
      }
    }
  }

  /** Joining words by spaces adds nothing but white space. */
  lemma {:induction false} NonSpaceJoin(fs: seq<string>)
    requires forall k | 0 <= k < |fs| :: IsWord(fs[k])
    ensures NonSpace(Join(fs, ' ')) == Concat(fs)
    decreases |fs|
  {
    if |fs| == 1 {
      NonSpaceWord(fs[0]);
    } else if |fs| > 1 {
      var rest := Join(fs[1..], ' ');
      NonSpaceJoin(fs[1..]);
      NonSpaceConcat(fs[0], [' '] + rest);
      NonSpaceConcat([' '], rest);
      NonSpaceWord(fs[0]);
      assert fs[0] + [' '] + rest == fs[0] + ([' '] + rest);
    }
  }

  /** normalizeDiff keeps every non-space character, in its order. */
  lemma NormalizeKeepsNonSpace(s: string)
    ensures NonSpace(NormalizeDiff(s)) == NonSpace(s)
  {
    NonSpaceFields(s);
    NonSpaceJoin(Fields(s));
  }

  /** The word at the head of w + rest is w when rest starts with white space or is empty. */
  lemma {:induction false} WordLengthOf(w: string, rest: string)
    requires IsWord(w)
    requires rest == "" || IsSpace(rest[0])
    ensures WordLength(w + rest) == |w|
    decreases |w|
  {
    var s := w + rest;
    if |w| > 1 {
      assert s[1..] == w[1..] + rest;
      WordLengthOf(w[1..], rest);
    }
  }

  lemma FieldsWordThen(w: string, rest: string)
    requires IsWord(w)
    requires rest == "" || IsSpace(rest[0])
    ensures Fields(w + rest) == [w] + Fields(rest)
  {
    WordLengthOf(w, rest);
    assert (w + rest)[..|w|] == w;
    assert (w + rest)[|w|..] == rest;
  }

  /** Splitting words joined by spaces into fields gives the words back. */
  lemma {:induction false} FieldsJoin(fs: seq<string>)
    requires forall k | 0 <= k < |fs| :: IsWord(fs[k])
    ensures Fields(Join(fs, ' ')) == fs
    decreases |fs|
  {
    if |fs| == 1 {
      FieldsWordThen(fs[0], "");
      assert fs[0] + "" == fs[0];
    } else if |fs| > 1 {
      var w, rest := fs[0], Join(fs[1..], ' ');
      var spaced := [' '] + rest;
      FieldsJoin(fs[1..]);
      JoinFirst(fs, ' ');
      FieldsWordThen(w, spaced);
      FieldsSpaceThen(rest);
      assert fs == [w] + fs[1..];
    }
  }

  lemma JoinFirst(fs: seq<string>, sep: char)
    requires |fs| > 1
    ensures Join(fs, sep) == fs[0] + ([sep] + Join(fs[1..], sep))
  {
  }

  /** A leading space does not change the fields. */
  lemma FieldsSpaceThen(rest: string)
    ensures Fields([' '] + rest) == Fields(rest)
  {
    assert ([' '] + rest)[1..] == rest;
  }

  /** normalizeDiff is idempotent. */
  lemma NormalizeIdempotent(s: string)
    ensures NormalizeDiff(NormalizeDiff(s)) == NormalizeDiff(s)
  {
    FieldsJoin(Fields(s));
  }

  /** s has no fields exactly when it is all white space. */
  lemma {:induction false} FieldsEmptyIff(s: string)
    ensures Fields(s) == [] <==> forall i | 0 <= i < |s| :: IsSpace(s[i])
    decreases |s|
  {
    if |s| > 0 && IsSpace(s[0]) {
      FieldsEmptyIff(s[1..]);
      assert forall i | 1 <= i < |s| :: s[i] == s[1..][i - 1];
    }
  }

  /** The normalized text is empty exactly when s is all white space. */
  lemma NormalizeEmptyIff(s: string)
    ensures NormalizeDiff(s) == "" <==> forall i | 0 <= i < |s| :: IsSpace(s[i])
  {
    FieldsEmptyIff(s);
    JoinWordsCollapsed(Fields(s));
  }

  // ---------------------------------------------------------------------
  // checkExpected
  // ---------------------------------------------------------------------

  /** The expected value: a string, a list of strings, or anything else. */
  datatype Expectation = Text(s: string) | Texts(ss: seq<string>) | Other

  /** One reported failure, or the panic that ends the check. */
  datatype Failure =
    | NotEmpty
    | Missing(s: string)
    | BadPrefix(line: string)
    | BadPath(path: string)
    | SlicePanic(line: string)

  /** A Missing failure for each listed string the result does not contain. */
  function MissingOf(result: string, ss: seq<string>): seq<Failure>
    decreases |ss|
  {
    if |ss| == 0 then []
    else (if Contains(result, ss[0]) then [] else [Missing(ss[0])]) + MissingOf(result, ss[1..])
  }

  /** The failures of the comparison with the expectation. */
  function ContentFailures(result: string, expected: Expectation): seq<Failure>
  {
    if expected == Text("") && NormalizeDiff(result) != "" then [NotEmpty]
    else
      match expected
      case Text(s) => if s != "" && !Contains(result, s) then [Missing(s)] else []
      case Texts(ss) => MissingOf(result, ss)
      case Other => []
  }

  /** The prefixes a diff line may start with: removed, inserted, or context. */
  predicate ProperPrefix(line: string)
  {
    HasPrefix(line, "- ") || HasPrefix(line, "+ ") || HasPrefix(line, "  ")
  }

  /** A BadPrefix failure for each non-empty line without a proper prefix. */
  function PrefixFailures(lines: seq<string>): seq<Failure>
    decreases |lines|
  {
    if |lines| == 0 then []
    else
      (if lines[0] != "" && !ProperPrefix(lines[0]) then [BadPrefix(lines[0])] else [])
      + PrefixFailures(lines[1..])
  }

  /** The lines whose path the check looks at: not empty, not context, and holding a colon. */
  predicate PathChecked(line: string)
  {
    line != "" && !HasPrefix(line, "  ") && ':' in line
  }

  /**
   * Dropping two characters from the text before the first colon panics.
   * The test drops two bytes; the two agree on lines whose first two
   * characters are ASCII (see PrefixedSliceIsByteSlice).
   */
  predicate PanicsOn(line: string)
  {
    PathChecked(line) && IndexOf(line, ':').value < 2
  }

  /** The path of a checked line: the text before its first colon, less two characters, trimmed. */
  function LinePath(line: string): string
    requires PathChecked(line) && !PanicsOn(line)
  {
    TrimSpace(line[2..IndexOf(line, ':').value])
  }

  /** A BadPath failure for each checked path not starting with a dot; a panic ends the list. */
  function PathFailures(lines: seq<string>): seq<Failure>
    decreases |lines|
  {
    if |lines| == 0 then []
    else if !PathChecked(lines[0]) then PathFailures(lines[1..])
    else if PanicsOn(lines[0]) then [SlicePanic(lines[0])]
    else PathFound(lines[0]) + PathFailures(lines[1..])
  }

  /** The failure a checked line that does not panic adds: its path, unless that starts with a dot. */
  function PathFound(line: string): seq<Failure>
    requires PathChecked(line) && !PanicsOn(line)
  {
    var path := LinePath(line);
    if path != "." && !HasPrefix(path, ".") then [BadPath(path)] else []
  }

  /** Everything checkExpected reports, in order. */
  function Failures(result: string, expected: Expectation): seq<Failure>
  {
    ContentFailures(result, expected)
    + if expected != Text("") && result != "" then
        var lines := Split(result, '\n');
        PrefixFailures(lines) + PathFailures(lines)
      else []
  }

  /** checkExpected: compares the result with the expectation, then checks every line. */
  method CheckExpected(result: string, expected: Expectation) returns (failures: seq<Failure>)
    ensures failures == Failures(result, expected)
  {
    failures := CheckContent(result, expected);
    if expected != Text("") && result != "" {
      var lines := Split(result, '\n');
      failures := CheckPrefixes(lines, failures);
      failures := CheckPaths(lines, failures);
    }
  }

  /** The comparison of checkExpected with the expected string or strings. */
  method CheckContent(result: string, expected: Expectation) returns (failures: seq<Failure>)
    ensures failures == ContentFailures(result, expected)
  {
    var normResult := NormalizeDiff(result);
    failures := [];
    if expected == Text("") && normResult != "" {
      failures := [NotEmpty];
    } else if expected.Text? && expected.s != "" {
      if !Contains(result, expected.s) {
        failures := [Missing(expected.s)];
      }
    } else if expected.Texts? {
      failures := CheckList(result, expected.ss);
    }
  }

  /** The list loop: a Missing failure for each expected string the result lacks. */
  method CheckList(result: string, ss: seq<string>) returns (failures: seq<Failure>)
    ensures failures == MissingOf(result, ss)
  {
    failures := [];
    var i := 0;
    while i < |ss|
      invariant 0 <= i <= |ss|
      invariant failures + MissingOf(result, ss[i..]) == MissingOf(result, ss)
    {
      assert ss[i..][1..] == ss[i + 1..];
      if !Contains(result, ss[i]) {
        failures := failures + [Missing(ss[i])];
      }
      i := i + 1;
    }
  }

  /** The prefix loop: appends a BadPrefix failure for each offending line. */
  method CheckPrefixes(lines: seq<string>, reported: seq<Failure>) returns (failures: seq<Failure>)
    ensures failures == reported + PrefixFailures(lines)
  {
    failures := reported;
    var i := 0;
    while i < |lines|
      invariant 0 <= i <= |lines|
      invariant failures + PrefixFailures(lines[i..]) == reported + PrefixFailures(lines)
    {
      assert lines[i..][1..] == lines[i + 1..];
      var line := lines[i];
      if line != "" && !HasPrefix(line, "- ") && !HasPrefix(line, "+ ") && !HasPrefix(line, "  ") {
        failures := failures + [BadPrefix(line)];
      }
      i := i + 1;
    }
  }

  /** The path loop: appends a BadPath failure for each offending path, and stops at a panic. */
  method CheckPaths(lines: seq<string>, reported: seq<Failure>) returns (failures: seq<Failure>)
    ensures failures == reported + PathFailures(lines)
  {
    failures := reported;
    var i := 0;
    while i < |lines|
      invariant 0 <= i <= |lines|
      invariant failures + PathFailures(lines[i..]) == reported + PathFailures(lines)
    {
      PathFailuresStep(lines, i);
      var panics, found := CheckPathLine(lines[i]);
      if panics {
        return failures + [SlicePanic(lines[i])];
      }
      assert (failures + found) + PathFailures(lines[i + 1..]) == failures + (found + PathFailures(lines[i + 1..]));
      failures := failures + found;
      i := i + 1;
    }
  }

  /** PathFailures from index i on, unfolded by one line. */
  lemma PathFailuresStep(lines: seq<string>, i: nat)
    requires i < |lines|
    ensures PanicsOn(lines[i]) ==> PathFailures(lines[i..]) == [SlicePanic(lines[i])]
    ensures !PathChecked(lines[i]) ==> PathFailures(lines[i..]) == PathFailures(lines[i + 1..])
    ensures PathChecked(lines[i]) && !PanicsOn(lines[i]) ==>
      PathFailures(lines[i..]) == PathFound(lines[i]) + PathFailures(lines[i + 1..])
  {
    assert lines[i..][0] == lines[i];
    assert lines[i..][1..] == lines[i + 1..];
  }

  /** One turn of the path loop: whether the line panics, otherwise the failure it adds. */
  method CheckPathLine(line: string) returns (panics: bool, found: seq<Failure>)
    ensures panics <==> PanicsOn(line)
    ensures !panics && PathChecked(line) ==> found == PathFound(line)
    ensures !PathChecked(line) ==> found == []
  {
    panics, found := false, [];
    if line != "" && !HasPrefix(line, "  ") {
      match IndexOf(line, ':')
      case None =>
      case Some(colon) =>
        if colon < 2 {
          return true, [];
        }
        var path := TrimSpace(line[2..colon]);
        if path != "." && !HasPrefix(path, ".") {
          found := [BadPath(path)];
        }
    }
  }

  // ---------------------------------------------------------------------
  // Properties of checkExpected
  // ---------------------------------------------------------------------

  /** The line checks report only BadPrefix, BadPath and SlicePanic. */
  lemma {:induction false} LineFailureKinds(lines: seq<string>)
    ensures forall f | f in PrefixFailures(lines) :: f.BadPrefix?
    ensures forall f | f in PathFailures(lines) :: f.BadPath? || f.SlicePanic?
    decreases |lines|
  {
    if |lines| > 0 {
      LineFailureKinds(lines[1..]);
    }
  }

  /**
   * An empty expectation fails exactly when the result holds something other
   * than white space, and then with the one NotEmpty failure.
   */
  lemma EmptyExpectation(result: string)
    ensures Failures(result, Text("")) == [] <==> forall i | 0 <= i < |result| :: IsSpace(result[i])
    ensures Failures(result, Text("")) == [] || Failures(result, Text("")) == [NotEmpty]
  {
    NormalizeEmptyIff(result);
  }

  lemma {:induction false} MissingOfExactly(result: string, ss: seq<string>, s: string)
    ensures Missing(s) in MissingOf(result, ss) <==> s in ss && !Contains(result, s)
    ensures forall f | f in MissingOf(result, ss) :: f.Missing?
    decreases |ss|
  {
    if |ss| > 0 {
      MissingOfExactly(result, ss[1..], s);
      assert ss == [ss[0]] + ss[1..];
    }
  }

  /** A list expectation reports a string missing exactly when it is listed and not contained in the result. */
  lemma ListExpectation(result: string, ss: seq<string>, s: string)
    ensures Missing(s) in Failures(result, Texts(ss)) <==> s in ss && !Contains(result, s)
  {
    MissingOfExactly(result, ss, s);
    LineFailureKinds(Split(result, '\n'));
  }

  /** So a list expectation reports no missing string exactly when every listed string is contained. */
  lemma ListExpectationPasses(result: string, ss: seq<string>)
    ensures (forall f | f in Failures(result, Texts(ss)) :: !f.Missing?) <==>
      forall i | 0 <= i < |ss| :: Contains(result, ss[i])
  {
    forall s ensures Missing(s) in Failures(result, Texts(ss)) <==> s in ss && !Contains(result, s) {
      ListExpectation(result, ss, s);
    }
  }

  /** A non-empty string expectation reports only itself, and only when the result does not contain it. */
  lemma TextExpectation(result: string, s: string, t: string)
    requires s != ""
    ensures Missing(t) in Failures(result, Text(s)) <==> t == s && !Contains(result, s)
  {
    LineFailureKinds(Split(result, '\n'));
  }

  lemma {:induction false} PrefixFailuresExactly(lines: seq<string>, line: string)
    ensures BadPrefix(line) in PrefixFailures(lines) <==> line in lines && line != "" && !ProperPrefix(line)
    decreases |lines|
  {
    if |lines| > 0 {
      PrefixFailuresExactly(lines[1..], line);
      assert lines == [lines[0]] + lines[1..];
    }
  }

  /**
   * With any expectation but the empty string and a non-empty result, a line
   * is reported for its prefix exactly when it is a non-empty line of the
   * result without one of the three proper prefixes.
   */
  lemma PrefixCheck(result: string, expected: Expectation, line: string)
    requires expected != Text("") && result != ""
    ensures BadPrefix(line) in Failures(result, expected) <==>
      line in Split(result, '\n') && line != "" && !ProperPrefix(line)
  {
    var lines := Split(result, '\n');
    PrefixFailuresExactly(lines, line);
    LineFailureKinds(lines);
    assert forall f | f in ContentFailures(result, expected) :: f.NotEmpty? || f.Missing? by {
      if expected.Texts? {
        MissingOfExactly(result, expected.ss, "");
      }
    }
  }

  /**
   * When no line makes the check panic, a path is reported exactly when it
   * is the path of a checked line and does not start with a dot (a path
   * equal to "." starts with a dot, so the first half of the test adds
   * nothing).
   */
  lemma {:induction false} PathCheck(lines: seq<string>, path: string)
    requires forall k | 0 <= k < |lines| :: !PanicsOn(lines[k])
    ensures BadPath(path) in PathFailures(lines) <==>
      exists k | 0 <= k < |lines| :: PathChecked(lines[k]) && LinePath(lines[k]) == path && !HasPrefix(path, ".")
    decreases |lines|
  {
    if |lines| > 0 {
      PathCheck(lines[1..], path);
      assert forall k | 1 <= k < |lines| :: lines[k] == lines[1..][k - 1];
      if exists k | 0 <= k < |lines| :: PathChecked(lines[k]) && LinePath(lines[k]) == path && !HasPrefix(path, ".") {
        var k :| 0 <= k < |lines| && PathChecked(lines[k]) && LinePath(lines[k]) == path && !HasPrefix(path, ".");
        if k > 0 {
          assert lines[1..][k - 1] == lines[k];
        }
      }
    }
  }

  /** The number of bytes of a character in UTF-8. */
  function Utf8Length(c: char): nat
  {
    if c as int < 0x80 then 1 else if c as int < 0x800 then 2 else if c as int < 0x1_0000 then 3 else 4
  }

  /** The number of bytes of a string in UTF-8. */
  function ByteLength(s: string): nat
  {
    if |s| == 0 then 0 else ByteLength(s[..|s| - 1]) + Utf8Length(s[|s| - 1])
  }

  /**
   * A line that passes the prefix check starts with two ASCII characters,
   * so its first two characters are its first two bytes: dropping two
   * characters, as the model does, drops what the test's byte slice drops.
   */
  lemma PrefixedSliceIsByteSlice(line: string)
    requires ProperPrefix(line)
    ensures |line| >= 2 && ByteLength(line[..2]) == 2
    ensures forall k | 0 <= k < 2 :: Utf8Length(line[k]) == 1
  {
    assert line[0] == '-' || line[0] == '+' || line[0] == ' ';
    assert line[1] == ' ';
    assert line[..2][..1] == [line[0]];
    assert line[..2][..1][..0] == [];
  }

  /** Lines that pass the prefix check never make the path check panic. */
  lemma PrefixedLinesDoNotPanic(line: string)
    requires line == "" || ProperPrefix(line)
    ensures !PanicsOn(line)
  {
    if PathChecked(line) {
      var colon := IndexOf(line, ':').value;
      assert line[..2] != "  ";
      assert line[0] == '-' || line[0] == '+';
      assert line[1] == ' ';
      assert colon != 0 && colon != 1;
    }
  }

  /**
   * A line with fewer than two characters before its first colon makes the
   * check panic after the prefix failure was reported.
   */
  lemma ShortPathPanics()
    ensures Failures("-:x", Text("x")) == [BadPrefix("-:x"), SlicePanic("-:x")]
  {
    var line := "-:x";
    assert IndexOf(line, '\n').None?;
    assert Split(line, '\n') == [line];
    assert Contains(line, "x") by {
      assert OccursAt(line, "x", 2);
    }
    assert IndexOf(line, ':') == Some(1) by {
      assert line[0] != ':' && line[1] == ':';
      assert line[1..] == ":x";
    }
    assert !ProperPrefix(line) by {
      assert line[..2] == "-:";
    }
  }
}
