/**
 * The import patcher of the TensorFlow benchmark image: it inserts one
 * import line right after the last `from __future__` line of a Python
 * file, or at the very top when the file has none, because future imports
 * must stay at the start of a module. A file is its list of lines, each
 * with its line ending, as readlines returns them.
 */
module PatchImports {

  import opened Strs

  /** The inserted line, with its line ending. */
  const CompatImport: string := "import sys; " + "sys.path.insert(0, \"/\"); " + "import tf_compat\n"

  const FuturePrefix: string := "from __future__"

  /** Python's str.isspace on one character: Go's white space plus the four separator controls. */
  predicate PyIsSpace(c: char)
  {
    IsSpace(c) || ('\U{1C}' <= c <= '\U{1F}')
  }

  /** str.lstrip(): drop leading white space. */
  function StripLeft(s: string): string
    decreases |s|
  {
    if |s| > 0 && PyIsSpace(s[0]) then StripLeft(s[1..]) else s
  }

  /** str.rstrip(): drop trailing white space. */
  function StripRight(s: string): string
    decreases |s|
  {
    if |s| > 0 && PyIsSpace(s[|s| - 1]) then StripRight(s[..|s| - 1]) else s
  }

  /** str.strip(). */
  function Strip(s: string): string
  {
    StripRight(StripLeft(s))
  }

  /** rstrip keeps a prefix, and keeps the first character when it is not white space. */
  lemma {:induction false} StripRightPrefix(s: string)
    ensures |StripRight(s)| <= |s| && StripRight(s) == s[..|StripRight(s)|]
    ensures StripRight(s) != "" ==> !PyIsSpace(StripRight(s)[|StripRight(s)| - 1])
    ensures |s| > 0 && !PyIsSpace(s[0]) ==> |StripRight(s)| > 0
    decreases |s|
  {
    if |s| > 0 && PyIsSpace(s[|s| - 1]) {
      StripRightPrefix(s[..|s| - 1]);
    }
  }

  /** lstrip keeps a suffix that does not start with white space. */
  lemma {:induction false} StripLeftSuffix(s: string)
    ensures |StripLeft(s)| <= |s| && StripLeft(s) == s[|s| - |StripLeft(s)|..]
    ensures StripLeft(s) != "" ==> !PyIsSpace(StripLeft(s)[0])
    decreases |s|
  {
    if |s| > 0 && PyIsSpace(s[0]) {
      StripLeftSuffix(s[1..]);
    }
  }

  /** strip leaves no white space at either end, and is the identity on a line that already has none. */
  lemma StripTrims(s: string)
    ensures Strip(s) != "" ==> !PyIsSpace(Strip(s)[0]) && !PyIsSpace(Strip(s)[|Strip(s)| - 1])
    ensures |s| > 0 && !PyIsSpace(s[0]) ==> |Strip(s)| > 0 && Strip(s)[0] == s[0]
    ensures |s| > 0 && !PyIsSpace(s[0]) && !PyIsSpace(s[|s| - 1]) ==> Strip(s) == s
  {
    StripLeftSuffix(s);
    StripRightPrefix(StripLeft(s));
  }

  /** line.strip().startswith("from __future__"). */
  predicate IsFutureLine(line: string)
  {
    HasPrefix(Strip(line), FuturePrefix)
  }

  /**
   * The index of the last future-import line, or -1 when there is none:
   * the largest index whose line is a future import.
   */
  function LastFutureLine(lines: seq<string>): (r: int)
    ensures -1 <= r < |lines|
    ensures r >= 0 ==> IsFutureLine(lines[r])
  {
    if |lines| == 0 then -1
    else if IsFutureLine(lines[|lines| - 1]) then |lines| - 1
    else LastFutureLine(lines[..|lines| - 1])
  }

  /** Where the import goes: after the last future import, or at the top. */
  function InsertPosition(lines: seq<string>): (p: nat)
    ensures p <= |lines|
    ensures p > 0 ==> IsFutureLine(lines[p - 1])
  {
    var last := LastFutureLine(lines);
    if last >= 0 then last + 1 else 0
  }

  /** No line after the last future import is one. */
  lemma {:induction false} LastFutureLineIsLast(lines: seq<string>)
    ensures forall i | LastFutureLine(lines) < i < |lines| :: !IsFutureLine(lines[i])
  {
    if |lines| > 0 && !IsFutureLine(lines[|lines| - 1]) {
      var init := lines[..|lines| - 1];
      LastFutureLineIsLast(init);
      assert forall i | 0 <= i < |init| :: init[i] == lines[i];
    }
  }

  /** The import goes to the top exactly when the file has no future import. */
  lemma InsertPositionZero(lines: seq<string>)
    ensures InsertPosition(lines) == 0 <==> forall i | 0 <= i < |lines| :: !IsFutureLine(lines[i])
  {
    LastFutureLineIsLast(lines);
  }

  /** The patched file. */
  function Patched(lines: seq<string>): (out: seq<string>)
    ensures |out| == |lines| + 1
    ensures out[InsertPosition(lines)] == CompatImport
  {
    var p := InsertPosition(lines);
    lines[..p] + [CompatImport] + lines[p..]
  }

  /** The scan of patch_file: the index of the last future import, or -1. */
  method FindLastFutureLine(lines: seq<string>) returns (lastFutureLine: int)
    ensures lastFutureLine == LastFutureLine(lines)
  {
    lastFutureLine := -1;
    var i := 0;
    while i < |lines|
      invariant 0 <= i <= |lines|
      invariant lastFutureLine == LastFutureLine(lines[..i])
    {
      LastFutureLineStep(lines, i);
      if IsFutureLine(lines[i]) {
        lastFutureLine := i;
      }
      i := i + 1;
    }
    assert lines[..|lines|] == lines;
  }

  /** patch_file on the lines of a file: the scan, then one insertion. */
  method PatchFile(lines: seq<string>) returns (patched: seq<string>)
    ensures patched == Patched(lines)
  {
    var lastFutureLine := FindLastFutureLine(lines);
    patched := lines;
    if lastFutureLine >= 0 {
      var insertPos := lastFutureLine + 1;
      patched := patched[..insertPos] + [CompatImport] + patched[insertPos..];
    } else {
      patched := [CompatImport] + patched;
    }
  }

  /** One more line scanned: it is the last future import if it is one. */
  lemma LastFutureLineStep(lines: seq<string>, i: nat)
    requires i < |lines|
    ensures LastFutureLine(lines[..i + 1]) == if IsFutureLine(lines[i]) then i else LastFutureLine(lines[..i])
  {
    assert lines[..i + 1][..i] == lines[..i];
  }

  /** Removing the inserted line gives the original lines back, in their order. */
  lemma PatchKeepsLines(lines: seq<string>)
    ensures var p := InsertPosition(lines);
      Patched(lines)[..p] == lines[..p] && Patched(lines)[p + 1..] == lines[p..]
    ensures var p := InsertPosition(lines);
      Patched(lines)[..p] + Patched(lines)[p + 1..] == lines
  {
    var p := InsertPosition(lines);
    assert lines[..p] + lines[p..] == lines;
  }

  /** The inserted line is not itself a future import. */
  lemma CompatIsNotFuture()
    ensures !IsFutureLine(CompatImport)
  {
    assert CompatImport[0] == 'i';
    LetterStartIsNotFuture(CompatImport);
  }

  /** A line that starts with a character other than white space and 'f' is not a future import. */
  lemma LetterStartIsNotFuture(line: string)
    requires |line| > 0 && !PyIsSpace(line[0]) && line[0] != 'f'
    ensures !IsFutureLine(line)
  {
    StripTrims(line);
  }

  /** No future import comes after the inserted line. */
  lemma NoFutureAfterInsert(lines: seq<string>)
    ensures var p := InsertPosition(lines);
      forall i | p < i < |Patched(lines)| :: !IsFutureLine(Patched(lines)[i])
  {
    var p := InsertPosition(lines);
    var out := Patched(lines);
    PatchKeepsLines(lines);
    LastFutureLineIsLast(lines);
    forall i | p < i < |out|
      ensures !IsFutureLine(out[i])
    {
      assert out[i] == out[p + 1..][i - p - 1] == lines[i - 1];
    }
  }

  /** An index that is a future import with none after it is the last future import. */
  lemma LastFutureLineUnique(lines: seq<string>, k: int)
    requires -1 <= k < |lines|
    requires k >= 0 ==> IsFutureLine(lines[k])
    requires forall i | k < i < |lines| :: !IsFutureLine(lines[i])
    ensures LastFutureLine(lines) == k
  {
    LastFutureLineIsLast(lines);
  }

  /** The patched file has the same last future import, so a second pass inserts at the same place. */
  lemma PatchedFutureLines(lines: seq<string>)
    ensures LastFutureLine(Patched(lines)) == LastFutureLine(lines)
    ensures InsertPosition(Patched(lines)) == InsertPosition(lines)
  {
    var p := InsertPosition(lines);
    FromInsertNotFuture(lines);
    if p > 0 {
      assert Patched(lines)[p - 1] == lines[p - 1];
    }
    LastFutureLineUnique(Patched(lines), p as int - 1);
  }

  /** Neither the inserted line nor any line after it is a future import. */
  lemma FromInsertNotFuture(lines: seq<string>)
    ensures var p := InsertPosition(lines);
      forall i | p <= i < |Patched(lines)| :: !IsFutureLine(Patched(lines)[i])
  {
    NoFutureAfterInsert(lines);
    CompatIsNotFuture();
  }

  /**
   * Patching is not idempotent: a second pass inserts a second copy of the
   * import at the same position.
   */
  lemma PatchTwice(lines: seq<string>)
    ensures var p := InsertPosition(lines);
      Patched(Patched(lines)) == lines[..p] + [CompatImport, CompatImport] + lines[p..]
    ensures Patched(Patched(lines)) != Patched(lines)
  {
    var p := InsertPosition(lines);
    var once := Patched(lines);
    PatchedFutureLines(lines);
    PatchedAt(lines, p);
    PatchedAt(once, p);
    InsertedTwice(lines, p, CompatImport);
  }

  /** Patched, at the position it inserts at. */
  lemma PatchedAt(lines: seq<string>, p: nat)
    requires p == InsertPosition(lines)
    ensures Patched(lines) == lines[..p] + [CompatImport] + lines[p..]
  {
  }

  /** Inserting x twice at the same position puts two copies side by side. */
  lemma InsertedTwice(lines: seq<string>, p: nat, x: string)
    requires p <= |lines|
    ensures var once := lines[..p] + [x] + lines[p..];
      once[..p] + [x] + once[p..] == lines[..p] + [x, x] + lines[p..]
  {
    var once := lines[..p] + [x] + lines[p..];
    assert once[..p] == lines[..p] && once[p..] == [x] + lines[p..];
  }
}
