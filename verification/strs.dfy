/**
 * String helpers shared by the modelled Go and Python code: prefix and
 * suffix tests, substring search, splitting and joining on one separator
 * character, white-space trimming, and Go's string order by code point.
 *
 * Strings are sequences of Unicode scalar values. Go compares strings byte
 * by byte on their UTF-8 encoding; UTF-8 preserves code-point order, so
 * comparing code points one by one gives the same answer on valid UTF-8,
 * which is all a sequence of scalar values can encode.
 */
module Strs {

  import opened Wrappers

  predicate HasPrefix(s: string, p: string)
  {
    |p| <= |s| && s[..|p|] == p
  }

  predicate HasSuffix(s: string, p: string)
  {
    |p| <= |s| && s[|s| - |p|..] == p
  }

  /** strings.Contains: t occurs in s at some offset. */
  predicate Contains(s: string, t: string)
  {
    exists i | 0 <= i <= |s| - |t| :: OccursAt(s, t, i)
  }

  /** t occurs in s starting at offset i. */
  predicate OccursAt(s: string, t: string, i: nat)
  {
    i + |t| <= |s| && s[i..i + |t|] == t
  }

  /** unicode.IsSpace: the Latin-1 white space and Unicode's White_Space property. */
  predicate IsSpace(c: char)
  {
    c == ' ' || c == '\t' || c == '\n' || c == '\r' || c == '\U{B}' || c == '\U{C}'
    || c == '\U{85}' || c == '\U{A0}' || c == '\U{1680}'
    || ('\U{2000}' <= c <= '\U{200A}') || c == '\U{2028}' || c == '\U{2029}'
    || c == '\U{202F}' || c == '\U{205F}' || c == '\U{3000}'
  }

  /** Position of the first occurrence of c in s, if any. */
  function IndexOf(s: string, c: char): (r: Option<nat>)
    ensures r.None? <==> c !in s
    ensures r.Some? ==> r.value < |s| && s[r.value] == c && c !in s[..r.value]
  {
    if |s| == 0 then None
    else if s[0] == c then Some(0)
    else
      match IndexOf(s[1..], c)
      case None => None
      case Some(i) =>
        assert s[1..][..i] == s[1..i + 1];
        Some(i + 1)
  }

  /** strings.LastIndex with a one-character needle. */
  function LastIndexOf(s: string, c: char): (r: Option<nat>)
    ensures r.None? <==> c !in s
    ensures r.Some? ==> r.value < |s| && s[r.value] == c && c !in s[r.value + 1..]
  {
    if |s| == 0 then None
    else if s[|s| - 1] == c then Some(|s| - 1)
    else
      match LastIndexOf(s[..|s| - 1], c)
      case None => None
      case Some(i) =>
        assert s[i + 1..] == s[..|s| - 1][i + 1..] + [s[|s| - 1]];
        Some(i)
  }

  /** strings.Split(s, [sep]): the pieces between the separators. */
  function Split(s: string, sep: char): (parts: seq<string>)
    ensures |parts| >= 1
    ensures forall i | 0 <= i < |parts| :: sep !in parts[i]
    decreases |s|
  {
    match IndexOf(s, sep)
    case None => [s]
    case Some(i) => [s[..i]] + Split(s[i + 1..], sep)
  }

  /** strings.Join(parts, [sep]). */
  function Join(parts: seq<string>, sep: char): string
  {
    if |parts| == 0 then ""
    else if |parts| == 1 then parts[0]
    else parts[0] + [sep] + Join(parts[1..], sep)
  }

  /** Splitting and re-joining on the same separator gives the input back. */
  lemma {:induction false} JoinSplit(s: string, sep: char)
    ensures Join(Split(s, sep), sep) == s
    decreases |s|
  {
    match IndexOf(s, sep)
    case None =>
    case Some(i) =>
      var tail := Split(s[i + 1..], sep);
      assert Split(s, sep) == [s[..i]] + tail;
      assert ([s[..i]] + tail)[1..] == tail;
      JoinSplit(s[i + 1..], sep);
      assert s == s[..i] + [sep] + s[i + 1..];
  }

  /** Joining pieces free of the separator and splitting again gives the pieces back. */
  lemma {:induction false} SplitJoin(parts: seq<string>, sep: char)
    requires |parts| >= 1
    requires forall i | 0 <= i < |parts| :: sep !in parts[i]
    ensures Split(Join(parts, sep), sep) == parts
    decreases |parts|
  {
    if |parts| > 1 {
      var rest := Join(parts[1..], sep);
      var s := parts[0] + [sep] + rest;
      IndexOfFirst(parts[0], sep, rest);
      assert s[..|parts[0]|] == parts[0];
      assert s[|parts[0]| + 1..] == rest;
      SplitJoin(parts[1..], sep);
    }
  }

  lemma {:induction false} IndexOfFirst(p: string, sep: char, rest: string)
    requires sep !in p
    ensures IndexOf(p + [sep] + rest, sep) == Some(|p|)
    decreases |p|
  {
    var s := p + [sep] + rest;
    if |p| > 0 {
      assert s[0] == p[0];
      assert s[1..] == p[1..] + [sep] + rest;
      IndexOfFirst(p[1..], sep, rest);
    }
  }

  /** Every character of t is white space. */
  predicate AllSpace(t: string)
  {
    forall k | 0 <= k < |t| :: IsSpace(t[k])
  }

  /**
   * strings.TrimSpace: drop leading and trailing white space. The result
   * is the input with a white-space prefix and a white-space suffix taken
   * off, and it neither starts nor ends with white space, so it is empty
   * exactly when the input is all white space.
   */
  function TrimSpace(s: string): (r: string)
    ensures |r| <= |s|
    ensures r != "" ==> !IsSpace(r[0]) && !IsSpace(r[|r| - 1])
    ensures exists i, j | 0 <= i <= j <= |s| :: r == s[i..j] && AllSpace(s[..i]) && AllSpace(s[j..])
    ensures r == "" <==> AllSpace(s)
    decreases |s|
  {
    if |s| > 0 && IsSpace(s[0]) then
      var r := TrimSpace(s[1..]);
      TrimFrontStep(s, r);
      r
    else if |s| > 0 && IsSpace(s[|s| - 1]) then
      var r := TrimSpace(s[..|s| - 1]);
      TrimBackStep(s, s[..|s| - 1], r);
      r
    else
      TrimNothing(s);
      s
  }

  /** Trimming after a leading space: the space joins the dropped prefix. */
  lemma TrimFrontStep(s: string, r: string)
    requires |s| > 0 && IsSpace(s[0])
    requires exists i, j | 0 <= i <= j <= |s[1..]| :: r == s[1..][i..j] && AllSpace(s[1..][..i]) && AllSpace(s[1..][j..])
    requires r == "" <==> AllSpace(s[1..])
    ensures exists i, j | 0 <= i <= j <= |s| :: r == s[i..j] && AllSpace(s[..i]) && AllSpace(s[j..])
    ensures r == "" <==> AllSpace(s)
  {
    var i, j :| 0 <= i <= j <= |s[1..]| && r == s[1..][i..j] && AllSpace(s[1..][..i]) && AllSpace(s[1..][j..]);
    assert r == s[i + 1..j + 1];
    assert s[j + 1..] == s[1..][j..];
    assert s[..i + 1] == [s[0]] + s[1..][..i];
    assert s == [s[0]] + s[1..];
  }

  /** Trimming after a trailing space: the space joins the dropped suffix. */
  lemma TrimBackStep(s: string, init: string, r: string)
    requires |s| > 0 && IsSpace(s[|s| - 1]) && init == s[..|s| - 1]
    requires exists i, j | 0 <= i <= j <= |init| :: r == init[i..j] && AllSpace(init[..i]) && AllSpace(init[j..])
    requires r == "" <==> AllSpace(init)
    ensures exists i, j | 0 <= i <= j <= |s| :: r == s[i..j] && AllSpace(s[..i]) && AllSpace(s[j..])
    ensures r == "" <==> AllSpace(s)
  {
    var i, j :| 0 <= i <= j <= |init| && r == init[i..j] && AllSpace(init[..i]) && AllSpace(init[j..]);
    assert r == s[i..j];
    assert s[..i] == init[..i];
    assert s[j..] == init[j..] + [s[|s| - 1]];
    assert s == init + [s[|s| - 1]];
  }

  /** A string with no white space at either end is its own trim. */
  lemma TrimNothing(s: string)
    requires s != "" ==> !IsSpace(s[0]) && !IsSpace(s[|s| - 1])
    ensures exists i, j | 0 <= i <= j <= |s| :: s == s[i..j] && AllSpace(s[..i]) && AllSpace(s[j..])
    ensures s == "" <==> AllSpace(s)
  {
    assert s == s[0..|s|] && AllSpace(s[..0]) && AllSpace(s[|s|..]);
  }

  /** Go's string order `<`: lexicographic on code points, a proper prefix first. */
  predicate Less(a: string, b: string)
  {
    if |a| == 0 then |b| > 0
    else if |b| == 0 then false
    else if a[0] != b[0] then a[0] < b[0]
    else Less(a[1..], b[1..])
  }

  /** `a <= b` in Go's string order. */
  predicate LessEq(a: string, b: string)
  {
    !Less(b, a)
  }

  lemma {:induction false} LessIrreflexive(a: string)
    ensures !Less(a, a)
  {
    if |a| > 0 { LessIrreflexive(a[1..]); }
  }

  lemma {:induction false} LessTransitive(a: string, b: string, c: string)
    requires Less(a, b) && Less(b, c)
    ensures Less(a, c)
  {
    if |a| > 0 && |b| > 0 && |c| > 0 && a[0] == b[0] == c[0] {
      LessTransitive(a[1..], b[1..], c[1..]);
    }
  }

  lemma {:induction false} LessTotal(a: string, b: string)
    ensures a == b || Less(a, b) || Less(b, a)
  {
    if |a| > 0 && |b| > 0 && a[0] == b[0] {
      LessTotal(a[1..], b[1..]);
      if a[1..] == b[1..] {
        assert a == [a[0]] + a[1..] && b == [b[0]] + b[1..];
      }
    }
  }

  lemma LessAsymmetric(a: string, b: string)
    requires Less(a, b)
    ensures !Less(b, a)
  {
    if Less(b, a) {
      LessTransitive(a, b, a);
      LessIrreflexive(a);
    }
  }

  lemma LessEqTransitive(a: string, b: string, c: string)
    requires LessEq(a, b) && LessEq(b, c)
    ensures LessEq(a, c)
  {
    if Less(c, a) {
      LessTotal(a, b);
      LessTotal(b, c);
      if a == b {
      } else if b == c {
      } else {
        LessTransitive(c, a, b);
      }
    }
  }

  lemma LessAntisymmetric(a: string, b: string)
    requires LessEq(a, b) && LessEq(b, a)
    ensures a == b
  {
    LessTotal(a, b);
  }

  /** Every element of the sequence is in ascending Go string order. */
  predicate StrictlySorted(s: seq<string>)
  {
    forall i, j | 0 <= i < j < |s| :: Less(s[i], s[j])
  }

  /** The elements of a list. */
  function Elements(s: seq<string>): set<string>
  {
    set x | x in s
  }

  /** x inserted before the first element greater than it. */
  function InsertSorted(s: seq<string>, x: string): seq<string>
  {
    if |s| == 0 then [x]
    else if Less(x, s[0]) then [x] + s
    else [s[0]] + InsertSorted(s[1..], x)
  }

  /** Inserting a new element into a strictly sorted list keeps it strictly sorted and adds just that element. */
  lemma {:induction false} InsertSortedKeepsOrder(s: seq<string>, x: string)
    requires StrictlySorted(s) && x !in s
    ensures StrictlySorted(InsertSorted(s, x))
    ensures multiset(InsertSorted(s, x)) == multiset(s) + multiset{x}
  {
    if |s| == 0 {
    } else if Less(x, s[0]) {
      forall k | 0 < k < |s|
        ensures Less(x, s[k])
      {
        LessTransitive(x, s[0], s[k]);
      }
      ConsSorted(x, s);
    } else {
      LessTotal(x, s[0]);
      InsertSortedKeepsOrder(s[1..], x);
      var rest := InsertSorted(s[1..], x);
      assert s == [s[0]] + s[1..];
      forall k | 0 <= k < |rest|
        ensures Less(s[0], rest[k])
      {
        assert rest[k] in multiset(rest);
        if rest[k] != x {
          assert rest[k] in s[1..];
          var m :| 0 <= m < |s[1..]| && s[1..][m] == rest[k];
          assert s[m + 1] == rest[k];
        }
      }
      ConsSorted(s[0], rest);
    }
  }

  /** An element above every element of a strictly sorted list may be appended to it. */
  lemma SnocSorted(init: seq<string>, x: string)
    requires StrictlySorted(init)
    requires forall k | 0 <= k < |init| :: Less(init[k], x)
    ensures StrictlySorted(init + [x])
  {
    var s := init + [x];
    forall i, j | 0 <= i < j < |s|
      ensures Less(s[i], s[j])
    {
      assert s[i] == init[i];
      if j < |init| {
        assert s[j] == init[j];
      }
    }
  }

  /** A head below every element of a strictly sorted list keeps it strictly sorted. */
  lemma ConsSorted(h: string, rest: seq<string>)
    requires StrictlySorted(rest)
    requires forall k | 0 <= k < |rest| :: Less(h, rest[k])
    ensures StrictlySorted([h] + rest)
  {
    var s := [h] + rest;
    forall i, j | 0 <= i < j < |s|
      ensures Less(s[i], s[j])
    {
      if i == 0 {
        assert s[j] == rest[j - 1];
      } else {
        assert s[i] == rest[i - 1] && s[j] == rest[j - 1];
      }
    }
  }

  /** sort.Strings on the keys of a map, whatever order the keys were visited in. */
  method SortedKeys(keys: set<string>) returns (sorted: seq<string>)
    ensures StrictlySorted(sorted)
    ensures Elements(sorted) == keys
  {
    sorted := [];
    var rest := keys;
    while rest != {}
      invariant StrictlySorted(sorted)
      invariant Elements(sorted) == keys - rest
      invariant rest <= keys
      decreases |rest|
    {
      var x :| x in rest;
      InsertSortedElements(sorted, x);
      sorted := InsertSorted(sorted, x);
      rest := rest - {x};
    }
  }

  /** Inserting a new element into a strictly sorted list adds just that element. */
  lemma InsertSortedElements(s: seq<string>, x: string)
    requires StrictlySorted(s) && x !in s
    ensures StrictlySorted(InsertSorted(s, x))
    ensures Elements(InsertSorted(s, x)) == Elements(s) + {x}
  {
    InsertSortedKeepsOrder(s, x);
    var next := InsertSorted(s, x);
    assert forall y :: y in next <==> y in multiset(next);
    assert forall y :: y in s <==> y in multiset(s);
  }

  /** The head of a strictly sorted list is at most each of its elements. */
  lemma HeadIsLeast(s: seq<string>, x: string)
    requires StrictlySorted(s) && x in s
    ensures LessEq(s[0], x)
  {
    var k :| 0 <= k < |s| && s[k] == x;
    if k > 0 { LessAsymmetric(s[0], s[k]); } else { LessIrreflexive(s[0]); }
  }

  /** A list has no elements exactly when it is empty. */
  lemma ElementsEmpty(s: seq<string>)
    ensures Elements(s) == {} <==> s == []
  {
    if |s| > 0 {
      assert s[0] in Elements(s);
    }
  }

  /** Two strictly sorted lists with the same elements are the same list. */
  lemma {:induction false} SortedUnique(s: seq<string>, t: seq<string>)
    requires StrictlySorted(s) && StrictlySorted(t)
    requires Elements(s) == Elements(t)
    ensures s == t
    decreases |s|
  {
    if |s| > 0 {
      assert s[0] in Elements(t);
      assert |t| > 0;
      assert t[0] in Elements(s);
      HeadIsLeast(t, s[0]);
      HeadIsLeast(s, t[0]);
      LessAntisymmetric(s[0], t[0]);
      LessIrreflexive(s[0]);
      assert Elements(s[1..]) == Elements(t[1..]) by {
        forall y
          ensures y in s[1..] <==> y in t[1..]
        {
          if y in s[1..] {
            var k :| 0 <= k < |s[1..]| && s[1..][k] == y;
            assert Less(s[0], s[k + 1]);
            assert y in Elements(s);
          }
          if y in t[1..] {
            var k :| 0 <= k < |t[1..]| && t[1..][k] == y;
            assert Less(t[0], t[k + 1]);
            assert y in Elements(t);
          }
        }
      }
      SortedUnique(s[1..], t[1..]);
      assert s == [s[0]] + s[1..] && t == [t[0]] + t[1..];
    } else {
      ElementsEmpty(s);
      ElementsEmpty(t);
    }
  }

  /** Every finite set of strings has a strictly sorted listing. */
  lemma {:induction false} SortedExists(keys: set<string>)
    ensures exists s :: StrictlySorted(s) && Elements(s) == keys
    decreases |keys|
  {
    if keys == {} {
      assert StrictlySorted([]) && Elements([]) == keys;
    } else {
      var x :| x in keys;
      SortedExists(keys - {x});
      var s :| StrictlySorted(s) && Elements(s) == keys - {x};
      InsertSortedElements(s, x);
      assert StrictlySorted(InsertSorted(s, x)) && Elements(InsertSorted(s, x)) == keys;
    }
  }

  /** The strictly sorted listing of a set: the one list sort.Strings gives, whatever order it starts from. */
  ghost function SortedOf(keys: set<string>): (s: seq<string>)
    ensures StrictlySorted(s) && Elements(s) == keys
  {
    SortedExists(keys);
    var s :| StrictlySorted(s) && Elements(s) == keys;
    s
  }
}
