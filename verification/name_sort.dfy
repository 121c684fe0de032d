/**
 * Sorting feature declarations by name, shared by the feature-sorting
 * command and the feature-order linter: both copy the slice, sort the copy
 * by name with Go's string order, and compare the name sequences of the
 * original and the sorted copy to decide whether the order changed.
 *
 * The model is generic in the feature record; `name` selects its Name field.
 */
module NameSort {

  import opened Strs

  /** The names of the features, in order. */
  function Names<T>(fs: seq<T>, name: T -> string): seq<string>
  {
    seq(|fs|, i requires 0 <= i < |fs| => name(fs[i]))
  }

  /** Non-decreasing in Go's string order. */
  predicate Ordered(ns: seq<string>)
  {
    forall i, j | 0 <= i < j < |ns| :: LessEq(ns[i], ns[j])
  }

  /** Every name is at most its successor, between lo and hi. */
  ghost predicate AdjacentOrdered<T>(s: seq<T>, lo: int, hi: int, name: T -> string)
    requires 0 <= lo <= hi <= |s|
  {
    forall k | lo < k < hi :: LessEq(name(s[k - 1]), name(s[k]))
  }

  /**
   * sortFeatures: a copy of the features sorted by name; the input, a
   * value, is left as it is. Go's sort.Slice is not stable; this insertion
   * sort is, which is one of the orders sort.Slice may produce.
   */
  method SortByName<T>(features: seq<T>, name: T -> string) returns (sorted: seq<T>)
    ensures multiset(sorted) == multiset(features)
    ensures Ordered(Names(sorted, name))
  {
    var a := new T[|features|](i requires 0 <= i < |features| => features[i]);
    assert a[..] == features;
    for i := 0 to a.Length
      invariant AdjacentOrdered(a[..], 0, i, name)
      invariant multiset(a[..]) == multiset(features)
    {
      SinkLast(a, i, name);
    }
    sorted := a[..];
    AdjacentOrderedNames(sorted, name);
  }

  /** One insertion step: a[i] is swapped down until the names a[..i + 1] are in order. */
  method SinkLast<T>(a: array<T>, i: int, name: T -> string)
    requires 0 <= i < a.Length
    requires AdjacentOrdered(a[..], 0, i, name)
    modifies a
    ensures AdjacentOrdered(a[..], 0, i + 1, name)
    ensures multiset(a[..]) == old(multiset(a[..]))
    ensures a[i + 1..] == old(a[i + 1..])
  {
    var j := i;
    while j > 0 && Less(name(a[j]), name(a[j - 1]))
      invariant Sinking(a[..], i, j, name)
      invariant multiset(a[..]) == old(multiset(a[..]))
      invariant a[i + 1..] == old(a[i + 1..])
    {
      ghost var before := a[..];
      SinkStep(before, i, j, name);
      a[j - 1], a[j] := a[j], a[j - 1];
      assert a[..] == before[j - 1 := before[j]][j := before[j - 1]];
      SwapKeeps(before, i, j);
      j := j - 1;
    }
    SinkDone(a[..], i, j, name);
  }

  /**
   * The invariant of the insertion step: the element sinking from i is at
   * j; the names are ordered before j and from j to i, and the neighbours
   * of j are ordered across it.
   */
  ghost predicate Sinking<T>(s: seq<T>, i: int, j: int, name: T -> string)
  {
    && 0 <= j <= i < |s|
    && AdjacentOrdered(s, 0, j, name)
    && AdjacentOrdered(s, j, i + 1, name)
    && (0 < j < i ==> LessEq(name(s[j - 1]), name(s[j + 1])))
  }

  /** Swapping the sinking element below a greater neighbour keeps the invariant one place lower. */
  lemma SinkStep<T>(s: seq<T>, i: int, j: int, name: T -> string)
    requires Sinking(s, i, j, name) && j > 0 && Less(name(s[j]), name(s[j - 1]))
    ensures Sinking(s[j - 1 := s[j]][j := s[j - 1]], i, j - 1, name)
  {
    LessAsymmetric(name(s[j]), name(s[j - 1]));
  }

  /** Swapping j - 1 and j keeps the elements and everything after i. */
  lemma SwapKeeps<T>(s: seq<T>, i: int, j: int)
    requires 0 < j <= i < |s|
    ensures multiset(s[j - 1 := s[j]][j := s[j - 1]]) == multiset(s)
    ensures s[j - 1 := s[j]][j := s[j - 1]][i + 1..] == s[i + 1..]
  {
  }

  /** Once the sinking element stops, the names up to i are ordered. */
  lemma SinkDone<T>(s: seq<T>, i: int, j: int, name: T -> string)
    requires Sinking(s, i, j, name) && (j == 0 || !Less(name(s[j]), name(s[j - 1])))
    ensures AdjacentOrdered(s, 0, i + 1, name)
  {
  }

  lemma AdjacentOrderedNames<T>(s: seq<T>, name: T -> string)
    requires AdjacentOrdered(s, 0, |s|, name)
    ensures Ordered(Names(s, name))
  {
    var ns := Names(s, name);
    forall i, j | 0 <= i < j < |ns|
      ensures LessEq(ns[i], ns[j])
    {
      AdjacentChain(s, name, i, j);
    }
  }

  lemma {:induction false} AdjacentChain<T>(s: seq<T>, name: T -> string, i: int, j: int)
    requires AdjacentOrdered(s, 0, |s|, name)
    requires 0 <= i <= j < |s|
    ensures LessEq(name(s[i]), name(s[j]))
    decreases j - i
  {
    if i == j {
      LessIrreflexive(name(s[i]));
    } else {
      AdjacentChain(s, name, i, j - 1);
      LessEqTransitive(name(s[i]), name(s[j - 1]), name(s[j]));
    }
  }

  /**
   * hasOrderChanged: a loop over the positions that stops at the first
   * differing name; a difference in length is a change.
   */
  method HasOrderChanged<T>(original: seq<T>, sorted: seq<T>, name: T -> string) returns (changed: bool)
    ensures changed <==> Names(original, name) != Names(sorted, name)
  {
    if |original| != |sorted| {
      return true;
    }
    var i := 0;
    while i < |original|
      invariant 0 <= i <= |original|
      invariant forall k | 0 <= k < i :: name(original[k]) == name(sorted[k])
    {
      if name(original[i]) != name(sorted[i]) {
        assert Names(original, name)[i] != Names(sorted, name)[i];
        return true;
      }
      i := i + 1;
    }
    assert Names(original, name) == Names(sorted, name);
    return false;
  }

  lemma NamesConcat<T>(s: seq<T>, t: seq<T>, name: T -> string)
    ensures Names(s + t, name) == Names(s, name) + Names(t, name)
  {
  }

  /** Permuting the features permutes their names. */
  lemma {:induction false} PermutedNames<T>(a: seq<T>, b: seq<T>, name: T -> string)
    requires multiset(a) == multiset(b)
    ensures multiset(Names(a, name)) == multiset(Names(b, name))
    decreases |a|
  {
    if |a| == 0 {
      assert |b| == |multiset(b)| == 0;
    } else {
      var x := a[0];
      assert x in multiset(b);
      var k :| 0 <= k < |b| && b[k] == x;
      var rest := b[..k] + b[k + 1..];
      assert b == b[..k] + [x] + b[k + 1..];
      assert a == [x] + a[1..];
      assert multiset(b) == multiset(b[..k]) + multiset{x} + multiset(b[k + 1..]);
      assert multiset(a) == multiset{x} + multiset(a[1..]);
      assert multiset(rest) == multiset(b[..k]) + multiset(b[k + 1..]);
      assert multiset(rest) == multiset(b) - multiset{x};
      assert multiset(a[1..]) == multiset(a) - multiset{x};
      PermutedNames(a[1..], rest, name);
      NamesConcat([x], a[1..], name);
      NamesConcat(b[..k], b[k + 1..], name);
      NamesConcat(b[..k] + [x], b[k + 1..], name);
      NamesConcat(b[..k], [x], name);
    }
  }

  /** Two ordered name sequences with the same names are equal. */
  lemma {:induction false} OrderedPermutationsEqual(ns: seq<string>, ms: seq<string>)
    requires multiset(ns) == multiset(ms)
    requires Ordered(ns) && Ordered(ms)
    ensures ns == ms
    decreases |ns|
  {
    assert |ms| == |multiset(ms)| == |ns|;
    if |ns| > 0 {
      OrderedHeadsEqual(ns, ms);
      assert ns == [ns[0]] + ns[1..] && ms == [ms[0]] + ms[1..];
      assert multiset(ns[1..]) == multiset(ns) - multiset{ns[0]};
      assert multiset(ms[1..]) == multiset(ms) - multiset{ms[0]};
      OrderedPermutationsEqual(ns[1..], ms[1..]);
    }
  }

  /** Both ordered sequences start with the least name. */
  lemma OrderedHeadsEqual(ns: seq<string>, ms: seq<string>)
    requires multiset(ns) == multiset(ms)
    requires Ordered(ns) && Ordered(ms)
    requires |ns| > 0
    ensures |ms| > 0 && ns[0] == ms[0]
  {
    assert ns[0] in multiset(ms);
    var k :| 0 <= k < |ms| && ms[k] == ns[0];
    assert ms[0] in multiset(ns);
    var m :| 0 <= m < |ns| && ns[m] == ms[0];
    LessIrreflexive(ns[0]);
    LessIrreflexive(ms[0]);
    assert LessEq(ms[0], ns[0]) by {
      if k > 0 { assert LessEq(ms[0], ms[k]); }
    }
    assert LessEq(ns[0], ms[0]) by {
      if m > 0 { assert LessEq(ns[0], ns[m]); }
    }
    LessAntisymmetric(ns[0], ms[0]);
  }

  /**
   * Sorted copies of the same features have the same names, whatever order
   * the unstable sort left equal names in.
   */
  lemma SortedNamesUnique<T>(a: seq<T>, b: seq<T>, name: T -> string)
    requires multiset(a) == multiset(b)
    requires Ordered(Names(a, name)) && Ordered(Names(b, name))
    ensures Names(a, name) == Names(b, name)
  {
    PermutedNames(a, b, name);
    OrderedPermutationsEqual(Names(a, name), Names(b, name));
  }

  /**
   * The order changed, compared with any sorted permutation, exactly when
   * the names were not already non-decreasing.
   */
  lemma OrderUnchangedIffOrdered<T>(features: seq<T>, sorted: seq<T>, name: T -> string)
    requires multiset(sorted) == multiset(features)
    requires Ordered(Names(sorted, name))
    ensures Names(features, name) == Names(sorted, name) <==> Ordered(Names(features, name))
  {
    if Ordered(Names(features, name)) {
      SortedNamesUnique(features, sorted, name);
    }
  }
}
