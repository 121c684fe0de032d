/**
 * The pure helpers of the dependency verifier: module strings, the parse of
 * `go mod graph` output into main modules and edges, the sorted set
 * difference of two module lists, the owner of a package path, the removal
 * of replace directives from go.mod, and the depth-first walk over the
 * module graph.
 */
module DependencyVerifier {

  import opened Wrappers
  import opened Strs

  /** A module name and its version; the version of a main module is empty. */
  datatype Module = Module(name: string, version: string)

  /** module.String: the name, then "@" and the version when there is one. */
  function ModuleString(m: Module): string
  {
    if |m.version| == 0 then m.name else m.name + "@" + m.version
  }

  /** parseModule: the text up to the first "@" is the name, the rest the version. */
  function ParseModule(s: string): (m: Module)
    ensures '@' !in m.name
    ensures '@' !in s ==> m == Module(s, "")
    ensures '@' in s ==> s == m.name + "@" + m.version
  {
    match IndexOf(s, '@')
    case None => Module(s, "")
    case Some(i) =>
      assert s == s[..i] + "@" + s[i + 1..];
      Module(s[..i], s[i + 1..])
  }

  /** Printing a parsed module gives the text back unless the text ends in its first "@". */
  lemma ParseThenString(s: string)
    requires IndexOf(s, '@').None? || IndexOf(s, '@').value < |s| - 1
    ensures ModuleString(ParseModule(s)) == s
  {
  }

  /** Parsing a printed module gives the module back when its name has no "@". */
  lemma StringThenParse(m: Module)
    requires '@' !in m.name
    ensures ParseModule(ModuleString(m)) == m
  {
    if |m.version| > 0 {
      IndexOfFirst(m.name, '@', m.version);
      assert m.name + "@" + m.version == m.name + ['@'] + m.version;
    }
  }

  /** A trailing "@" is dropped: the round trip needs a non-empty version. */
  lemma TrailingAtDropped(name: string)
    requires '@' !in name
    ensures ParseModule(name + "@") == Module(name, "")
    ensures ModuleString(ParseModule(name + "@")) == name
  {
    IndexOfFirst(name, '@', "");
    assert name + "@" == name + ['@'] + "";
  }

  // ---------------------------------------------------------------------
  // moduleInSlice
  // ---------------------------------------------------------------------

  /** The names of the modules of a list. */
  function NamesOf(list: seq<Module>): set<string>
  {
    set i | 0 <= i < |list| :: list[i].name
  }

  /** moduleInSlice: an identical module, or, when versions do not matter, one with the same name. */
  method ModuleInSlice(a: Module, list: seq<Module>, matchVersion: bool) returns (found: bool)
    ensures found <==> exists i | 0 <= i < |list| :: list[i] == a || (!matchVersion && list[i].name == a.name)
  {
    var i := 0;
    while i < |list|
      invariant 0 <= i <= |list|
      invariant forall k | 0 <= k < i :: list[k] != a && (matchVersion || list[k].name != a.name)
    {
      var b := list[i];
      if b == a {
        return true;
      }
      if !matchVersion && b.name == a.name {
        return true;
      }
      i := i + 1;
    }
    return false;
  }

  /** Without version matching, a module is in a list exactly when its name is. */
  lemma ListedByName(a: Module, list: seq<Module>)
    ensures (exists i | 0 <= i < |list| :: list[i] == a || list[i].name == a.name) <==> a.name in NamesOf(list)
  {
    if a.name in NamesOf(list) {
      var i :| 0 <= i < |list| && list[i].name == a.name;
    }
  }

  // ---------------------------------------------------------------------
  // convertToMap
  // ---------------------------------------------------------------------

  /** A main module has no version, or the placeholder v0.0.0. */
  predicate IsMainVersion(v: string)
  {
    v == "" || v == "v0.0.0"
  }

  /** A line convertToMap uses: non-empty, with exactly two space-separated fields. */
  predicate IsEdgeLine(line: string)
  {
    |line| > 0 && |Split(line, ' ')| == 2
  }

  function EdgeFrom(line: string): Module
    requires IsEdgeLine(line)
  {
    ParseModule(Split(line, ' ')[0])
  }

  function EdgeTo(line: string): Module
    requires IsEdgeLine(line)
  {
    ParseModule(Split(line, ' ')[1])
  }

  /** The edges recorded for a module; a missing key reads as no edges. */
  function EdgesOf(graph: map<Module, seq<Module>>, m: Module): seq<Module>
  {
    if m in graph then graph[m] else []
  }

  /** The main modules and the edges convertToMap builds from these lines. */
  datatype ModGraph = ModGraph(mains: seq<Module>, edges: map<Module, seq<Module>>)

  /** convertToMap, one line at a time. */
  function Converted(lines: seq<string>): ModGraph
  {
    if |lines| == 0 then ModGraph([], map[])
    else
      var g := Converted(lines[..|lines| - 1]);
      var line := lines[|lines| - 1];
      if !IsEdgeLine(line) then g
      else
        var first := EdgeFrom(line);
        var second := EdgeTo(line);
        var mains := if IsMainVersion(first.version) && first !in g.mains then g.mains + [first] else g.mains;
        ModGraph(mains, g.edges[first := EdgesOf(g.edges, first) + [second]])
  }

  /** convertToMap on the output of `go mod graph`. */
  method ConvertToMap(modStr: string) returns (mainModulesList: seq<Module>, modMap: map<Module, seq<Module>>)
    ensures ModGraph(mainModulesList, modMap) == Converted(Split(modStr, '\n'))
  {
    var lines := Split(modStr, '\n');
    mainModulesList := [];
    modMap := map[];
    var i := 0;
    while i < |lines|
      invariant 0 <= i <= |lines|
      invariant ModGraph(mainModulesList, modMap) == Converted(lines[..i])
    {
      assert lines[..i + 1][..i] == lines[..i];
      var line := lines[i];
      if |line| > 0 {
        var deps := Split(line, ' ');
        if |deps| == 2 {
          var first := ParseModule(deps[0]);
          var second := ParseModule(deps[1]);
          if first.version == "" || first.version == "v0.0.0" {
            if first !in mainModulesList {
              mainModulesList := mainModulesList + [first];
            }
          }
          modMap := modMap[first := EdgesOf(modMap, first) + [second]];
        }
      }
      i := i + 1;
    }
    assert lines[..|lines|] == lines;
  }

  /** The targets of the edge lines leaving m, in input order. */
  function TargetsOf(lines: seq<string>, m: Module): seq<Module>
  {
    if |lines| == 0 then []
    else
      var line := lines[|lines| - 1];
      TargetsOf(lines[..|lines| - 1], m) + (if IsEdgeLine(line) && EdgeFrom(line) == m then [EdgeTo(line)] else [])
  }

  /** Some edge line leaves m. */
  predicate HasEdgeFrom(lines: seq<string>, m: Module)
  {
    exists i | 0 <= i < |lines| :: IsEdgeLine(lines[i]) && EdgeFrom(lines[i]) == m
  }

  /**
   * The edges of each module are the targets of its edge lines in input
   * order, and exactly the modules with an edge line are keys.
   */
  lemma {:induction false} ConvertedEdges(lines: seq<string>, m: Module)
    ensures EdgesOf(Converted(lines).edges, m) == TargetsOf(lines, m)
    ensures m in Converted(lines).edges <==> HasEdgeFrom(lines, m)
  {
    if |lines| > 0 {
      var init := lines[..|lines| - 1];
      ConvertedEdges(init, m);
      assert forall i | 0 <= i < |init| :: init[i] == lines[i];
      if HasEdgeFrom(lines, m) && !HasEdgeFrom(init, m) {
        var i :| 0 <= i < |lines| && IsEdgeLine(lines[i]) && EdgeFrom(lines[i]) == m;
        assert i == |lines| - 1;
      }
    }
  }

  /** Each main module is listed once. */
  lemma {:induction false} MainsDistinct(lines: seq<string>)
    ensures forall i, j | 0 <= i < j < |Converted(lines).mains| :: Converted(lines).mains[i] != Converted(lines).mains[j]
  {
    if |lines| > 0 {
      var init := lines[..|lines| - 1];
      MainsDistinct(init);
      var mains := Converted(lines).mains;
      var old_mains := Converted(init).mains;
      assert mains == old_mains || (|mains| == |old_mains| + 1 && mains[..|old_mains|] == old_mains && mains[|old_mains|] !in old_mains);
      forall i, j | 0 <= i < j < |mains|
        ensures mains[i] != mains[j]
      {
        assert mains[i] == old_mains[i];
        if j < |old_mains| {
          assert mains[j] == old_mains[j];
        }
      }
    }
  }

  /** Each main module has a main version and an edge line leaving it. */
  lemma {:induction false} MainsAreSources(lines: seq<string>)
    ensures forall i | 0 <= i < |Converted(lines).mains| ::
      IsMainVersion(Converted(lines).mains[i].version) && HasEdgeFrom(lines, Converted(lines).mains[i])
  {
    if |lines| > 0 {
      var init := lines[..|lines| - 1];
      MainsAreSources(init);
      var mains := Converted(lines).mains;
      var old_mains := Converted(init).mains;
      assert mains == old_mains || (|mains| == |old_mains| + 1 && mains[..|old_mains|] == old_mains);
      forall i | 0 <= i < |mains|
        ensures IsMainVersion(mains[i].version) && HasEdgeFrom(lines, mains[i])
      {
        if i < |old_mains| {
          assert mains[i] == old_mains[i];
          assert HasEdgeFrom(init, old_mains[i]);
          var k :| 0 <= k < |init| && IsEdgeLine(init[k]) && EdgeFrom(init[k]) == mains[i];
          assert lines[k] == init[k];
        } else {
          assert IsEdgeLine(lines[|lines| - 1]) && EdgeFrom(lines[|lines| - 1]) == mains[i];
        }
      }
    }
  }

  /** Every module with a main version that has an edge line is a main module. */
  lemma {:induction false} SourcesAreMains(lines: seq<string>)
    ensures forall i | 0 <= i < |lines| && IsEdgeLine(lines[i]) && IsMainVersion(EdgeFrom(lines[i]).version) ::
      EdgeFrom(lines[i]) in Converted(lines).mains
  {
    if |lines| > 0 {
      var init := lines[..|lines| - 1];
      SourcesAreMains(init);
      assert forall i | 0 <= i < |init| :: init[i] == lines[i];
    }
  }

  /** A main module, once listed, keeps its place: the list of fewer lines is a prefix. */
  lemma {:induction false} MainsOnlyGrow(lines: seq<string>, k: nat)
    requires k <= |lines|
    ensures var shorter := Converted(lines[..k]).mains;
      |shorter| <= |Converted(lines).mains| && Converted(lines).mains[..|shorter|] == shorter
    decreases |lines| - k
  {
    if k < |lines| {
      var init := lines[..|lines| - 1];
      assert init[..k] == lines[..k];
      MainsOnlyGrow(init, k);
    } else {
      assert lines[..k] == lines;
    }
  }

  // ---------------------------------------------------------------------
  // difference
  // ---------------------------------------------------------------------

  /**
   * The second list difference returns, as written: an element of b goes in
   * when it is not in a, or when it already occurred earlier in b (the
   * first occurrence removed it from the a-side set, so the second one no
   * longer finds it there).
   */
  function AddedAsWritten(a: seq<string>, b: seq<string>): set<string>
  {
    set j | 0 <= j < |b| && (b[j] !in a || b[j] in b[..j]) :: b[j]
  }

  lemma AddedStep(a: seq<string>, b: seq<string>, i: nat)
    requires i < |b|
    ensures AddedAsWritten(a, b[..i + 1])
      == AddedAsWritten(a, b[..i]) + (if b[i] !in a || b[i] in b[..i] then {b[i]} else {})
  {
    var p := b[..i + 1];
    assert p[..i] == b[..i];
    assert forall j | 0 <= j < i :: p[j] == b[j] && p[..j] == b[..j];
    assert p[i] == b[i] && p[..i] == b[..i];
  }

  /**
   * difference as written: a - b from a set that loses each element of b
   * found in it, and b - a from the elements of b not found in that set,
   * both sorted.
   */
  method Difference(a: seq<string>, b: seq<string>) returns (aMinusBList: seq<string>, bMinusAList: seq<string>)
    ensures StrictlySorted(aMinusBList) && StrictlySorted(bMinusAList)
    ensures Elements(aMinusBList) == Elements(a) - Elements(b)
    ensures Elements(bMinusAList) == AddedAsWritten(a, b)
  {
    var aMinusB: set<string> := {};
    var bMinusA: set<string> := {};
    var i := 0;
    while i < |a|
      invariant 0 <= i <= |a|
      invariant aMinusB == Elements(a[..i])
    {
      assert Elements(a[..i + 1]) == Elements(a[..i]) + {a[i]} by {
        assert a[..i + 1] == a[..i] + [a[i]];
      }
      aMinusB := aMinusB + {a[i]};
      i := i + 1;
    }
    assert a[..|a|] == a;
    i := 0;
    while i < |b|
      invariant 0 <= i <= |b|
      invariant aMinusB == Elements(a) - Elements(b[..i])
      invariant bMinusA == AddedAsWritten(a, b[..i])
    {
      var dependency := b[i];
      AddedStep(a, b, i);
      assert Elements(b[..i + 1]) == Elements(b[..i]) + {dependency} by {
        assert b[..i + 1] == b[..i] + [dependency];
      }
      if dependency in aMinusB {
        aMinusB := aMinusB - {dependency};
      } else {
        bMinusA := bMinusA + {dependency};
      }
      i := i + 1;
    }
    assert b[..|b|] == b;
    aMinusBList := SortedKeys(aMinusB);
    bMinusAList := SortedKeys(bMinusA);
  }

  /** Without repeated elements in b, the second list is b - a. */
  lemma AddedWithoutRepeats(a: seq<string>, b: seq<string>)
    requires forall j, k | 0 <= j < k < |b| :: b[j] != b[k]
    ensures AddedAsWritten(a, b) == Elements(b) - Elements(a)
  {
    forall j | 0 <= j < |b|
      ensures b[j] !in b[..j]
    {
      assert forall k | 0 <= k < j :: b[..j][k] == b[k] != b[j];
    }
  }

  /** A list without repeats differs from itself in nothing. */
  lemma SelfDifferenceAsWritten(x: seq<string>)
    requires forall j, k | 0 <= j < k < |x| :: x[j] != x[k]
    ensures AddedAsWritten(x, x) == {}
    ensures Elements(x) - Elements(x) == {}
  {
    AddedWithoutRepeats(x, x);
  }

  /** A repeated element of b that is also in a is reported as only in b. */
  lemma RepeatedElementReported()
    ensures AddedAsWritten(["x"], ["x", "x"]) == {"x"}
    ensures Elements(["x", "x"]) - Elements(["x"]) == {}
  {
    var b := ["x", "x"];
    assert b[..1] == ["x"];
    assert b[1] in b[..1];
    assert "x" in Elements(["x"]);
  }

  /**
   * difference with b - a decided against the elements of a, not against
   * what is left of the a-side set.
   */
  method DifferenceCorrected(a: seq<string>, b: seq<string>) returns (aMinusBList: seq<string>, bMinusAList: seq<string>)
    ensures StrictlySorted(aMinusBList) && StrictlySorted(bMinusAList)
    ensures Elements(aMinusBList) == Elements(a) - Elements(b)
    ensures Elements(bMinusAList) == Elements(b) - Elements(a)
    ensures Elements(a) == Elements(b) ==> aMinusBList == [] && bMinusAList == []
  {
    var inA: set<string> := {};
    var i := 0;
    while i < |a|
      invariant 0 <= i <= |a|
      invariant inA == Elements(a[..i])
    {
      assert Elements(a[..i + 1]) == Elements(a[..i]) + {a[i]} by {
        assert a[..i + 1] == a[..i] + [a[i]];
      }
      inA := inA + {a[i]};
      i := i + 1;
    }
    assert a[..|a|] == a;
    var aMinusB := inA;
    var bMinusA: set<string> := {};
    i := 0;
    while i < |b|
      invariant 0 <= i <= |b|
      invariant aMinusB == Elements(a) - Elements(b[..i])
      invariant bMinusA == Elements(b[..i]) - Elements(a)
    {
      var dependency := b[i];
      assert Elements(b[..i + 1]) == Elements(b[..i]) + {dependency} by {
        assert b[..i + 1] == b[..i] + [dependency];
      }
      if dependency in inA {
        aMinusB := aMinusB - {dependency};
      } else {
        bMinusA := bMinusA + {dependency};
      }
      i := i + 1;
    }
    assert b[..|b|] == b;
    aMinusBList := SortedKeys(aMinusB);
    bMinusAList := SortedKeys(bMinusA);
    ElementsEmpty(aMinusBList);
    ElementsEmpty(bMinusAList);
  }

  // ---------------------------------------------------------------------
  // findModuleForPackage and isDirectImporter
  // ---------------------------------------------------------------------

  /** k is p, or the part of p before one of its "/" separators. */
  predicate IsPathPrefix(k: string, p: string)
  {
    k == p || (|k| < |p| && p[..|k|] == k && p[|k|] == '/')
  }

  /**
   * findModuleForPackage: the longest key of moduleVersions that is the
   * package path or ends at one of its "/" boundaries; "" when none is.
   */
  method FindModuleForPackage(pkgPath: string, moduleVersions: map<string, string>) returns (owner: string)
    ensures (exists k | k in moduleVersions :: IsPathPrefix(k, pkgPath)) ==>
      owner in moduleVersions && IsPathPrefix(owner, pkgPath)
      && forall k | k in moduleVersions && IsPathPrefix(k, pkgPath) :: |k| <= |owner|
    ensures (forall k | k in moduleVersions :: !IsPathPrefix(k, pkgPath)) ==> owner == ""
  {
    var path := pkgPath;
    while true
      invariant IsPathPrefix(path, pkgPath)
      invariant forall k | k in moduleVersions && IsPathPrefix(k, pkgPath) :: |k| <= |path|
      decreases |path|
    {
      if path in moduleVersions {
        return path;
      }
      var idx := LastIndexOf(path, '/');
      if idx.None? {
        break;
      }
      forall m | idx.value < m < |path|
        ensures path[m] != '/'
      {
        assert path[m] == path[idx.value + 1..][m - idx.value - 1];
      }
      forall k | k in moduleVersions && IsPathPrefix(k, pkgPath)
        ensures |k| <= idx.value
      {
        PathPrefixOfPrefix(k, path, pkgPath);
      }
      PathPrefixCut(path, pkgPath, idx.value);
      path := path[..idx.value];
    }
    forall k | k in moduleVersions
      ensures !IsPathPrefix(k, pkgPath)
    {
      PathPrefixOfPrefix(k, path, pkgPath);
      NoSeparatorPrefix(k, path);
    }
    return "";
  }

  /** A path without separators has itself as its only path prefix. */
  lemma NoSeparatorPrefix(k: string, path: string)
    requires '/' !in path
    ensures IsPathPrefix(k, path) ==> k == path
  {
    if |k| < |path| {
      assert path[|k|] in path;
    }
  }

  /** A path prefix of p no longer than a path prefix q of p is a path prefix of q. */
  lemma PathPrefixOfPrefix(k: string, q: string, p: string)
    ensures IsPathPrefix(k, p) && IsPathPrefix(q, p) && |k| <= |q| ==> IsPathPrefix(k, q)
  {
    if IsPathPrefix(k, p) && IsPathPrefix(q, p) && |k| < |q| {
      assert q[..|k|] == p[..|k|];
    }
  }

  /** Cutting a path prefix at one of its own separators gives a path prefix. */
  lemma PathPrefixCut(q: string, p: string, idx: nat)
    requires IsPathPrefix(q, p) && idx < |q| && q[idx] == '/'
    ensures IsPathPrefix(q[..idx], p)
  {
    assert p[..idx] == q[..idx];
    assert p[idx] == q[idx];
  }

  /**
   * isDirectImporter: a module missing from the import map imports
   * nothing; otherwise its entry for the unwanted module decides, a missing
   * entry reading as false.
   */
  function IsDirectImporter(moduleImports: map<string, map<string, bool>>, moduleName: string, unwantedModule: string): (r: bool)
    ensures moduleName !in moduleImports ==> !r
    ensures r <==> moduleName in moduleImports && unwantedModule in moduleImports[moduleName]
                   && moduleImports[moduleName][unwantedModule]
  {
    if moduleName !in moduleImports then false
    else
      var imports := moduleImports[moduleName];
      if unwantedModule in imports then imports[unwantedModule] else false
  }

  // ---------------------------------------------------------------------
  // Stripping replace directives from go.mod
  // ---------------------------------------------------------------------

  /** A trimmed line that opens a replace block. */
  predicate OpensReplaceBlock(trimmed: string)
  {
    HasPrefix(trimmed, "replace (") || HasPrefix(trimmed, "replace(")
  }

  /** A trimmed line holding a single replace directive. */
  predicate IsReplaceLine(trimmed: string)
  {
    HasPrefix(trimmed, "replace ")
  }

  /** A line that is neither part of nor the start of a replace directive, outside a block. */
  predicate IsPlainLine(line: string)
  {
    !OpensReplaceBlock(TrimSpace(line)) && !IsReplaceLine(TrimSpace(line))
  }

  /** The lines kept from these lines, starting inside a replace block or not. */
  function Stripped(lines: seq<string>, inBlock: bool): seq<string>
    decreases |lines|
  {
    if |lines| == 0 then []
    else
      var trimmed := TrimSpace(lines[0]);
      if OpensReplaceBlock(trimmed) then Stripped(lines[1..], true)
      else if inBlock then Stripped(lines[1..], trimmed != ")")
      else if IsReplaceLine(trimmed) then Stripped(lines[1..], false)
      else [lines[0]] + Stripped(lines[1..], false)
  }

  /** The go.mod text with its replace directives removed. */
  method StripReplaceDirectives(goModContent: string) returns (newContent: string)
    ensures newContent == Join(Stripped(Split(goModContent, '\n'), false), '\n')
  {
    var lines := Split(goModContent, '\n');
    var newLines: seq<string> := [];
    var inReplaceBlock := false;
    var i := 0;
    while i < |lines|
      invariant 0 <= i <= |lines|
      invariant newLines + Stripped(lines[i..], inReplaceBlock) == Stripped(lines, false)
    {
      var line := lines[i];
      var trimmed := TrimSpace(line);
      assert lines[i..][1..] == lines[i + 1..];
      if HasPrefix(trimmed, "replace (") || HasPrefix(trimmed, "replace(") {
        inReplaceBlock := true;
      } else if inReplaceBlock {
        if trimmed == ")" {
          inReplaceBlock := false;
        }
      } else if HasPrefix(trimmed, "replace ") {
      } else {
        newLines := newLines + [line];
      }
      i := i + 1;
    }
    assert lines[|lines|..] == [];
    assert Stripped(lines[|lines|..], inReplaceBlock) == [];
    assert newLines + [] == newLines;
    newContent := Join(newLines, '\n');
  }

  /** xs can be obtained from ys by dropping elements. */
  predicate IsSubsequence(xs: seq<string>, ys: seq<string>)
    decreases |ys|
  {
    if |ys| == 0 then |xs| == 0
    else (|xs| > 0 && xs[0] == ys[0] && IsSubsequence(xs[1..], ys[1..])) || IsSubsequence(xs, ys[1..])
  }

  /** The kept lines are lines of the file, in their order, and none of them is a replace directive. */
  lemma {:induction false} StrippedKeepsOrder(lines: seq<string>, inBlock: bool)
    ensures IsSubsequence(Stripped(lines, inBlock), lines)
    ensures forall i | 0 <= i < |Stripped(lines, inBlock)| :: IsPlainLine(Stripped(lines, inBlock)[i])
    decreases |lines|
  {
    if |lines| > 0 {
      var trimmed := TrimSpace(lines[0]);
      var next := if OpensReplaceBlock(trimmed) then true else if inBlock then trimmed != ")" else false;
      StrippedKeepsOrder(lines[1..], next);
      var rest := Stripped(lines[1..], next);
      if !OpensReplaceBlock(trimmed) && !inBlock && !IsReplaceLine(trimmed) {
        var out := [lines[0]] + rest;
        assert out[1..] == rest;
        assert forall i | 0 < i < |out| :: out[i] == rest[i - 1];
      }
    }
  }

  /** A file without replace directives keeps all its lines. */
  lemma {:induction false} StrippedPlainLines(lines: seq<string>)
    requires forall i | 0 <= i < |lines| :: IsPlainLine(lines[i])
    ensures Stripped(lines, false) == lines
    decreases |lines|
  {
    if |lines| > 0 {
      assert IsPlainLine(lines[0]);
      StrippedPlainLines(lines[1..]);
    }
  }

  /** Without replace directives, the go.mod text is written back unchanged. */
  lemma NoReplaceUnchanged(goModContent: string)
    requires forall i | 0 <= i < |Split(goModContent, '\n')| :: IsPlainLine(Split(goModContent, '\n')[i])
    ensures Join(Stripped(Split(goModContent, '\n'), false), '\n') == goModContent
  {
    StrippedPlainLines(Split(goModContent, '\n'));
    JoinSplit(goModContent, '\n');
  }

  /** A replace block is dropped through its closing ")", and what follows it is handled afresh. */
  lemma {:induction false} ReplaceBlockDropped(opening: string, body: seq<string>, closing: string, rest: seq<string>)
    requires OpensReplaceBlock(TrimSpace(opening)) && TrimSpace(closing) == ")"
    requires forall i | 0 <= i < |body| :: TrimSpace(body[i]) != ")"
    ensures Stripped([opening] + body + [closing] + rest, false) == Stripped(rest, false)
  {
    OpeningLines(opening, body, closing, rest);
    InsideBlock(body, closing, rest);
  }

  /** The opening line of a block, and the lines after it. */
  lemma OpeningLines(opening: string, body: seq<string>, closing: string, rest: seq<string>)
    ensures ([opening] + body + [closing] + rest)[0] == opening
    ensures ([opening] + body + [closing] + rest)[1..] == body + [closing] + rest
  {
  }

  lemma {:induction false} InsideBlock(body: seq<string>, closing: string, rest: seq<string>)
    requires TrimSpace(closing) == ")"
    requires forall i | 0 <= i < |body| :: TrimSpace(body[i]) != ")"
    ensures Stripped(body + [closing] + rest, true) == Stripped(rest, false)
    decreases |body|
  {
    BlockLines(body, closing, rest);
    if |body| == 0 {
      assert !OpensReplaceBlock(")");
    } else {
      InsideBlock(body[1..], closing, rest);
    }
  }

  /** The first line of body, closing line and rest, and the lines after it. */
  lemma BlockLines(body: seq<string>, closing: string, rest: seq<string>)
    ensures |body| == 0 ==> (body + [closing] + rest)[0] == closing && (body + [closing] + rest)[1..] == rest
    ensures |body| > 0 ==>
      (body + [closing] + rest)[0] == body[0] && (body + [closing] + rest)[1..] == body[1..] + [closing] + rest
  {
    if |body| == 0 {
      assert body + [closing] + rest == [closing] + rest;
    }
  }

  // ---------------------------------------------------------------------
  // visit / doVisit
  // ---------------------------------------------------------------------

  /** One call of the visitor: the module and the path that led to it. */
  datatype VisitCall = VisitCall(m: Module, via: seq<Module>)

  /** No name occurs twice on the path. */
  predicate DistinctNames(path: seq<Module>)
  {
    forall i, j | 0 <= i < j < |path| :: path[i].name != path[j].name
  }

  /** A visited module is not on its own path, and the path repeats no name. */
  predicate OffPath(c: VisitCall)
  {
    DistinctNames(c.via) && c.m.name !in NamesOf(c.via)
  }

  /** path starts with prefix. */
  predicate Extends(path: seq<Module>, prefix: seq<Module>)
  {
    |prefix| <= |path| && path[..|prefix|] == prefix
  }

  /** The effective version of a dependency, when one is recorded for its name. */
  function EffectiveVersion(to: Module, effectiveVersions: map<string, Module>): Module
  {
    if to.name in effectiveVersions then effectiveVersions[to.name] else to
  }

  /** The children of a module, each switched to its effective version. */
  function EffectiveChildren(from: Module, references: map<Module, seq<Module>>, effectiveVersions: map<string, Module>): seq<Module>
  {
    var children := EdgesOf(references, from);
    seq(|children|, i requires 0 <= i < |children| => EffectiveVersion(children[i], effectiveVersions))
  }

  /** Every name the walk can reach is in the universe. */
  predicate Closed(references: map<Module, seq<Module>>, effectiveVersions: map<string, Module>, universe: set<string>)
  {
    (forall k, i | k in references && 0 <= i < |references[k]| :: references[k][i].name in universe)
    && (forall n | n in effectiveVersions :: effectiveVersions[n].name in universe)
  }

  /** The names of the graph and of the starting module. */
  function Universe(main: Module, references: map<Module, seq<Module>>, effectiveVersions: map<string, Module>): (u: set<string>)
    ensures main.name in u && Closed(references, effectiveVersions, u)
  {
    (set k, i | k in references && 0 <= i < |references[k]| :: references[k][i].name)
      + (set n | n in effectiveVersions :: effectiveVersions[n].name)
      + {main.name}
  }

  lemma NamesOfAppend(via: seq<Module>, from: Module)
    ensures NamesOf(via + [from]) == NamesOf(via) + {from.name}
  {
    var path := via + [from];
    forall x | x in NamesOf(via)
      ensures x in NamesOf(path)
    {
      var i :| 0 <= i < |via| && via[i].name == x;
      assert path[i] == via[i];
    }
    assert path[|via|] == from;
  }

  /** Stepping to a module off the path keeps the path's names distinct and uses up one name of the universe. */
  lemma PathExtended(via: seq<Module>, from: Module, universe: set<string>)
    requires DistinctNames(via) && from.name !in NamesOf(via) && from.name in universe
    ensures DistinctNames(via + [from])
    ensures |universe - NamesOf(via + [from])| < |universe - NamesOf(via)|
  {
    var path := via + [from];
    NamesOfAppend(via, from);
    forall i | 0 <= i < |via|
      ensures path[i].name != from.name
    {
      assert via[i].name in NamesOf(via);
    }
    assert universe - NamesOf(path) == (universe - NamesOf(via)) - {from.name};
  }

  /** Calls that extend a record of old calls plus one keep both. */
  lemma PrefixKept(record: seq<VisitCall>, calls: seq<VisitCall>, oldCalls: seq<VisitCall>, c: VisitCall)
    requires record == oldCalls + [c] && |record| <= |calls| && calls[..|record|] == record
    ensures calls[..|oldCalls|] == oldCalls && calls[|oldCalls|] == c
  {
    assert calls[..|oldCalls|] == calls[..|record|][..|oldCalls|];
    assert calls[|oldCalls|] == calls[..|record|][|oldCalls|];
  }

  /** The modules the visitor has been called for. */
  function Called(calls: seq<VisitCall>): set<Module>
  {
    set j | 0 <= j < |calls| :: calls[j].m
  }

  /** Extending the calls keeps every module already called. */
  lemma CalledGrows(before: seq<VisitCall>, after: seq<VisitCall>)
    requires |before| <= |after| && after[..|before|] == before
    ensures Called(before) <= Called(after)
  {
    forall m | m in Called(before)
      ensures m in Called(after)
    {
      var j :| 0 <= j < |before| && before[j].m == m;
      assert after[j] == before[j];
    }
  }

  /** The modules a walk from main can meet: main and every effective child of a module with recorded edges. */
  function Nodes(main: Module, references: map<Module, seq<Module>>, effectiveVersions: map<string, Module>): set<Module>
  {
    {main} + set k, i | k in references && 0 <= i < |references[k]| :: EffectiveVersion(references[k][i], effectiveVersions)
  }

  /** No two modules of the set share a name. */
  predicate Identified(nodes: set<Module>)
  {
    forall x, y | x in nodes && y in nodes && x.name == y.name :: x == y
  }

  /** Every effective child of a module of the set is in the set. */
  predicate Enclosed(nodes: set<Module>, references: map<Module, seq<Module>>, effectiveVersions: map<string, Module>)
  {
    forall x, i | x in nodes && 0 <= i < |EffectiveChildren(x, references, effectiveVersions)| ::
      EffectiveChildren(x, references, effectiveVersions)[i] in nodes
  }

  /** The modules a walk from main can meet are closed under effective children. */
  lemma NodesEnclosed(main: Module, references: map<Module, seq<Module>>, effectiveVersions: map<string, Module>)
    ensures Enclosed(Nodes(main, references, effectiveVersions), references, effectiveVersions)
  {
    var nodes := Nodes(main, references, effectiveVersions);
    forall x, i | x in nodes && 0 <= i < |EffectiveChildren(x, references, effectiveVersions)|
      ensures EffectiveChildren(x, references, effectiveVersions)[i] in nodes
    {
      assert x in references;
      assert EffectiveChildren(x, references, effectiveVersions)[i] == EffectiveVersion(references[x][i], effectiveVersions);
    }
  }

  /**
   * Every effective child of a visited module is visited or on the stack:
   * the walk has left nothing behind below what it finished.
   */
  predicate ClosedBelow(visited: set<Module>, stack: seq<Module>, references: map<Module, seq<Module>>,
                        effectiveVersions: map<string, Module>)
  {
    forall x, i | x in visited && 0 <= i < |EffectiveChildren(x, references, effectiveVersions)| ::
      EffectiveChildren(x, references, effectiveVersions)[i] in visited
      || EffectiveChildren(x, references, effectiveVersions)[i] in stack
  }

  /** The facts a walk keeps about its visited modules when names identify modules. */
  predicate Complete(visited: set<Module>, calls: seq<VisitCall>, stack: seq<Module>, nodes: set<Module>,
                     references: map<Module, seq<Module>>, effectiveVersions: map<string, Module>)
  {
    Identified(nodes) ==> visited <= Called(calls) && ClosedBelow(visited, stack, references, effectiveVersions)
  }

  /** A child whose name is on the path, when names identify modules, is itself on the path. */
  lemma NameOnPathIsOnPath(to: Module, path: seq<Module>, nodes: set<Module>)
    requires Identified(nodes) && to in nodes && (forall k | 0 <= k < |path| :: path[k] in nodes)
    requires to.name in NamesOf(path)
    ensures to in path
  {
    var k :| 0 <= k < |path| && path[k].name == to.name;
    assert path[k] == to;
  }

  /** A chain of effective children. */
  predicate IsWalk(w: seq<Module>, references: map<Module, seq<Module>>, effectiveVersions: map<string, Module>)
  {
    forall k | 0 < k < |w| :: w[k] in EffectiveChildren(w[k - 1], references, effectiveVersions)
  }

  /** A set closed under effective children that holds a walk's start holds its end. */
  lemma {:induction false} ClosedHoldsWalk(visited: set<Module>, w: seq<Module>, references: map<Module, seq<Module>>,
                                           effectiveVersions: map<string, Module>)
    requires ClosedBelow(visited, [], references, effectiveVersions)
    requires |w| > 0 && w[0] in visited && IsWalk(w, references, effectiveVersions)
    ensures w[|w| - 1] in visited
    decreases |w|
  {
    if |w| > 1 {
      var init := w[..|w| - 1];
      assert IsWalk(init, references, effectiveVersions);
      ClosedHoldsWalk(visited, init, references, effectiveVersions);
      var children := EffectiveChildren(w[|w| - 2], references, effectiveVersions);
      assert w[|w| - 1] in children by {
        assert w[|w| - 1] in EffectiveChildren(w[|w| - 1 - 1], references, effectiveVersions);
      }
      var i :| 0 <= i < |children| && children[i] == w[|w| - 1];
    }
  }

  /** The effective children of from up to i whose names are off the path each have a call for them below the path. */
  predicate ChildrenCalled(calls: seq<VisitCall>, start: nat, path: seq<Module>, children: seq<Module>, upTo: nat)
  {
    forall i | 0 <= i < upTo && i < |children| && children[i].name !in NamesOf(path) ::
      exists j | start <= j < |calls| :: calls[j] == VisitCall(children[i], path)
  }

  /** Extending the calls keeps the calls already made for the children. */
  lemma ChildrenCalledGrows(before: seq<VisitCall>, after: seq<VisitCall>, start: nat, path: seq<Module>,
                            children: seq<Module>, upTo: nat)
    requires |before| <= |after| && after[..|before|] == before
    requires ChildrenCalled(before, start, path, children, upTo)
    ensures ChildrenCalled(after, start, path, children, upTo)
  {
    forall i | 0 <= i < upTo && i < |children| && children[i].name !in NamesOf(path)
      ensures exists j | start <= j < |after| :: after[j] == VisitCall(children[i], path)
    {
      var j :| start <= j < |before| && before[j] == VisitCall(children[i], path);
      assert after[j] == before[j];
    }
  }

  /**
   * The state of one walk: the modules whose dependencies have all been
   * walked, and the calls made to the visitor so far.
   */
  class Traversal {
    var visited: set<Module>
    var calls: seq<VisitCall>

    constructor ()
      ensures visited == {} && calls == []
    {
      visited := {};
      calls := [];
    }

    /**
     * doVisit: the visitor sees the module first; a module already
     * visited is not walked again; otherwise every effective child whose
     * name is off the path is walked, and the module is marked visited.
     */
    method DoVisit(from: Module, via: seq<Module>, references: map<Module, seq<Module>>,
                   effectiveVersions: map<string, Module>, ghost universe: set<string>, ghost nodes: set<Module>)
      requires from.name in universe && Closed(references, effectiveVersions, universe)
      requires DistinctNames(via) && from.name !in NamesOf(via)
      requires from in nodes && (forall k | 0 <= k < |via| :: via[k] in nodes) && Enclosed(nodes, references, effectiveVersions)
      requires Complete(visited, calls, via, nodes, references, effectiveVersions)
      modifies this
      decreases |universe - NamesOf(via)|, 0
      ensures |calls| > |old(calls)| && calls[..|old(calls)|] == old(calls)
      ensures calls[|old(calls)|] == VisitCall(from, via)
      ensures old(visited) <= visited && from in visited
      ensures from in old(visited) ==> calls == old(calls) + [VisitCall(from, via)] && visited == old(visited)
      ensures OffPath(calls[|old(calls)|])
      ensures WalkedBelow(calls, |old(calls)| + 1, via + [from], EffectiveChildren(from, references, effectiveVersions))
      ensures from !in old(visited) ==>
        ChildrenCalled(calls, |old(calls)| + 1, via + [from], EffectiveChildren(from, references, effectiveVersions),
                       |EffectiveChildren(from, references, effectiveVersions)|)
      ensures Complete(visited, calls, via, nodes, references, effectiveVersions)
    {
      calls := calls + [VisitCall(from, via)];
      CalledGrows(old(calls), calls);
      ghost var visitedFrom := calls;
      if from in visited {
        return;
      }
      var path := via + [from];
      PathExtended(via, from, universe);
      StackExtended(visited, calls, via, from, nodes, references, effectiveVersions);
      WalkChildren(from, path, references, effectiveVersions, universe, nodes);
      PrefixKept(visitedFrom, calls, old(calls), VisitCall(from, via));
      CalledGrows(visitedFrom, calls);
      FinishStep(visited, calls, via, from, nodes, references, effectiveVersions);
      visited := visited + {from};
    }

    /**
     * The loop of doVisit over the children of from, with from last on the
     * path: each child is switched to its effective version and walked
     * unless a module of that name is on the path.
     */
    method WalkChildren(from: Module, path: seq<Module>, references: map<Module, seq<Module>>,
                        effectiveVersions: map<string, Module>, ghost universe: set<string>, ghost nodes: set<Module>)
      requires Closed(references, effectiveVersions, universe)
      requires DistinctNames(path)
      requires from in nodes && (forall k | 0 <= k < |path| :: path[k] in nodes) && Enclosed(nodes, references, effectiveVersions)
      requires Complete(visited, calls, path, nodes, references, effectiveVersions)
      modifies this
      decreases |universe - NamesOf(path)|, 1
      ensures |calls| >= |old(calls)| && calls[..|old(calls)|] == old(calls)
      ensures old(visited) <= visited
      ensures WalkedBelow(calls, |old(calls)|, path, EffectiveChildren(from, references, effectiveVersions))
      ensures ChildrenCalled(calls, |old(calls)|, path, EffectiveChildren(from, references, effectiveVersions),
                             |EffectiveChildren(from, references, effectiveVersions)|)
      ensures Complete(visited, calls, path, nodes, references, effectiveVersions)
      ensures Identified(nodes) ==> ChildrenDone(visited, path, EffectiveChildren(from, references, effectiveVersions),
                                                 |EffectiveChildren(from, references, effectiveVersions)|)
    {
      var children := EdgesOf(references, from);
      ghost var effective := EffectiveChildren(from, references, effectiveVersions);
      for i := 0 to |children|
        invariant |calls| >= |old(calls)| && calls[..|old(calls)|] == old(calls)
        invariant old(visited) <= visited
        invariant WalkedBelow(calls, |old(calls)|, path, effective)
        invariant ChildrenCalled(calls, |old(calls)|, path, effective, i)
        invariant Complete(visited, calls, path, nodes, references, effectiveVersions)
        invariant Identified(nodes) ==> ChildrenDone(visited, path, effective, i)
      {
        var to := children[i];
        if to.name in effectiveVersions {
          to := effectiveVersions[to.name];
        }
        assert to == effective[i] && to in nodes;
        var onPath := ModuleInSlice(to, path, false);
        ListedByName(to, path);
        if !onPath {
          ghost var before := calls;
          ghost var visitedBefore := visited;
          DoVisit(to, path, references, effectiveVersions, universe, nodes);
          ChildWalkAppended(before, calls, |old(calls)|, path, to, effective);
          ChildrenCalledStep(before, calls, |old(calls)|, path, effective, i);
          if Identified(nodes) {
            ChildrenDoneStep(visitedBefore, visited, path, effective, i);
          }
        } else {
          if Identified(nodes) {
            NameOnPathIsOnPath(to, path, nodes);
            ChildrenDoneStep(visited, visited, path, effective, i);
          }
        }
      }
    }
  }

  /** Putting from on the stack keeps everything the walk has finished closed below the longer stack. */
  lemma StackExtended(visited: set<Module>, calls: seq<VisitCall>, via: seq<Module>, from: Module, nodes: set<Module>,
                      references: map<Module, seq<Module>>, effectiveVersions: map<string, Module>)
    requires Complete(visited, calls, via, nodes, references, effectiveVersions)
    ensures Complete(visited, calls, via + [from], nodes, references, effectiveVersions)
  {
    forall m | m in via
      ensures m in via + [from]
    {
    }
  }

  /**
   * Marking from visited once its children are visited or on the stack
   * keeps the walk closed below the stack without from.
   */
  lemma FinishStep(visited: set<Module>, calls: seq<VisitCall>, via: seq<Module>, from: Module, nodes: set<Module>,
                   references: map<Module, seq<Module>>, effectiveVersions: map<string, Module>)
    requires from in Called(calls)
    requires Complete(visited, calls, via + [from], nodes, references, effectiveVersions)
    requires Identified(nodes) ==> ChildrenDone(visited, via + [from], EffectiveChildren(from, references, effectiveVersions),
                                                |EffectiveChildren(from, references, effectiveVersions)|)
    ensures Complete(visited + {from}, calls, via, nodes, references, effectiveVersions)
  {
    if Identified(nodes) {
      var done := visited + {from};
      forall x, i | x in done && 0 <= i < |EffectiveChildren(x, references, effectiveVersions)|
        ensures EffectiveChildren(x, references, effectiveVersions)[i] in done
          || EffectiveChildren(x, references, effectiveVersions)[i] in via
      {
        var y := EffectiveChildren(x, references, effectiveVersions)[i];
        assert y in visited || y in via + [from];
        InAppended(via, from, y);
      }
    }
  }

  /** What is on via + [from] is on via or is from. */
  lemma InAppended(via: seq<Module>, from: Module, y: Module)
    ensures y in via + [from] <==> y in via || y == from
  {
    if y in via + [from] {
      var k :| 0 <= k < |via + [from]| && (via + [from])[k] == y;
      assert k < |via| ==> y == via[k];
    }
  }

  /** Every effective child of from up to i is visited or on the path. */
  predicate ChildrenDone(visited: set<Module>, path: seq<Module>, children: seq<Module>, upTo: nat)
  {
    forall i | 0 <= i < upTo && i < |children| :: children[i] in visited || children[i] in path
  }

  /** Child i visited or on the path, with more visited, gives one more done child. */
  lemma ChildrenDoneStep(before: set<Module>, after: set<Module>, path: seq<Module>, children: seq<Module>, i: nat)
    requires before <= after && i < |children|
    requires ChildrenDone(before, path, children, i) && (children[i] in after || children[i] in path)
    ensures ChildrenDone(after, path, children, i + 1)
  {
  }

  /** The walk of child i, starting with its call below the path, gives one more called child. */
  lemma ChildrenCalledStep(before: seq<VisitCall>, after: seq<VisitCall>, start: nat, path: seq<Module>,
                           children: seq<Module>, i: nat)
    requires start <= |before| < |after| && after[..|before|] == before && i < |children|
    requires after[|before|] == VisitCall(children[i], path)
    requires ChildrenCalled(before, start, path, children, i)
    ensures ChildrenCalled(after, start, path, children, i + 1)
  {
    ChildrenCalledGrows(before, after, start, path, children, i);
  }

  /**
   * The calls from start on are off their paths and below path, and those
   * directly below it are for the given children.
   */
  predicate WalkedBelow(calls: seq<VisitCall>, start: nat, path: seq<Module>, children: seq<Module>)
  {
    forall j | start <= j < |calls| ::
      OffPath(calls[j]) && Extends(calls[j].via, path) && (calls[j].via == path ==> calls[j].m in children)
  }

  /** The calls of a walk below child to keep the facts of the walk below path. */
  lemma ChildWalkAppended(before: seq<VisitCall>, after: seq<VisitCall>, start: nat, path: seq<Module>,
                          to: Module, children: seq<Module>)
    requires start <= |before| && |before| < |after| && after[..|before|] == before
    requires after[|before|] == VisitCall(to, path) && OffPath(after[|before|]) && to in children
    requires WalkedBelow(before, start, path, children)
    requires forall j | |before| < j < |after| :: OffPath(after[j]) && Extends(after[j].via, path + [to])
    ensures after[..start] == before[..start]
    ensures WalkedBelow(after, start, path, children)
  {
    assert after[..start] == after[..|before|][..start];
    forall j | start <= j < |after|
      ensures OffPath(after[j]) && Extends(after[j].via, path) && (after[j].via == path ==> after[j].m in children)
    {
      if j < |before| {
        assert after[j] == after[..|before|][j] == before[j];
      } else if j > |before| {
        assert Extends(after[j].via, path + [to]);
        assert after[j].via[..|path|] == (path + [to])[..|path|] == path;
        assert |after[j].via| > |path|;
      }
    }
  }

  /**
   * visit: a walk from the main module with an empty path. Every module
   * the visitor sees is off its own path, and every call after the first
   * comes through the main module.
   */
  method Visit(main: Module, references: map<Module, seq<Module>>, effectiveVersions: map<string, Module>)
    returns (calls: seq<VisitCall>)
    ensures |calls| >= 1 && calls[0] == VisitCall(main, [])
    ensures forall j | 0 <= j < |calls| :: OffPath(calls[j])
    ensures forall j | 0 < j < |calls| :: Extends(calls[j].via, [main])
    ensures forall j | 0 < j < |calls| && calls[j].via == [main] ::
      calls[j].m in EffectiveChildren(main, references, effectiveVersions)
    ensures ChildrenCalled(calls, 1, [main], EffectiveChildren(main, references, effectiveVersions),
                           |EffectiveChildren(main, references, effectiveVersions)|)
    ensures Identified(Nodes(main, references, effectiveVersions)) ==>
      forall w | |w| > 0 && w[0] == main && IsWalk(w, references, effectiveVersions) :: w[|w| - 1] in Called(calls)
  {
    var t := new Traversal();
    ghost var nodes := Nodes(main, references, effectiveVersions);
    NodesEnclosed(main, references, effectiveVersions);
    t.DoVisit(main, [], references, effectiveVersions, Universe(main, references, effectiveVersions), nodes);
    calls := t.calls;
    assert [] + [main] == [main];
    if Identified(nodes) {
      forall w | |w| > 0 && w[0] == main && IsWalk(w, references, effectiveVersions)
        ensures w[|w| - 1] in Called(calls)
      {
        ClosedHoldsWalk(t.visited, w, references, effectiveVersions);
      }
    }
  }
}
