/**
 * The feature-order linter: in the files it targets, every var or const
 * block with more than one spec and more than one extracted feature must
 * list its features in ascending order of name; a block that does not is
 * reported at the position of its declaration.
 */
module SortedFeatures {

  import opened Wrappers
  import opened Strs
  import opened GoAst
  import opened NameSort

  /** The files checked when the configuration names none. */
  const DefaultTargetFiles: seq<string> := [
    "pkg/features/kube_features.go",
    "staging/src/k8s.io/apiserver/pkg/features/kube_features.go",
    "staging/src/k8s.io/client-go/features/known_features.go",
    "staging/src/k8s.io/controller-manager/pkg/features/kube_features.go",
    "staging/src/k8s.io/apiextensions-apiserver/pkg/features/kube_features.go",
    "test/e2e/feature/feature.go",
    "test/e2e/environment/environment.go"
  ]

  datatype Config = Config(files: seq<string>, debug: bool)

  /** A feature: the first name of a value spec and its comments. */
  datatype Feature = Feature(name: string, comments: seq<string>)

  function FeatureName(f: Feature): string
  {
    f.name
  }

  /** A parsed file: its name, its top-level declarations and its comment groups. */
  datatype File = File(name: string, decls: seq<Decl>, comments: seq<CommentGroup>)

  // ---------------------------------------------------------------------
  // Target files
  // ---------------------------------------------------------------------

  /** The configured files when there are any, otherwise the default list. */
  function TargetFiles(config: Config): (ts: seq<string>)
    ensures |ts| > 0
    ensures |config.files| > 0 ==> ts == config.files
    ensures |config.files| == 0 ==> ts == DefaultTargetFiles
  {
    if |config.files| > 0 then config.files else DefaultTargetFiles
  }

  /** The path without its trailing slashes. */
  function TrimTrailingSlashes(p: string): (r: string)
    ensures |r| <= |p| && r == p[..|r|]
    ensures r != "" ==> r[|r| - 1] != '/'
    ensures forall i | |r| <= i < |p| :: p[i] == '/'
  {
    if |p| > 0 && p[|p| - 1] == '/' then TrimTrailingSlashes(p[..|p| - 1]) else p
  }

  /**
   * filepath.Base on a slash-separated path: the last element after
   * trailing slashes are removed; "." for the empty path and "/" for a path
   * of slashes only.
   */
  function Base(path: string): (b: string)
    ensures b != ""
    ensures b != "/" ==> '/' !in b
  {
    if path == "" then "."
    else
      var p := TrimTrailingSlashes(path);
      if p == "" then "/"
      else
        match LastIndexOf(p, '/')
        case None => p
        case Some(i) => p[i + 1..]
  }

  /** A non-empty path with no trailing slash ends with its base name. */
  lemma BaseIsSuffix(t: string)
    requires t != "" && t[|t| - 1] != '/'
    ensures HasSuffix(t, Base(t))
  {
    assert TrimTrailingSlashes(t) == t;
  }

  lemma HasSuffixTransitive(f: string, t: string, b: string)
    requires HasSuffix(f, t) && HasSuffix(t, b)
    ensures HasSuffix(f, b)
  {
    assert f[|f| - |b|..] == f[|f| - |t|..][|t| - |b|..];
  }

  /** The target test of run. */
  predicate MatchesTarget(filename: string, target: string)
  {
    HasSuffix(filename, target) || HasSuffix(filename, Base(target))
  }

  /** The loop of run that decides whether the file is a target. */
  method IsTargetFile(filename: string, config: Config) returns (isTarget: bool)
    ensures isTarget <==> exists t | t in TargetFiles(config) :: MatchesTarget(filename, t)
  {
    isTarget := MatchesAny(filename, TargetFiles(config));
  }

  /** Whether some target of the list matches the file, tried in order. */
  method MatchesAny(filename: string, targetFiles: seq<string>) returns (isTarget: bool)
    ensures isTarget <==> exists t | t in targetFiles :: MatchesTarget(filename, t)
  {
    for i := 0 to |targetFiles|
      invariant forall k | 0 <= k < i :: !MatchesTarget(filename, targetFiles[k])
    {
      if MatchesTarget(filename, targetFiles[i]) {
        return true;
      }
    }
    return false;
  }

  /**
   * For targets that are non-empty and do not end in a slash, the full-path
   * test adds nothing: a file is a target exactly when its name ends with
   * the base name of some target.
   */
  lemma TargetMatchIsBaseMatch(filename: string, targets: seq<string>)
    requires forall t | t in targets :: t != "" && t[|t| - 1] != '/'
    ensures (exists t | t in targets :: MatchesTarget(filename, t))
      <==> (exists t | t in targets :: HasSuffix(filename, Base(t)))
  {
    forall t | t in targets && HasSuffix(filename, t)
      ensures HasSuffix(filename, Base(t))
    {
      BaseIsSuffix(t);
      HasSuffixTransitive(filename, t, Base(t));
    }
  }

  /** Each default target is matched by a file of that path and by a file of the same base name. */
  lemma DefaultTargetsMatch()
    ensures MatchesTarget("pkg/features/kube_features.go", DefaultTargetFiles[0])
    ensures MatchesTarget("kube_features.go", DefaultTargetFiles[0])
  {
    var t := DefaultTargetFiles[0];
    var dir, name := "pkg/features", "kube_features.go";
    assert t == dir + "/" + name;
    BaseOfPath(dir, name);
  }

  /** The base name of a path is what follows its last slash. */
  lemma BaseOfPath(dir: string, name: string)
    requires name != "" && '/' !in name
    ensures Base(dir + "/" + name) == name
  {
    var p := dir + "/" + name;
    assert p[|p| - 1] == name[|name| - 1];
    assert TrimTrailingSlashes(p) == p;
    var r := LastIndexOf(p, '/');
    assert p[|dir|] == '/';
    assert forall j | |dir| < j < |p| :: p[j] == name[j - |dir| - 1];
    assert r.Some? && forall j | r.value < j < |p| :: p[j] != '/';
    assert p[r.value + 1..] == name;
  }

  // ---------------------------------------------------------------------
  // Feature extraction
  // ---------------------------------------------------------------------

  /** What extractFeatures returns for a list of specs. */
  function Extracted(specs: seq<Spec>, comments: seq<CommentGroup>): (fs: seq<Feature>)
    ensures |fs| <= |specs|
  {
    if |specs| == 0 then []
    else
      var s := specs[|specs| - 1];
      Extracted(specs[..|specs| - 1], comments)
        + (if IsNamedValueSpec(s) then [Feature(s.names[0], FeatureComments(s, comments))] else [])
  }

  /** extractFeatures: one feature per named value spec, in order. */
  method ExtractFeatures(decl: Decl, comments: seq<CommentGroup>) returns (features: seq<Feature>)
    requires decl.GenDecl?
    ensures features == Extracted(decl.specs, comments)
  {
    features := [];
    var i := 0;
    while i < |decl.specs|
      invariant 0 <= i <= |decl.specs|
      invariant features == Extracted(decl.specs[..i], comments)
    {
      assert decl.specs[..i + 1][..i] == decl.specs[..i];
      var spec := decl.specs[i];
      if spec.ValueSpec? && |spec.names| > 0 {
        var name := spec.names[0];
        var featureComments: seq<string>;
        if spec.doc.Some? {
          featureComments := spec.doc.value;
        } else {
          featureComments := AdjacentComments(comments, spec.pos);
        }
        features := features + [Feature(name, featureComments)];
      }
      i := i + 1;
    }
    assert decl.specs[..|decl.specs|] == decl.specs;
  }

  /**
   * Every extracted feature comes from a named value spec: its name is that
   * spec's first name and its comments are the doc comment when there is
   * one.
   */
  lemma {:induction false} ExtractedFromNamedSpecs(specs: seq<Spec>, comments: seq<CommentGroup>)
    ensures forall f | f in Extracted(specs, comments) ::
      exists s | s in specs :: IsNamedValueSpec(s) && f.name == s.names[0]
        && (s.doc.Some? ==> f.comments == s.doc.value)
  {
    if |specs| > 0 {
      var init := specs[..|specs| - 1];
      ExtractedFromNamedSpecs(init, comments);
      assert forall s | s in init :: s in specs;
    }
  }

  /** A block of named value specs only yields one feature per spec, in order. */
  lemma {:induction false} ExtractedAllNamed(specs: seq<Spec>, comments: seq<CommentGroup>)
    requires forall i | 0 <= i < |specs| :: IsNamedValueSpec(specs[i])
    ensures |Extracted(specs, comments)| == |specs|
    ensures forall i | 0 <= i < |specs| && IsNamedValueSpec(specs[i]) ::
      Extracted(specs, comments)[i].name == specs[i].names[0]
  {
    if |specs| > 0 {
      ExtractedAllNamed(specs[..|specs| - 1], comments);
    }
  }

  // ---------------------------------------------------------------------
  // The analysis
  // ---------------------------------------------------------------------

  /** The features of a declaration, for any declaration. */
  function FeaturesOf(d: Decl, comments: seq<CommentGroup>): seq<Feature>
  {
    if d.GenDecl? then Extracted(d.specs, comments) else []
  }

  /** A block run reports: a feature block of several features whose names are out of order. */
  predicate Reported(d: Decl, comments: seq<CommentGroup>)
  {
    IsFeatureBlock(d) && |FeaturesOf(d, comments)| > 1
    && !Ordered(Names(FeaturesOf(d, comments), FeatureName))
  }

  /** The positions of the reported blocks among the declarations, in order. */
  function ReportsIn(decls: seq<Decl>, comments: seq<CommentGroup>): (ps: seq<int>)
    ensures |ps| <= |decls|
  {
    if |decls| == 0 then []
    else
      var d := decls[|decls| - 1];
      ReportsIn(decls[..|decls| - 1], comments) + (if Reported(d, comments) then [d.pos] else [])
  }

  /** The positions of the reported blocks of every file, file by file. */
  function AllReports(files: seq<File>): seq<int>
  {
    if |files| == 0 then []
    else AllReports(files[..|files| - 1]) + ReportsIn(files[|files| - 1].decls, files[|files| - 1].comments)
  }

  /** The inner loop of run over the declarations of one file. */
  method CheckFile(file: File) returns (reports: seq<int>)
    ensures reports == ReportsIn(file.decls, file.comments)
  {
    reports := [];
    var i := 0;
    while i < |file.decls|
      invariant 0 <= i <= |file.decls|
      invariant reports == ReportsIn(file.decls[..i], file.comments)
    {
      assert file.decls[..i + 1][..i] == file.decls[..i];
      var decl := file.decls[i];
      i := i + 1;
      if !decl.GenDecl? || (decl.tok != Var && decl.tok != Const) || |decl.specs| <= 1 {
        continue;
      }
      var features := ExtractFeatures(decl, file.comments);
      if |features| <= 1 {
        continue;
      }
      var sortedFeatures := SortByName(features, FeatureName);
      var orderChanged := HasOrderChanged(features, sortedFeatures, FeatureName);
      OrderUnchangedIffOrdered(features, sortedFeatures, FeatureName);
      if orderChanged {
        reports := reports + [decl.pos];
      }
    }
    assert file.decls[..|file.decls|] == file.decls;
  }

  /**
   * run: nothing for an empty pass or when the first file is not a target;
   * otherwise every out-of-order block of every file is reported.
   */
  method Run(files: seq<File>, config: Config) returns (reports: seq<int>)
    ensures |files| == 0 ==> reports == []
    ensures |files| > 0 && !(exists t | t in TargetFiles(config) :: MatchesTarget(files[0].name, t)) ==> reports == []
    ensures |files| > 0 && (exists t | t in TargetFiles(config) :: MatchesTarget(files[0].name, t)) ==>
      reports == AllReports(files)
  {
    reports := [];
    if |files| == 0 {
      return;
    }
    var isTargetFile := IsTargetFile(files[0].name, config);
    if !isTargetFile {
      return;
    }
    var i := 0;
    while i < |files|
      invariant 0 <= i <= |files|
      invariant reports == AllReports(files[..i])
    {
      assert files[..i + 1][..i] == files[..i];
      var fileReports := CheckFile(files[i]);
      reports := reports + fileReports;
      i := i + 1;
    }
    assert files[..|files|] == files;
  }

  /** A block whose names are already in order is never reported, nor is any block of one feature. */
  lemma OrderedBlocksNotReported(d: Decl, comments: seq<CommentGroup>)
    requires Ordered(Names(FeaturesOf(d, comments), FeatureName)) || |FeaturesOf(d, comments)| <= 1
    ensures !Reported(d, comments)
  {
  }

  /** A reported block is a var or const block of at least two specs with two names out of order. */
  lemma ReportedHasInversion(d: Decl, comments: seq<CommentGroup>)
    requires Reported(d, comments)
    ensures d.GenDecl? && (d.tok == Var || d.tok == Const) && |d.specs| >= 2
    ensures var ns := Names(FeaturesOf(d, comments), FeatureName);
      exists i, j | 0 <= i < j < |ns| :: Less(ns[j], ns[i])
  {
  }
}
