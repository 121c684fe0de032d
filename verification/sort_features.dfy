/**
 * The feature-sorting command: every var or const block with more than one
 * spec is rewritten with its features in ascending order of name when the
 * order changed (or always, when forced). The rewrite replaces the text from
 * the start of the declaration's line to the end of the block by a freshly
 * laid out block: the keyword, " (", each feature's comments and line, and
 * a closing ")".
 *
 * Offsets are byte offsets into the file content (a position p of the
 * parser is at offset p - 1).
 */
module SortFeatures {

  import opened Wrappers
  import opened Strs
  import opened GoAst
  import opened NameSort

  /** A feature: its name, its comment lines and the text of its declaration line. */
  datatype Feature = Feature(name: string, comments: seq<string>, line: string)

  function FeatureName(f: Feature): string
  {
    f.name
  }

  /** tokenToString: the keyword of var and const, token.String for the rest. */
  function TokenToString(tok: Token): (s: string)
    ensures s != ""
  {
    match tok
    case Var => "var"
    case Const => "const"
    case _ => TokenString(tok)
  }

  /** The switch of tokenToString agrees with token.String on every declaration keyword. */
  lemma TokenToStringIsTokenString(tok: Token)
    ensures TokenToString(tok) == TokenString(tok)
    ensures tok == Var || tok == Const ==> TokenToString(tok) == (if tok == Var then "var" else "const")
  {
  }

  // ---------------------------------------------------------------------
  // Line starts
  // ---------------------------------------------------------------------

  /** The characters a line-start scan stops after: a newline, and a tab when asked. */
  predicate IsStop(c: char, stopAtTab: bool)
  {
    c == '\n' || (stopAtTab && c == '\t')
  }

  /** Where a backward scan from offset stops: just after the nearest stop character, or 0. */
  function LineStartOf(content: string, offset: nat, stopAtTab: bool): (ls: nat)
    requires offset <= |content|
    ensures ls <= offset
    decreases offset
  {
    if offset > 0 && !IsStop(content[offset - 1], stopAtTab) then LineStartOf(content, offset - 1, stopAtTab)
    else offset
  }

  /**
   * The scan stops at or before the offset, at 0 or right after a stop
   * character, and passes no stop character on its way.
   */
  lemma {:induction false} LineStartOfIsLineStart(content: string, offset: nat, stopAtTab: bool)
    requires offset <= |content|
    ensures LineStartOf(content, offset, stopAtTab) <= offset
    ensures var ls := LineStartOf(content, offset, stopAtTab);
      ls == 0 || IsStop(content[ls - 1], stopAtTab)
    ensures var ls := LineStartOf(content, offset, stopAtTab);
      forall k | ls <= k < offset :: !IsStop(content[k], stopAtTab)
    decreases offset
  {
    if offset > 0 && !IsStop(content[offset - 1], stopAtTab) {
      LineStartOfIsLineStart(content, offset - 1, stopAtTab);
    }
  }

  /** The scan reads nothing at or after its starting offset. */
  lemma {:induction false} LineStartOfPrefix(c: string, d: string, offset: nat, stopAtTab: bool)
    requires offset <= |c| && offset <= |d| && c[..offset] == d[..offset]
    ensures LineStartOf(c, offset, stopAtTab) == LineStartOf(d, offset, stopAtTab)
    decreases offset
  {
    if offset > 0 {
      assert c[offset - 1] == c[..offset][offset - 1] == d[offset - 1];
      assert c[..offset - 1] == c[..offset][..offset - 1];
      assert d[..offset - 1] == d[..offset][..offset - 1];
      LineStartOfPrefix(c, d, offset - 1, stopAtTab);
    }
  }

  /** The backward scans of extractFeatures (stopAtTab) and updateFile (newline only). */
  method ScanLineStart(content: string, offset: nat, stopAtTab: bool) returns (lineStart: nat)
    requires offset <= |content|
    ensures lineStart == LineStartOf(content, offset, stopAtTab)
  {
    lineStart := offset;
    while lineStart > 0 && content[lineStart - 1] != '\n' && (!stopAtTab || content[lineStart - 1] != '\t')
      invariant lineStart <= offset
      invariant LineStartOf(content, lineStart, stopAtTab) == LineStartOf(content, offset, stopAtTab)
    {
      lineStart := lineStart - 1;
    }
  }

  // ---------------------------------------------------------------------
  // Feature extraction
  // ---------------------------------------------------------------------

  /** A value spec whose offsets lie within the content. */
  predicate SpecInContent(s: Spec, content: string)
  {
    s.ValueSpec? ==> 0 <= Offset(s.pos) <= Offset(s.end) <= |content|
  }

  /** A general declaration whose own offsets lie within the content. */
  predicate DeclSpan(d: Decl, content: string)
  {
    d.GenDecl? && 0 <= Offset(d.pos) <= Offset(d.end) <= |content|
  }

  /** A general declaration whose offsets, and those of its specs, lie within the content. */
  predicate DeclInContent(d: Decl, content: string)
  {
    DeclSpan(d, content) && forall i | 0 <= i < |d.specs| :: SpecInContent(d.specs[i], content)
  }

  /** The declaration line of a spec: from the scanned line start to the end of the spec. */
  function SpecLine(s: Spec, content: string): string
    requires s.ValueSpec? && SpecInContent(s, content)
  {
    LineStartOfIsLineStart(content, Offset(s.pos), true);
    content[LineStartOf(content, Offset(s.pos), true)..Offset(s.end)]
  }

  /** What extractFeatures returns for a list of specs. */
  function Extracted(specs: seq<Spec>, comments: seq<CommentGroup>, content: string): (fs: seq<Feature>)
    requires forall i | 0 <= i < |specs| :: SpecInContent(specs[i], content)
    ensures |fs| <= |specs|
  {
    if |specs| == 0 then []
    else
      var s := specs[|specs| - 1];
      Extracted(specs[..|specs| - 1], comments, content)
        + (if IsNamedValueSpec(s) then [Feature(s.names[0], FeatureComments(s, comments), SpecLine(s, content))] else [])
  }

  /** extractFeatures: one feature per named value spec, each with its declaration line. */
  method ExtractFeatures(decl: Decl, comments: seq<CommentGroup>, content: string) returns (features: seq<Feature>)
    requires DeclInContent(decl, content)
    ensures features == Extracted(decl.specs, comments, content)
  {
    features := [];
    var i := 0;
    while i < |decl.specs|
      invariant 0 <= i <= |decl.specs|
      invariant features == Extracted(decl.specs[..i], comments, content)
    {
      assert decl.specs[..i + 1][..i] == decl.specs[..i];
      var spec := decl.specs[i];
      if spec.ValueSpec? && |spec.names| > 0 {
        var featureComments: seq<string>;
        if spec.doc.Some? {
          featureComments := spec.doc.value;
        } else {
          featureComments := AdjacentComments(comments, spec.pos);
        }
        LineStartOfIsLineStart(content, Offset(spec.pos), true);
        var lineStart := ScanLineStart(content, Offset(spec.pos), true);
        var line := content[lineStart..Offset(spec.end)];
        features := features + [Feature(spec.names[0], featureComments, line)];
      }
      i := i + 1;
    }
    assert decl.specs[..|decl.specs|] == decl.specs;
  }

  /** Every extracted line starts after a newline or tab, or at the start of the file, and ends where its spec ends. */
  lemma SpecLineBounds(s: Spec, content: string)
    requires s.ValueSpec? && SpecInContent(s, content)
    ensures var ls := LineStartOf(content, Offset(s.pos), true);
      ls <= Offset(s.pos) && (ls == 0 || content[ls - 1] == '\n' || content[ls - 1] == '\t')
      && SpecLine(s, content) == content[ls..Offset(s.end)]
  {
    LineStartOfIsLineStart(content, Offset(s.pos), true);
  }

  // ---------------------------------------------------------------------
  // The rewritten block
  // ---------------------------------------------------------------------

  /** Each comment on a line of its own, indented by a tab. */
  function CommentLines(cs: seq<string>): string
  {
    if |cs| == 0 then ""
    else CommentLines(cs[..|cs| - 1]) + "\t" + cs[|cs| - 1] + "\n"
  }

  /** One feature of the block: a newline, its comments, its indented line, and a newline unless it is the last. */
  function FeatureText(f: Feature, isLast: bool): string
  {
    "\n" + CommentLines(f.comments) + "\t" + f.line + (if isLast then "" else "\n")
  }

  /** The text of the first features of a list of n features. */
  function FeaturesText(fs: seq<Feature>, n: nat): string
  {
    if |fs| == 0 then ""
    else FeaturesText(fs[..|fs| - 1], n) + FeatureText(fs[|fs| - 1], |fs| == n)
  }

  /** The rewritten declaration: the keyword, " (", the features and "\n)". */
  function BlockText(tok: Token, fs: seq<Feature>): string
  {
    TokenToString(tok) + " (" + FeaturesText(fs, |fs|) + "\n)"
  }

  /** The content after updateFile: the text before the declaration's line, the block, the text after the block. */
  function Rewritten(content: string, decl: Decl, sorted: seq<Feature>): string
    requires DeclSpan(decl, content)
  {
    var ls := LineStartOf(content, Offset(decl.pos), false);
    LineStartOfIsLineStart(content, Offset(decl.pos), false);
    content[..ls] + BlockText(decl.tok, sorted) + content[Offset(decl.end)..]
  }

  /**
   * The rewrite keeps the text before the declaration's line and the text
   * after the block verbatim; the line start is at or before the
   * declaration and at the start of a line.
   */
  lemma RewriteKeepsOutside(content: string, decl: Decl, sorted: seq<Feature>)
    requires DeclSpan(decl, content)
    ensures var ls := LineStartOf(content, Offset(decl.pos), false);
      ls <= Offset(decl.pos) && (ls == 0 || content[ls - 1] == '\n')
      && '\n' !in content[ls..Offset(decl.pos)]
      && HasPrefix(Rewritten(content, decl, sorted), content[..ls])
      && HasSuffix(Rewritten(content, decl, sorted), content[Offset(decl.end)..])
  {
    var ls := LineStartOf(content, Offset(decl.pos), false);
    LineStartOfIsLineStart(content, Offset(decl.pos), false);
    var r := Rewritten(content, decl, sorted);
    assert r[..ls] == content[..ls];
    assert r[|r| - |content[Offset(decl.end)..]|..] == content[Offset(decl.end)..];
  }

  /** The block opens with the keyword and " (", and closes with a newline and ")". */
  lemma BlockTextShape(tok: Token, fs: seq<Feature>)
    ensures HasPrefix(BlockText(tok, fs), TokenToString(tok) + " (")
    ensures HasSuffix(BlockText(tok, fs), "\n)")
  {
    var b := BlockText(tok, fs);
    assert b[..|TokenToString(tok) + " ("|] == TokenToString(tok) + " (";
    assert b[|b| - 2..] == "\n)";
  }

  /** Each feature of a block is laid out as a separate feature of the text, in order. */
  lemma {:induction false} FeaturesTextSplit(fs: seq<Feature>, n: nat)
    requires |fs| > 0
    ensures FeaturesText(fs, n) == FeaturesText(fs[..|fs| - 1], n) + FeatureText(fs[|fs| - 1], |fs| == n)
  {
  }

  /**
   * updateFile: the text up to the declaration's line, then the block written
   * piece by piece into the buffer, then the rest of the file.
   */
  method UpdateFile(content: string, decl: Decl, sortedFeatures: seq<Feature>) returns (newContent: string)
    requires DeclSpan(decl, content)
    ensures newContent == Rewritten(content, decl, sortedFeatures)
  {
    var declPos := Offset(decl.pos);
    var declEnd := Offset(decl.end);
    var lineStart := ScanLineStart(content, declPos, false);
    LineStartOfIsLineStart(content, declPos, false);
    var buf := content[..lineStart];
    buf := buf + TokenToString(decl.tok);
    buf := buf + " (";
    buf := AppendFeatures(buf, sortedFeatures);
    buf := buf + "\n)";
    buf := buf + content[declEnd..];
    newContent := buf;
  }

  /** The loop of updateFile over the sorted features. */
  method AppendFeatures(buf: string, features: seq<Feature>) returns (out: string)
    ensures out == buf + FeaturesText(features, |features|)
  {
    out := buf;
    var n := |features|;
    var i := 0;
    while i < n
      invariant 0 <= i <= n
      invariant out == buf + FeaturesText(features[..i], n)
    {
      assert features[..i + 1][..i] == features[..i];
      out := AppendFeature(out, features[i], i == n - 1);
      i := i + 1;
    }
    assert features[..n] == features;
  }

  /** One feature: a newline, its comments, a tab and its line, and a newline unless it is the last. */
  method AppendFeature(buf: string, feature: Feature, isLast: bool) returns (out: string)
    ensures out == buf + FeatureText(feature, isLast)
  {
    out := buf + "\n";
    out := AppendComments(out, feature.comments);
    out := out + "\t";
    out := out + feature.line;
    if !isLast {
      out := out + "\n";
    }
  }

  /** Each comment as a tab, the comment and a newline. */
  method AppendComments(buf: string, comments: seq<string>) returns (out: string)
    ensures out == buf + CommentLines(comments)
  {
    out := buf;
    var j := 0;
    while j < |comments|
      invariant 0 <= j <= |comments|
      invariant out == buf + CommentLines(comments[..j])
    {
      assert comments[..j + 1][..j] == comments[..j];
      out := out + "\t";
      out := out + comments[j];
      out := out + "\n";
      j := j + 1;
    }
    assert comments[..j] == comments;
  }

  // ---------------------------------------------------------------------
  // Processing a file
  // ---------------------------------------------------------------------

  /** A block to rewrite, with its features in their new order. */
  datatype Rewrite = Rewrite(decl: Decl, sorted: seq<Feature>)

  /** The line start of a declaration, by the newline-only scan of updateFile. */
  function DeclLineStart(content: string, d: Decl): nat
    requires DeclSpan(d, content)
  {
    LineStartOf(content, Offset(d.pos), false)
  }

  /**
   * The rewrites lie within the content, in order, each starting its line
   * at or after the end of the one before, and the first at or after from.
   */
  predicate Placed(content: string, rs: seq<Rewrite>, from: nat)
  {
    from <= |content|
    && (forall k | 0 <= k < |rs| :: DeclSpan(rs[k].decl, content))
    && (|rs| > 0 ==> from <= DeclLineStart(content, rs[0].decl))
    && (forall k | 0 < k < |rs| :: Offset(rs[k - 1].decl.end) <= DeclLineStart(content, rs[k].decl))
  }

  lemma PlacedBounds(content: string, rs: seq<Rewrite>, from: nat)
    requires Placed(content, rs, from)
    ensures |rs| > 0 ==> Placed(content, rs[1..], Offset(rs[0].decl.end))
    ensures |rs| > 0 ==> DeclLineStart(content, rs[0].decl) <= Offset(rs[0].decl.pos)
  {
    if |rs| > 0 {
      LineStartOfIsLineStart(content, Offset(rs[0].decl.pos), false);
      assert forall k | 0 <= k < |rs[1..]| :: rs[1..][k] == rs[k + 1];
    }
  }

  /**
   * The intended result of rewriting several blocks: the original text
   * between the blocks, each block replaced by its new text, all offsets
   * read in the original content.
   */
  function Spliced(content: string, rs: seq<Rewrite>, from: nat): string
    requires Placed(content, rs, from)
    decreases |rs|
  {
    if |rs| == 0 then content[from..]
    else
      var d := rs[0].decl;
      PlacedBounds(content, rs, from);
      content[from..DeclLineStart(content, d)] + BlockText(d.tok, rs[0].sorted)
        + Spliced(content, rs[1..], Offset(d.end))
  }

  /** A block that processFile rewrites: a feature block whose order changed, or any feature block when forced. */
  predicate NeedsRewrite(d: Decl, comments: seq<CommentGroup>, content: string, force: bool)
  {
    IsFeatureBlock(d) && DeclInContent(d, content)
    && (force || !Ordered(Names(Extracted(d.specs, comments, content), FeatureName)))
  }

  /** A rewrite that processFile plans: a block that needs it, with its features sorted by name. */
  predicate Planned(r: Rewrite, comments: seq<CommentGroup>, content: string, force: bool)
  {
    NeedsRewrite(r.decl, comments, content, force)
    && multiset(r.sorted) == multiset(Extracted(r.decl.specs, comments, content))
    && Ordered(Names(r.sorted, FeatureName))
  }

  /** Some rewrite is for declaration d. */
  predicate Covers(rs: seq<Rewrite>, d: Decl)
  {
    exists k | 0 <= k < |rs| :: rs[k].decl == d
  }

  /** Feature blocks lie within the content and no two of them share a line. */
  predicate BlocksPlaced(decls: seq<Decl>, content: string)
  {
    (forall i | 0 <= i < |decls| && IsFeatureBlock(decls[i]) :: DeclInContent(decls[i], content))
    && (forall i, j | 0 <= i < j < |decls| && IsFeatureBlock(decls[i]) && IsFeatureBlock(decls[j]) ::
          DeclInContent(decls[j], content) && Offset(decls[i].end) <= DeclLineStart(content, decls[j]))
  }

  /**
   * processFile on parsed content, with every rewrite read at the offsets of
   * the original content: the blocks to rewrite are collected in file
   * order, then applied from the last to the first, so that no rewrite moves
   * the text of a block still to be rewritten.
   */
  method ProcessFile(content: string, decls: seq<Decl>, comments: seq<CommentGroup>, force: bool)
    returns (fileChanged: bool, newContent: string, rewrites: seq<Rewrite>)
    requires BlocksPlaced(decls, content)
    ensures fileChanged <==> exists i | 0 <= i < |decls| :: NeedsRewrite(decls[i], comments, content, force)
    ensures !fileChanged ==> newContent == content
    ensures Placed(content, rewrites, 0) && newContent == Spliced(content, rewrites, 0)
    ensures forall i | 0 <= i < |decls| && NeedsRewrite(decls[i], comments, content, force) ::
      Covers(rewrites, decls[i])
    ensures forall k | 0 <= k < |rewrites| :: Planned(rewrites[k], comments, content, force)
  {
    rewrites := CollectRewrites(content, decls, comments, force);
    fileChanged := |rewrites| > 0;
    newContent := ApplyFromLast(content, rewrites);
  }

  /** The loop of processFile over the declarations, deciding which blocks to rewrite. */
  method CollectRewrites(content: string, decls: seq<Decl>, comments: seq<CommentGroup>, force: bool)
    returns (rewrites: seq<Rewrite>)
    requires BlocksPlaced(decls, content)
    ensures Placed(content, rewrites, 0)
    ensures |rewrites| > 0 <==> exists i | 0 <= i < |decls| :: NeedsRewrite(decls[i], comments, content, force)
    ensures forall i | 0 <= i < |decls| && NeedsRewrite(decls[i], comments, content, force) ::
      Covers(rewrites, decls[i])
    ensures forall k | 0 <= k < |rewrites| :: Planned(rewrites[k], comments, content, force)
  {
    rewrites := [];
    ghost var indices: seq<int> := [];
    for i := 0 to |decls|
      invariant CollectedUpTo(decls, i, rewrites, indices, comments, content, force)
    {
      var needed, sortedFeatures := PlanBlock(decls[i], comments, content, force);
      var r := Rewrite(decls[i], sortedFeatures);
      CollectStep(decls, i, rewrites, indices, comments, content, force, needed, r);
      if needed {
        rewrites := rewrites + [r];
        indices := indices + [i];
      }
    }
    CollectedAll(decls, rewrites, indices, comments, content, force);
  }

  /** The rewrites collected so far are for declarations before i, in file order; indices says which. */
  ghost predicate Collected(decls: seq<Decl>, i: int, rs: seq<Rewrite>, indices: seq<int>)
  {
    && |indices| == |rs|
    && (forall k | 0 <= k < |rs| :: 0 <= indices[k] < i && i <= |decls| && rs[k].decl == decls[indices[k]])
    && (forall k, l | 0 <= k < l < |rs| :: indices[k] < indices[l])
  }

  /** The loop invariant of CollectRewrites: the declarations before i are planned and covered. */
  ghost predicate CollectedUpTo(decls: seq<Decl>, i: int, rs: seq<Rewrite>, indices: seq<int>,
                                comments: seq<CommentGroup>, content: string, force: bool)
  {
    && Collected(decls, i, rs, indices)
    && (forall m | 0 <= m < i && m < |decls| && NeedsRewrite(decls[m], comments, content, force) :: Covers(rs, decls[m]))
    && (forall k | 0 <= k < |rs| :: Planned(rs[k], comments, content, force))
  }

  lemma CollectStep(decls: seq<Decl>, i: nat, rs: seq<Rewrite>, indices: seq<int>,
                    comments: seq<CommentGroup>, content: string, force: bool, needed: bool, r: Rewrite)
    requires i < |decls| && CollectedUpTo(decls, i, rs, indices, comments, content, force)
    requires needed <==> NeedsRewrite(decls[i], comments, content, force)
    requires r.decl == decls[i] && (needed ==> Planned(r, comments, content, force))
    ensures needed ==> CollectedUpTo(decls, i + 1, rs + [r], indices + [i], comments, content, force)
    ensures !needed ==> CollectedUpTo(decls, i + 1, rs, indices, comments, content, force)
  {
    if needed {
      CollectAppend(decls, i, rs, indices, comments, content, force, r);
    } else {
      CollectSkip(decls, i, rs, indices, comments, content, force);
    }
  }

  lemma CollectAppend(decls: seq<Decl>, i: nat, rs: seq<Rewrite>, indices: seq<int>,
                      comments: seq<CommentGroup>, content: string, force: bool, r: Rewrite)
    requires i < |decls| && CollectedUpTo(decls, i, rs, indices, comments, content, force)
    requires r.decl == decls[i] && Planned(r, comments, content, force)
    ensures CollectedUpTo(decls, i + 1, rs + [r], indices + [i], comments, content, force)
  {
    CollectedStep(decls, i, rs, indices, r);
    CoversExtended(decls, i, rs, r, comments, content, force);
    PlannedExtended(rs, r, comments, content, force);
  }

  lemma CollectedStep(decls: seq<Decl>, i: nat, rs: seq<Rewrite>, indices: seq<int>, r: Rewrite)
    requires i < |decls| && Collected(decls, i, rs, indices) && r.decl == decls[i]
    ensures Collected(decls, i + 1, rs + [r], indices + [i])
  {
    var rs', indices' := rs + [r], indices + [i];
    assert forall k | 0 <= k < |rs| :: rs'[k] == rs[k] && indices'[k] == indices[k];
  }

  lemma PlannedExtended(rs: seq<Rewrite>, r: Rewrite, comments: seq<CommentGroup>, content: string, force: bool)
    requires forall k | 0 <= k < |rs| :: Planned(rs[k], comments, content, force)
    requires Planned(r, comments, content, force)
    ensures forall k | 0 <= k < |rs + [r]| :: Planned((rs + [r])[k], comments, content, force)
  {
    var rs' := rs + [r];
    assert forall k | 0 <= k < |rs'| :: rs'[k] == if k < |rs| then rs[k] else r;
  }

  lemma CollectSkip(decls: seq<Decl>, i: nat, rs: seq<Rewrite>, indices: seq<int>,
                    comments: seq<CommentGroup>, content: string, force: bool)
    requires i < |decls| && CollectedUpTo(decls, i, rs, indices, comments, content, force)
    requires !NeedsRewrite(decls[i], comments, content, force)
    ensures CollectedUpTo(decls, i + 1, rs, indices, comments, content, force)
  {
  }

  /** After the loop: the collected rewrites are placed, and there is one exactly when some block needs it. */
  lemma CollectedAll(decls: seq<Decl>, rs: seq<Rewrite>, indices: seq<int>,
                     comments: seq<CommentGroup>, content: string, force: bool)
    requires BlocksPlaced(decls, content)
    requires CollectedUpTo(decls, |decls|, rs, indices, comments, content, force)
    ensures Placed(content, rs, 0)
    ensures |rs| > 0 <==> exists i | 0 <= i < |decls| :: NeedsRewrite(decls[i], comments, content, force)
  {
    IndicesPlaced(content, decls, rs, indices);
    if |rs| > 0 {
      assert NeedsRewrite(decls[indices[0]], comments, content, force);
    }
  }

  /** Appending the rewrite of declaration i keeps every needing declaration up to i covered. */
  lemma CoversExtended(decls: seq<Decl>, i: nat, rs: seq<Rewrite>, r: Rewrite,
                       comments: seq<CommentGroup>, content: string, force: bool)
    requires i < |decls| && r.decl == decls[i]
    requires forall m | 0 <= m < i && NeedsRewrite(decls[m], comments, content, force) :: Covers(rs, decls[m])
    ensures forall m | 0 <= m < i + 1 && NeedsRewrite(decls[m], comments, content, force) :: Covers(rs + [r], decls[m])
  {
    forall m | 0 <= m < i + 1 && NeedsRewrite(decls[m], comments, content, force)
      ensures Covers(rs + [r], decls[m])
    {
      if m == i {
        assert (rs + [r])[|rs|].decl == decls[m];
      } else {
        var k :| 0 <= k < |rs| && rs[k].decl == decls[m];
        assert (rs + [r])[k] == rs[k];
      }
    }
  }

  /** The rewrites of blocks taken in file order inherit the placement of the blocks. */
  lemma IndicesPlaced(content: string, decls: seq<Decl>, rs: seq<Rewrite>, indices: seq<int>)
    requires BlocksPlaced(decls, content)
    requires |indices| == |rs|
    requires forall k | 0 <= k < |rs| :: 0 <= indices[k] < |decls| && rs[k].decl == decls[indices[k]]
    requires forall k, l | 0 <= k < l < |rs| :: indices[k] < indices[l]
    requires forall k | 0 <= k < |rs| :: IsFeatureBlock(rs[k].decl)
    ensures Placed(content, rs, 0)
  {
    forall k | 0 < k < |rs|
      ensures Offset(rs[k - 1].decl.end) <= DeclLineStart(content, rs[k].decl)
    {
      assert indices[k - 1] < indices[k];
      assert IsFeatureBlock(decls[indices[k - 1]]) && IsFeatureBlock(decls[indices[k]]);
    }
    forall k | 0 <= k < |rs|
      ensures DeclSpan(rs[k].decl, content)
    {
      assert IsFeatureBlock(decls[indices[k]]);
    }
  }

  /**
   * The body of processFile's loop for one declaration: a feature block is
   * extracted, sorted, and kept for rewriting when its order changed or the
   * rewrite is forced.
   */
  method PlanBlock(decl: Decl, comments: seq<CommentGroup>, content: string, force: bool)
    returns (needed: bool, sortedFeatures: seq<Feature>)
    requires IsFeatureBlock(decl) ==> DeclInContent(decl, content)
    ensures needed <==> NeedsRewrite(decl, comments, content, force)
    ensures needed ==> Planned(Rewrite(decl, sortedFeatures), comments, content, force)
  {
    needed := false;
    sortedFeatures := [];
    if IsFeatureBlock(decl) {
      var features := ExtractFeatures(decl, comments, content);
      sortedFeatures := SortByName(features, FeatureName);
      var orderChanged := HasOrderChanged(features, sortedFeatures, FeatureName);
      OrderUnchangedIffOrdered(features, sortedFeatures, FeatureName);
      needed := orderChanged || force;
    }
  }

  /** Where the still-unrewritten text ends once the rewrites from k on are applied. */
  function Bound(rs: seq<Rewrite>, k: nat): nat
    requires k <= |rs|
  {
    if k == 0 || !rs[k - 1].decl.GenDecl? || Offset(rs[k - 1].decl.end) < 0 then 0
    else Offset(rs[k - 1].decl.end)
  }

  lemma PlacedFrom(content: string, rs: seq<Rewrite>, k: nat)
    requires Placed(content, rs, 0) && k <= |rs|
    ensures Placed(content, rs[k..], Bound(rs, k))
    ensures k > 0 ==> Bound(rs, k) == Offset(rs[k - 1].decl.end)
  {
    assert forall m | 0 <= m < |rs[k..]| :: rs[k..][m] == rs[k + m];
    if k > 0 {
      assert DeclSpan(rs[k - 1].decl, content);
    }
  }

  /** Spliced, one block at a time. */
  lemma SplicedStep(content: string, rs: seq<Rewrite>, from: nat)
    requires Placed(content, rs, from) && |rs| > 0
    ensures from <= DeclLineStart(content, rs[0].decl) <= Offset(rs[0].decl.end)
    ensures Placed(content, rs[1..], Offset(rs[0].decl.end))
    ensures Spliced(content, rs, from)
      == content[from..DeclLineStart(content, rs[0].decl)] + BlockText(rs[0].decl.tok, rs[0].sorted)
         + Spliced(content, rs[1..], Offset(rs[0].decl.end))
  {
    PlacedBounds(content, rs, from);
  }

  /**
   * Rewriting a block in content whose text up to the end of that block is
   * still the original gives the original text up to any earlier point b,
   * then the spliced remainder.
   */
  lemma SpliceOne(content: string, current: string, d: Decl, sorted: seq<Feature>, b: nat, tail: string)
    requires DeclSpan(d, content) && b <= DeclLineStart(content, d)
    requires current == content[..Offset(d.end)] + tail
    ensures DeclSpan(d, current)
    ensures Rewritten(current, d, sorted)
      == content[..b] + (content[b..DeclLineStart(content, d)] + BlockText(d.tok, sorted) + tail)
  {
    var ls := DeclLineStart(content, d);
    SameLineStart(content, current, d, tail);
    RewrittenAt(current, d, sorted, ls, tail);
    var x, y, z := content[..b], content[b..ls], BlockText(d.tok, sorted);
    assert content[..ls] == x + y;
  }

  /** Rewritten, with the line start and the text after the block given. */
  lemma RewrittenAt(current: string, d: Decl, sorted: seq<Feature>, ls: nat, tail: string)
    requires DeclSpan(d, current) && DeclLineStart(current, d) == ls
    requires current[Offset(d.end)..] == tail
    ensures Rewritten(current, d, sorted) == current[..ls] + BlockText(d.tok, sorted) + tail
  {
  }

  /** Text appended after a block leaves the block's line start where it was. */
  lemma SameLineStart(content: string, current: string, d: Decl, tail: string)
    requires DeclSpan(d, content)
    requires current == content[..Offset(d.end)] + tail
    ensures DeclSpan(d, current)
    ensures DeclLineStart(current, d) == DeclLineStart(content, d) <= Offset(d.pos)
    ensures current[..DeclLineStart(content, d)] == content[..DeclLineStart(content, d)]
    ensures current[Offset(d.end)..] == tail
  {
    var e := Offset(d.end);
    var p := Offset(d.pos);
    assert current[..e] == content[..e];
    assert current[..p] == content[..e][..p] == content[..p];
    LineStartOfPrefix(current, content, p, false);
    LineStartOfIsLineStart(content, p, false);
    var ls := DeclLineStart(content, d);
    assert current[..ls] == content[..e][..ls];
  }

  /** The rewrites applied from the last to the first, each with the offsets of the original content. */
  method ApplyFromLast(content: string, rewrites: seq<Rewrite>) returns (newContent: string)
    requires Placed(content, rewrites, 0)
    ensures newContent == Spliced(content, rewrites, 0)
  {
    newContent := content;
    var k := |rewrites|;
    PlacedFrom(content, rewrites, k);
    while k > 0
      invariant 0 <= k <= |rewrites|
      invariant Placed(content, rewrites[k..], Bound(rewrites, k))
      invariant newContent == content[..Bound(rewrites, k)] + Spliced(content, rewrites[k..], Bound(rewrites, k))
    {
      var r := rewrites[k - 1];
      PlacedFrom(content, rewrites, k - 1);
      PlacedFrom(content, rewrites, k);
      assert rewrites[k - 1..][0] == r;
      assert rewrites[k - 1..][1..] == rewrites[k..];
      SplicedStep(content, rewrites[k - 1..], Bound(rewrites, k - 1));
      SpliceOne(content, newContent, r.decl, r.sorted, Bound(rewrites, k - 1),
        Spliced(content, rewrites[k..], Bound(rewrites, k)));
      newContent := UpdateFile(newContent, r.decl, r.sorted);
      k := k - 1;
    }
    assert rewrites[0..] == rewrites;
  }

  /**
   * processFile as written: each block's rewrite is applied, in file order,
   * to the content left by the rewrites before it, but with offsets read in
   * the original content. A scan or a slice beyond the current content is a
   * run-time panic, None here.
   */
  function AppliedInOrder(content: string, rs: seq<Rewrite>): Option<string>
    decreases |rs|
  {
    if |rs| == 0 then Some(content)
    else
      var d := rs[0].decl;
      if !d.GenDecl? || Offset(d.pos) < 0 || Offset(d.pos) > |content| || Offset(d.end) < 0 || Offset(d.end) > |content| then None
      else
        var ls := LineStartOf(content, Offset(d.pos), false);
        LineStartOfIsLineStart(content, Offset(d.pos), false);
        AppliedInOrder(content[..ls] + BlockText(d.tok, rs[0].sorted) + content[Offset(d.end)..], rs[1..])
  }

  /** With a single block to rewrite, the order of application does not matter. */
  lemma SingleRewriteAgrees(content: string, r: Rewrite)
    requires Placed(content, [r], 0)
    ensures AppliedInOrder(content, [r]) == Some(Spliced(content, [r], 0))
  {
    assert DeclSpan(r.decl, content);
    assert [r][1..] == [];
    LineStartOfIsLineStart(content, Offset(r.decl.pos), false);
  }

  /** Two blocks, each with two features out of order. */
  const ExampleContent: string := "const (\n\tb\n\ta\n)\n" + "var (\n\td\n\tc\n)\n"

  const ExampleFirst: Decl := GenDecl(Const, [ValueSpec(["b"], None, 10, 11), ValueSpec(["a"], None, 13, 14)], 1, 16)

  const ExampleSecond: Decl := GenDecl(Var, [ValueSpec(["d"], None, 24, 25), ValueSpec(["c"], None, 27, 28)], 17, 30)

  /** Both blocks rewritten with their features in order. */
  const ExampleRewrites: seq<Rewrite> :=
    [Rewrite(ExampleFirst, [Feature("a", [], "a"), Feature("b", [], "b")]),
     Rewrite(ExampleSecond, [Feature("c", [], "c"), Feature("d", [], "d")])]

  /** The intended output on the example: each block sorted, with a blank line between its features. */
  lemma StaleOffsetsIntended()
    ensures Placed(ExampleContent, ExampleRewrites, 0)
    ensures Spliced(ExampleContent, ExampleRewrites, 0) == "const (\n\ta\n\n\tb\n)\n" + "var (\n\tc\n\n\td\n)\n"
  {
    var content, rs := ExampleContent, ExampleRewrites;
    ExampleBlocks();
    ExampleLineStarts();
    assert rs == [rs[0], rs[1]];
    SplicedTwo(content, rs[0], rs[1]);
    assert content[..0] == "" && content[15..16] == "\n" && content[29..] == "\n";
  }

  /**
   * processFile as written on the example. Rewriting the first block adds a
   * blank line between its features, so the second block's original
   * offsets point one character early: its line start is found inside the
   * first block, whose closing ")" and newline are lost, and the stray ")"
   * ends up after the second block.
   */
  lemma StaleOffsetsAsWritten()
    ensures AppliedInOrder(ExampleContent, ExampleRewrites) == Some("const (\n\ta\n\n\tb\n" + "var (\n\tc\n\n\td\n)" + ")\n")
    ensures AppliedInOrder(ExampleContent, ExampleRewrites) != Some(Spliced(ExampleContent, ExampleRewrites, 0))
  {
    var content, rs := ExampleContent, ExampleRewrites;
    StaleOffsetsIntended();
    ExampleBlocks();
    var once := ExampleOnce();
    assert rs == [rs[0], rs[1]];
    AppliedTwo(content, rs[0], rs[1]);
    RewrittenAt(once, rs[1].decl, rs[1].sorted, 15, ")\n");
    assert once[..15] == "const (\n\ta\n\n\tb\n";
    assert |"const (\n\ta\n\n\tb\n)\n" + "var (\n\tc\n\n\td\n)\n"| == 32;
  }

  /** The example's two blocks, each sorted and rewritten. */
  lemma ExampleBlocks()
    ensures BlockText(Const, ExampleRewrites[0].sorted) == "const (\n\ta\n\n\tb\n)"
    ensures BlockText(Var, ExampleRewrites[1].sorted) == "var (\n\tc\n\n\td\n)"
  {
    var rs := ExampleRewrites;
    TwoPlainFeatures(Const, rs[0].sorted[0], rs[0].sorted[1]);
    TwoPlainFeatures(Var, rs[1].sorted[0], rs[1].sorted[1]);
    assert rs[0].sorted == [rs[0].sorted[0], rs[0].sorted[1]];
    assert rs[1].sorted == [rs[1].sorted[0], rs[1].sorted[1]];
  }

  /** Both blocks of the example start their lines. */
  lemma ExampleLineStarts()
    ensures |ExampleContent| == 30 && ExampleContent[15] == '\n'
    ensures LineStartOf(ExampleContent, 0, false) == 0
    ensures LineStartOf(ExampleContent, 16, false) == 16
  {
  }

  /**
   * The example after its first block is rewritten: one character longer,
   * so that offset 16 of the second block now lies on the line of the
   * first block's ")".
   */
  lemma ExampleOnce() returns (once: string)
    ensures once == Rewritten(ExampleContent, ExampleFirst, ExampleRewrites[0].sorted)
    ensures once == "const (\n\ta\n\n\tb\n)\nvar (\n\td\n\tc\n)\n"
    ensures DeclSpan(ExampleSecond, once) && DeclLineStart(once, ExampleSecond) == 15
    ensures once[Offset(ExampleSecond.end)..] == ")\n"
  {
    var content := ExampleContent;
    ExampleBlocks();
    ExampleLineStarts();
    once := "const (\n\ta\n\n\tb\n)" + content[15..];
    RewrittenAt(content, ExampleFirst, ExampleRewrites[0].sorted, 0, content[15..]);
    assert content[..0] == "";
    assert |once| == 31 && once[15] == ')' && once[14] == '\n';
    assert LineStartOf(once, 15, false) == 15;
    assert LineStartOf(once, 16, false) == 15;
  }

  /** The intended result for two blocks: the text around and between them, and the two new blocks. */
  lemma SplicedTwo(content: string, r1: Rewrite, r2: Rewrite)
    requires Placed(content, [r1, r2], 0)
    ensures DeclSpan(r1.decl, content) && DeclSpan(r2.decl, content)
    ensures var ls1 := DeclLineStart(content, r1.decl);
      var ls2 := DeclLineStart(content, r2.decl);
      Offset(r1.decl.end) <= ls2
      && Spliced(content, [r1, r2], 0)
         == content[..ls1] + BlockText(r1.decl.tok, r1.sorted)
            + content[Offset(r1.decl.end)..ls2] + BlockText(r2.decl.tok, r2.sorted)
            + content[Offset(r2.decl.end)..]
  {
    assert DeclSpan([r1, r2][0].decl, content) && DeclSpan([r1, r2][1].decl, content);
    SplicedStep(content, [r1, r2], 0);
    assert [r1, r2][1..] == [r2];
    SplicedStep(content, [r2], Offset(r1.decl.end));
    assert [r2][1..] == [];
  }

  /** processFile as written on two blocks: the second rewrite reads the first one's output. */
  lemma AppliedTwo(content: string, r1: Rewrite, r2: Rewrite)
    requires DeclSpan(r1.decl, content)
    requires var once := Rewritten(content, r1.decl, r1.sorted);
      DeclSpan(r2.decl, once)
    ensures var once := Rewritten(content, r1.decl, r1.sorted);
      AppliedInOrder(content, [r1, r2]) == Some(Rewritten(once, r2.decl, r2.sorted))
  {
    var once := Rewritten(content, r1.decl, r1.sorted);
    assert [r1, r2][1..] == [r2];
    assert [r2][1..] == [];
    assert AppliedInOrder(content, [r1, r2]) == AppliedInOrder(once, [r2]);
    assert AppliedInOrder(once, [r2]) == AppliedInOrder(Rewritten(once, r2.decl, r2.sorted), []);
  }

  /** A block of two features without comments: a blank line separates their lines. */
  lemma TwoPlainFeatures(tok: Token, f: Feature, g: Feature)
    requires f.comments == [] && g.comments == []
    ensures BlockText(tok, [f, g]) == TokenToString(tok) + " (\n\t" + f.line + "\n\n\t" + g.line + "\n)"
  {
    var first, last := FeatureText(f, false), FeatureText(g, true);
    PlainFeatureText(f, false);
    PlainFeatureText(g, true);
    TwoFeaturesText(f, g);
    assert first + last == "\n\t" + f.line + "\n\n\t" + g.line;
  }

  /** The features of a two-feature block: the first, then the last. */
  lemma TwoFeaturesText(f: Feature, g: Feature)
    ensures FeaturesText([f, g], 2) == FeatureText(f, false) + FeatureText(g, true)
  {
    assert [f, g][..1] == [f];
    assert [f][..0] == [];
    assert FeaturesText([f], 2) == "" + FeatureText(f, false);
  }

  /** A feature without comments: a newline, a tab and its line. */
  lemma PlainFeatureText(f: Feature, isLast: bool)
    requires f.comments == []
    ensures FeatureText(f, isLast) == "\n\t" + f.line + (if isLast then "" else "\n")
  {
    assert CommentLines(f.comments) == "";
  }
}
