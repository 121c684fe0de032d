/**
 * The part of a parsed Go file that the feature-sorting tools look at: the
 * top-level declarations, the specs of a var or const block, and the
 * comment groups. Positions are token.Pos values of a file whose base is 1,
 * so the byte offset of a position p is p - 1.
 */
module GoAst {

  import opened Wrappers

  /** The keywords that open a general declaration. */
  datatype Token = Import | Const | Type | Var

  /** token.Token.String for the declaration keywords. */
  function TokenString(tok: Token): string
  {
    match tok
    case Import => "import"
    case Const => "const"
    case Type => "type"
    case Var => "var"
  }

  /** A spec of a general declaration; only value specs name features. */
  datatype Spec =
    | ValueSpec(names: seq<string>, doc: Option<seq<string>>, pos: int, end: int)
    | TypeSpec
    | ImportSpec

  /** A comment group: the text of each comment, and the position just after the group. */
  datatype CommentGroup = CommentGroup(texts: seq<string>, end: int)

  datatype Decl =
    | GenDecl(tok: Token, specs: seq<Spec>, pos: int, end: int)
    | FuncDecl

  const FileBase: int := 1

  /** The byte offset of a position. */
  function Offset(p: int): int
  {
    p - FileBase
  }

  /** A var or const block with more than one spec: the only declarations either tool sorts. */
  predicate IsFeatureBlock(d: Decl)
  {
    d.GenDecl? && (d.tok == Var || d.tok == Const) && |d.specs| > 1
  }

  /** A spec that names a feature: a value spec with at least one name. */
  predicate IsNamedValueSpec(s: Spec)
  {
    s.ValueSpec? && |s.names| > 0
  }

  /**
   * The texts of the comment groups that end right before position pos, in
   * order: every returned text comes from such a group, and the texts of
   * each such group follow those of the such groups before it.
   */
  function AdjacentComments(comments: seq<CommentGroup>, pos: int): (texts: seq<string>)
    ensures forall c | c in texts :: exists g | g in comments :: g.end + 1 == pos && c in g.texts
    ensures forall k | 0 <= k < |comments| && comments[k].end + 1 == pos ::
      AdjacentComments(comments[..k], pos) + comments[k].texts <= texts
    decreases |comments|
  {
    if |comments| == 0 then []
    else
      var init := AdjacentComments(comments[..|comments| - 1], pos);
      var g := comments[|comments| - 1];
      assert comments[..|comments| - 1][..|comments| - 1] == comments[..|comments| - 1];
      assert forall k | 0 <= k < |comments| - 1 :: comments[..|comments| - 1][..k] == comments[..k];
      if g.end + 1 == pos then init + g.texts else init
  }

  /**
   * The comments of a feature: its doc comment when it has one, otherwise
   * every comment group ending right before the spec.
   */
  function FeatureComments(s: Spec, comments: seq<CommentGroup>): (texts: seq<string>)
    requires s.ValueSpec?
    ensures s.doc.Some? ==> texts == s.doc.value
    ensures s.doc.None? ==> forall c | c in texts :: exists g | g in comments :: g.end + 1 == s.pos && c in g.texts
    ensures s.doc.None? ==> forall k | 0 <= k < |comments| && comments[k].end + 1 == s.pos ::
      AdjacentComments(comments[..k], s.pos) + comments[k].texts <= texts
  {
    if s.doc.Some? then s.doc.value else AdjacentComments(comments, s.pos)
  }
}
