/**
 * The structural diff renderer of the apimachinery diff package: Diff
 * compares two values and writes a report, line by line, into a string
 * builder. A line starts with "- " for a part of the first value, "+ " for
 * a part of the second, and two spaces for context, followed by one tab per
 * indentation level.
 *
 * reflect.Value is modelled by the Value datatype below. Reflection's deep
 * equality is equality of Values. Go's `%v` formatting, strconv.Quote and
 * unicode.IsPrint are the three functions of a Printer, passed in by the
 * caller. The diff context's builder is the class DiffContext; its
 * visited-pointer maps, which only break cycles, are not part of this model.
 */
module Diff {

  import opened Wrappers
  import opened Strs
  import DiffCheck

  // ---------------------------------------------------------------------
  // Values
  // ---------------------------------------------------------------------

  /** The scalar kinds: booleans, signed and unsigned integers. */
  datatype BasicKind = Bool | Int | Uint

  /**
   * A reflect.Value. Nil is the invalid value of an untyped nil. Every
   * other value carries its type's String() in typ. A Map is keyed by the
   * `%v` text of its keys; stringKeys says whether the key type is a string
   * type. A Slice or Map of None is a nil slice or map.
   */
  datatype Value =
    | Nil
    | Basic(kind: BasicKind, typ: string, text: string)
    | Str(typ: string, s: string)
    | Pointer(typ: string, elemTyp: string, elemNamed: bool, target: Option<Value>)
    | Interface(typ: string, inner: Option<Value>)
    | Slice(typ: string, elems: Option<seq<Value>>)
    | Array(typ: string, items: seq<Value>)
    | Map(typ: string, stringKeys: bool, entries: Option<map<string, Value>>)
    | Struct(typ: string, fields: seq<Field>)

  /** A struct field: its name, whether it is exported, and its value. */
  datatype Field = Field(name: string, exported: bool, value: Value)

  /** The formatting functions the renderer calls: `%v`, strconv.Quote and unicode.IsPrint. */
  datatype Printer = Printer(show: Value -> string, quote: string -> string, isPrint: char -> bool)

  /** The names and export flags of a struct's fields: the part of its type they fix. */
  function FieldShape(fs: seq<Field>): seq<(string, bool)>
  {
    seq(|fs|, i requires 0 <= i < |fs| => (fs[i].name, fs[i].exported))
  }

  /** a.Type() == b.Type() for two valid values. */
  predicate SameType(a: Value, b: Value)
  {
    match (a, b)
    case (Basic(k1, t1, _), Basic(k2, t2, _)) => k1 == k2 && t1 == t2
    case (Str(t1, _), Str(t2, _)) => t1 == t2
    case (Pointer(t1, e1, n1, _), Pointer(t2, e2, n2, _)) => t1 == t2 && e1 == e2 && n1 == n2
    case (Interface(t1, _), Interface(t2, _)) => t1 == t2
    case (Slice(t1, _), Slice(t2, _)) => t1 == t2
    case (Array(t1, x1), Array(t2, x2)) => t1 == t2 && |x1| == |x2|
    case (Map(t1, k1, _), Map(t2, k2, _)) => t1 == t2 && k1 == k2
    case (Struct(t1, f1), Struct(t2, f2)) => t1 == t2 && FieldShape(f1) == FieldShape(f2)
    case _ => false
  }

  /** reflect.Value.IsZero, for the values a struct field can hold. */
  predicate IsZero(v: Value)
  {
    match v
    case Nil => true
    case Basic(kind, _, text) => if kind == Bool then text == "false" else text == "0"
    case Str(_, s) => s == ""
    case Pointer(_, _, _, target) => target.None?
    case Interface(_, inner) => inner.None?
    case Slice(_, elems) => elems.None?
    case Array(_, items) => forall i | 0 <= i < |items| :: IsZero(items[i])
    case Map(_, _, entries) => entries.None?
    case Struct(_, fields) => forall i | 0 <= i < |fields| :: IsZero(fields[i].value)
  }

  /** A nil pointer or nil interface. */
  predicate IsNilRef(v: Value)
    requires v.Pointer? || v.Interface?
  {
    if v.Pointer? then v.target.None? else v.inner.None?
  }

  /** A nil slice or map against an empty one of the same type, either way round. */
  predicate NilVersusEmpty(a: Value, b: Value)
  {
    (a.Slice? && b.Slice? &&
      ((a.elems.None? && b.elems.Some? && |b.elems.value| == 0) ||
       (a.elems.Some? && |a.elems.value| == 0 && b.elems.None?)))
    || (a.Map? && b.Map? &&
      ((a.entries.None? && b.entries.Some? && |b.entries.value| == 0) ||
       (a.entries.Some? && |a.entries.value| == 0 && b.entries.None?)))
  }

  /** The elements of a slice or array; a nil slice has none. */
  function Items(v: Value): seq<Value>
    requires v.Slice? || v.Array?
  {
    if v.Array? then v.items else if v.elems.None? then [] else v.elems.value
  }

  /** The entries of a map; a nil map has none. */
  function Entries(v: Value): map<string, Value>
    requires v.Map?
  {
    if v.entries.None? then map[] else v.entries.value
  }

  // ---------------------------------------------------------------------
  // Formatting
  // ---------------------------------------------------------------------

  /** `%v`: the text of a scalar, the characters of a string, otherwise the printer's. */
  function Show(p: Printer, v: Value): string
  {
    match v
    case Basic(_, _, text) => text
    case Str(_, s) => s
    case _ => p.show(v)
  }

  /** A character the raw-string form cannot hold. */
  predicate RawInvalid(p: Printer, c: char)
  {
    c == '`' || c == '\n' || !(p.isPrint(c) || c == '\t')
  }

  predicate RawAllowed(p: Printer, s: string)
  {
    forall i | 0 <= i < |s| :: !RawInvalid(p, s[i])
  }

  /**
   * formatString: the quoted form when quoting adds only the two quotes,
   * otherwise the backtick form when every character may stand in it,
   * otherwise the quoted form.
   */
  function FormatString(p: Printer, s: string): (r: string)
    ensures r == p.quote(s) ||
      (r == "`" + s + "`" && RawAllowed(p, s) && |p.quote(s)| != |s| + 2)
    ensures '\n' !in p.quote(s) ==> '\n' !in r
    ensures |p.quote(s)| == |s| + 2 ==> r == p.quote(s)
    ensures |p.quote(s)| != |s| + 2 && RawAllowed(p, s) ==> r == "`" + s + "`" && '\n' !in r
    ensures !RawAllowed(p, s) ==> r == p.quote(s)
  {
    var qs := p.quote(s);
    if |qs| == 1 + |s| + 1 then qs
    else if RawAllowed(p, s) then
      assert forall i | 0 <= i < |s| :: s[i] != '\n';
      "`" + s + "`"
    else qs
  }

  /** formatMapKey: string keys through formatString, other keys as `%v`. */
  function FormatMapKey(p: Printer, stringKeys: bool, k: string): string
  {
    if stringKeys then FormatString(p, k) else k
  }

  /** formatValue: a value with its type, as struct fields, elements and map entries show it. */
  function FormatValue(p: Printer, v: Value): string
  {
    match v
    case Nil => "nil"
    case Str(typ, s) => typ + "(" + FormatString(p, s) + ")"
    case Pointer(_, elemTyp, _, target) =>
      if target.None? then "nil" else "*" + elemTyp + "(" + Show(p, target.value) + ")"
    case Interface(typ, inner) =>
      if inner.None? then "nil" else typ + "(" + Show(p, inner.value) + ")"
    case Struct(typ, _) =>
      if typ == "time.Time" then "s" + Show(p, v) else typ + "(" + Show(p, v) + ")"
    case Slice(typ, _) => if |Items(v)| == 0 then typ + "{}" else typ + Show(p, v)
    case Array(typ, _) => if |Items(v)| == 0 then typ + "{}" else typ + Show(p, v)
    case Map(typ, _, _) => if |Entries(v)| == 0 then typ + "{}" else typ + Show(p, v)
    case Basic(_, typ, text) => typ + "(" + text + ")"
  }

  /** joinPath: a field name under a parent path. */
  function JoinPath(parent: string, field: string): (r: string)
    ensures parent == "" ==> r == field
    ensures parent != "" ==> |r| == |parent| + 1 + |field|
  {
    if parent == "" then field else parent + "." + field
  }

  /** A joined path splits at its last dot back into parent and field. */
  lemma JoinPathSplits(parent: string, field: string)
    requires parent != "" && '.' !in field
    ensures LastIndexOf(JoinPath(parent, field), '.') == Some(|parent|)
    ensures JoinPath(parent, field)[..|parent|] == parent
    ensures JoinPath(parent, field)[|parent| + 1..] == field
  {
    var r := JoinPath(parent, field);
    assert r[|parent|] == '.';
    assert r[|parent| + 1..] == field;
    var last := LastIndexOf(r, '.');
    assert last.Some?;
    forall j | last.value < j < |r|
      ensures r[j] != '.'
    {
      assert r[j] == r[last.value + 1..][j - last.value - 1];
    }
    forall j | |parent| < j < |r|
      ensures r[j] != '.'
    {
      assert r[j] == field[j - |parent| - 1];
    }
  }

  /** Joining is associative when the middle path is not empty or the outer one is. */
  lemma JoinPathAssociative(a: string, b: string, c: string)
    requires b != "" || a == ""
    ensures JoinPath(JoinPath(a, b), c) == JoinPath(a, JoinPath(b, c))
  {
    if a != "" {
      assert a + "." + b + "." + c == a + "." + (b + "." + c);
    }
  }

  // ---------------------------------------------------------------------
  // Lines
  // ---------------------------------------------------------------------

  /** diffIdentical, diffRemoved and diffInserted. */
  datatype Mode = Identical | Removed | Inserted

  /** The prefix of a line in the given mode. */
  function Prefix(mode: Mode): (r: string)
    ensures |r| == 2
  {
    match mode
    case Identical => "  "
    case Removed => "- "
    case Inserted => "+ "
  }

  /** Each mode has its own prefix. */
  lemma PrefixInjective(m1: Mode, m2: Mode)
    ensures Prefix(m1) == Prefix(m2) <==> m1 == m2
  {
    if m1 != m2 {
      assert Prefix(m1)[0] != Prefix(m2)[0];
    }
  }

  /** One tab per indentation level. */
  function Tabs(n: nat): string
  {
    if n == 0 then "" else Tabs(n - 1) + "\t"
  }

  /** A whole line: prefix, indentation, text and newline. */
  function LineText(mode: Mode, indent: nat, text: string): string
  {
    Prefix(mode) + Tabs(indent) + text + "\n"
  }

  lemma {:induction false} TabsAreTabs(n: nat)
    ensures |Tabs(n)| == n
    ensures forall i | 0 <= i < n :: Tabs(n)[i] == '\t'
  {
    if n > 0 {
      TabsAreTabs(n - 1);
    }
  }

  /**
   * A written line is its mode's prefix, then exactly indent tabs, then the
   * text, then a newline; a line whose text does not start with a tab gives
   * all three back.
   */
  lemma LineTextParts(mode: Mode, indent: nat, text: string)
    ensures |LineText(mode, indent, text)| == 2 + indent + |text| + 1
    ensures LineText(mode, indent, text)[..2] == Prefix(mode)
    ensures forall i | 2 <= i < 2 + indent :: LineText(mode, indent, text)[i] == '\t'
    ensures LineText(mode, indent, text)[2 + indent..2 + indent + |text|] == text
    ensures LineText(mode, indent, text)[2 + indent + |text|] == '\n'
  {
    TabsAreTabs(indent);
    var l := LineText(mode, indent, text);
    assert l == Prefix(mode) + Tabs(indent) + text + "\n";
    forall i | 2 <= i < 2 + indent
      ensures l[i] == '\t'
    {
      assert l[i] == Tabs(indent)[i - 2];
    }
  }

  /** Every line the renderer writes passes the tests' prefix check. */
  lemma LineTextProperPrefix(mode: Mode, indent: nat, text: string)
    ensures DiffCheck.ProperPrefix(LineText(mode, indent, text))
  {
    LineTextParts(mode, indent, text);
  }

  /** A line of a struct, slice or map body; these are written at indentation 1. */
  datatype Line = Line(mode: Mode, text: string)

  /** The text the lines are written as. */
  function Render(lines: seq<Line>): string
  {
    if |lines| == 0 then ""
    else Render(lines[..|lines| - 1]) + LineText(lines[|lines| - 1].mode, 1, lines[|lines| - 1].text)
  }

  lemma {:induction false} RenderAppend(x: seq<Line>, y: seq<Line>)
    ensures Render(x + y) == Render(x) + Render(y)
    decreases |y|
  {
    if |y| == 0 {
      assert x + y == x;
    } else {
      var front, last := y[..|y| - 1], y[|y| - 1];
      assert (x + y)[..|x + y| - 1] == x + front;
      assert (x + y)[|x + y| - 1] == last;
      RenderAppend(x, front);
      var lt := LineText(last.mode, 1, last.text);
      assert Render(x + y) == Render(x + front) + lt;
      assert Render(y) == Render(front) + lt;
      Assoc(Render(x), Render(front), lt);
    }
  }

  /** The texts of the lines not in the given mode: one side of the diff. */
  function Kept(lines: seq<Line>, drop: Mode): seq<string>
  {
    if |lines| == 0 then []
    else
      Kept(lines[..|lines| - 1], drop)
      + (if lines[|lines| - 1].mode == drop then [] else [lines[|lines| - 1].text])
  }

  lemma {:induction false} KeptAppend(x: seq<Line>, y: seq<Line>, drop: Mode)
    ensures Kept(x + y, drop) == Kept(x, drop) + Kept(y, drop)
    decreases |y|
  {
    if |y| == 0 {
      assert x + y == x;
    } else {
      assert (x + y)[..|x + y| - 1] == x + y[..|y| - 1];
      KeptAppend(x, y[..|y| - 1], drop);
    }
  }

  /** The text of a written value: what writeValue puts between the prefix and ",\n". */
  function ValueText(p: Printer, v: Value): string
  {
    match v
    case Nil => "nil"
    case Basic(_, _, text) => text
    case Str(_, s) => FormatString(p, s)
    case Pointer(_, _, _, target) => if target.None? then "nil" else "&" + Show(p, target.value)
    case _ => Show(p, v)
  }

  /** The line writeValue writes at indentation 1. */
  function ValueLine(p: Printer, v: Value, mode: Mode): string
  {
    LineText(mode, 1, ValueText(p, v) + ",")
  }

  /** A type line, "(", a body, and ")": how scalars and mismatched values are shown. */
  function Wrapped(mode: Mode, typ: string, body: string): string
  {
    Prefix(mode) + typ + "(\n" + body + ")"
  }

  /** A composite value's type, "{", its lines, and "}". */
  function Block(typ: string, lines: seq<Line>): string
  {
    "  " + typ + "{\n" + Render(lines) + "  }"
  }

  // ---------------------------------------------------------------------
  // What diffValues writes
  // ---------------------------------------------------------------------

  /**
   * A pointer or interface of which exactly one side is nil: the pointer's
   * type, or "any" for an interface, around a nil line and a value line.
   */
  function NilRefText(p: Printer, a: Value, b: Value): string
    requires (a.Pointer? && b.Pointer?) || (a.Interface? && b.Interface?)
  {
    if IsNilRef(a) == IsNilRef(b) then ""
    else
      Wrapped(Identical, if a.Pointer? then a.typ else "any",
        if IsNilRef(a) then LineText(Removed, 1, "nil") + ValueLine(p, b, Inserted)
        else ValueLine(p, a, Removed) + LineText(Inserted, 1, "nil"))
  }

  /** Two scalars of one type: the type, the old value removed and the new one inserted. */
  function ScalarText(p: Printer, a: Value, b: Value): string
    requires !a.Nil?
  {
    if a == b then "" else Wrapped(Identical, a.typ, ValueLine(p, a, Removed) + ValueLine(p, b, Inserted))
  }

  /** The text of a field line: name, formatted value and a comma. */
  function FieldText(p: Printer, name: string, v: Value): string
  {
    name + ": " + FormatValue(p, v) + ","
  }

  /** The lines of one field: none for an unexported field or a zero unchanged one. */
  function FieldLines(p: Printer, fa: Field, fb: Field): seq<Line>
  {
    if !fa.exported then []
    else if fa.value != fb.value then
      [Line(Removed, FieldText(p, fa.name, fa.value)), Line(Inserted, FieldText(p, fa.name, fb.value))]
    else if !IsZero(fa.value) then [Line(Identical, FieldText(p, fa.name, fa.value))]
    else []
  }

  /** The lines of the first n fields. */
  function FieldEntries(p: Printer, fas: seq<Field>, fbs: seq<Field>, n: nat): seq<Line>
    requires n <= |fas| && n <= |fbs|
  {
    if n == 0 then [] else FieldEntries(p, fas, fbs, n - 1) + FieldLines(p, fas[n - 1], fbs[n - 1])
  }

  function StructText(p: Printer, a: Value, b: Value): string
    requires a.Struct? && b.Struct? && |a.fields| == |b.fields|
  {
    if a == b then "" else Block(a.typ, FieldEntries(p, a.fields, b.fields, |a.fields|))
  }

  /** The line of an element. */
  function ElementText(p: Printer, v: Value): string
  {
    FormatValue(p, v) + ","
  }

  /** The lines of index i of two slices. */
  function IndexLines(p: Printer, xs: seq<Value>, ys: seq<Value>, i: nat): seq<Line>
    requires i < |xs| || i < |ys|
  {
    if i < |xs| && i < |ys| then
      if xs[i] != ys[i] then [Line(Removed, ElementText(p, xs[i])), Line(Inserted, ElementText(p, ys[i]))]
      else [Line(Identical, ElementText(p, xs[i]))]
    else if i < |xs| then [Line(Removed, ElementText(p, xs[i]))]
    else [Line(Inserted, ElementText(p, ys[i]))]
  }

  function Max(x: nat, y: nat): nat
  {
    if x < y then y else x
  }

  /** The lines of the first n indices. */
  function ListEntries(p: Printer, xs: seq<Value>, ys: seq<Value>, n: nat): seq<Line>
    requires n <= Max(|xs|, |ys|)
  {
    if n == 0 then [] else ListEntries(p, xs, ys, n - 1) + IndexLines(p, xs, ys, n - 1)
  }

  function ListText(p: Printer, a: Value, b: Value): string
    requires (a.Slice? || a.Array?) && (b.Slice? || b.Array?)
  {
    if a == b then ""
    else Block(a.typ, ListEntries(p, Items(a), Items(b), Max(|Items(a)|, |Items(b)|)))
  }

  /** The text of a map entry line. */
  function EntryText(p: Printer, stringKeys: bool, k: string, v: Value): string
  {
    FormatMapKey(p, stringKeys, k) + ": " + FormatValue(p, v) + ","
  }

  /** The lines of one key of either map. */
  function KeyLines(p: Printer, stringKeys: bool, ma: map<string, Value>, mb: map<string, Value>, k: string): seq<Line>
    requires k in ma || k in mb
  {
    if k !in ma then [Line(Inserted, EntryText(p, stringKeys, k, mb[k]))]
    else if k !in mb then [Line(Removed, EntryText(p, stringKeys, k, ma[k]))]
    else if ma[k] != mb[k] then
      [Line(Removed, EntryText(p, stringKeys, k, ma[k])), Line(Inserted, EntryText(p, stringKeys, k, mb[k]))]
    else [Line(Identical, EntryText(p, stringKeys, k, ma[k]))]
  }

  /** The lines of the keys ks, in order. */
  function MapEntries(p: Printer, stringKeys: bool, ma: map<string, Value>, mb: map<string, Value>, ks: seq<string>): seq<Line>
    requires forall i | 0 <= i < |ks| :: ks[i] in ma || ks[i] in mb
  {
    if |ks| == 0 then []
    else MapEntries(p, stringKeys, ma, mb, ks[..|ks| - 1]) + KeyLines(p, stringKeys, ma, mb, ks[|ks| - 1])
  }

  /** Two maps of one type: an entry for every key of either, in ascending order of `%v`. */
  ghost function MapText(p: Printer, a: Value, b: Value): string
    requires a.Map? && b.Map?
  {
    if a == b then ""
    else
      var keys := SortedOf(Entries(a).Keys + Entries(b).Keys);
      assert forall i | 0 <= i < |keys| :: keys[i] in Elements(keys);
      Block(a.typ, MapEntries(p, a.stringKeys, Entries(a), Entries(b), keys))
  }

  /** The branches of diffValues that do not recurse. */
  ghost function KindText(p: Printer, a: Value, b: Value): string
    requires !a.Nil? && SameType(a, b)
  {
    match a
    case Pointer(_, _, _, _) => NilRefText(p, a, b)
    case Interface(_, _) => NilRefText(p, a, b)
    case Struct(_, _) => StructText(p, a, b)
    case Slice(_, _) => ListText(p, a, b)
    case Array(_, _) => ListText(p, a, b)
    case Map(_, _, _) => MapText(p, a, b)
    case _ => ScalarText(p, a, b)
  }

  /** Everything diffValues writes for a and b. */
  ghost function DiffText(p: Printer, a: Value, b: Value): string
    decreases a
  {
    if a.Nil? || b.Nil? then
      if a.Nil? == b.Nil? then ""
      else if !a.Nil? then Wrapped(Removed, a.typ, ValueLine(p, a, Removed))
      else Wrapped(Inserted, b.typ, ValueLine(p, b, Inserted))
    else if !SameType(a, b) then
      Wrapped(Removed, a.typ, ValueLine(p, a, Removed)) + "\n" + Wrapped(Inserted, b.typ, ValueLine(p, b, Inserted))
    else if NilVersusEmpty(a, b) then ""
    else if a.Pointer? && a.target.Some? && b.target.Some? then
      if a.target.value == b.target.value then ""
      else "  &" + (if a.elemNamed then a.elemTyp else "") + "{\n" + DiffText(p, a.target.value, b.target.value) + "  }"
    else if a.Interface? && a.inner.Some? && b.inner.Some? then
      DiffText(p, a.inner.value, b.inner.value)
    else KindText(p, a, b)
  }

  /** What Diff returns: nothing for deeply equal values, otherwise what diffValues writes. */
  ghost function DiffOutput(p: Printer, a: Value, b: Value): string
  {
    if a == b then "" else DiffText(p, a, b)
  }

  // ---------------------------------------------------------------------
  // The renderer
  // ---------------------------------------------------------------------

  lemma Assoc(x: string, y: string, z: string)
    ensures x + y + z == x + (y + z)
  {
  }

  lemma BlockParts(s0: string, typ: string, lines: seq<Line>)
    ensures s0 + ("  " + typ + "{\n") + Render(lines) + "  }" == s0 + Block(typ, lines)
  {
  }

  lemma RenderSingle(l: Line)
    ensures Render([l]) == LineText(l.mode, 1, l.text)
  {
    assert [l][..0] == [];
  }

  lemma RenderPair(l1: Line, l2: Line)
    ensures Render([l1, l2]) == LineText(l1.mode, 1, l1.text) + LineText(l2.mode, 1, l2.text)
  {
    assert [l1, l2][..1] == [l1];
    RenderSingle(l1);
  }

  /** Writing one line wrote the rendering of the one-line list. */
  lemma WroteSingle(s0: string, l: Line, lines: seq<Line>)
    requires lines == [l]
    ensures s0 + LineText(l.mode, 1, l.text) == s0 + Render(lines)
  {
    RenderSingle(l);
  }

  /** Writing two lines wrote the rendering of the two-line list. */
  lemma WrotePair(s0: string, l1: Line, l2: Line, lines: seq<Line>)
    requires lines == [l1, l2]
    ensures s0 + LineText(l1.mode, 1, l1.text) + LineText(l2.mode, 1, l2.text) == s0 + Render(lines)
  {
    RenderPair(l1, l2);
  }

  /** One more index: the lines of the first i + 1 indices. */
  lemma ListEntriesStep(p: Printer, xs: seq<Value>, ys: seq<Value>, i: nat)
    requires i < Max(|xs|, |ys|)
    ensures ListEntries(p, xs, ys, i + 1) == ListEntries(p, xs, ys, i) + IndexLines(p, xs, ys, i)
  {
  }

  /** The builder holds s0 followed by the lines of the first n indices. */
  predicate ListWritten(sb: string, s0: string, p: Printer, xs: seq<Value>, ys: seq<Value>, n: nat)
  {
    n <= Max(|xs|, |ys|) && sb == s0 + Render(ListEntries(p, xs, ys, n))
  }

  /** Writing index i after the first i indices wrote the first i + 1. */
  lemma ListStep(s0: string, before: string, after: string, p: Printer, xs: seq<Value>, ys: seq<Value>, i: nat)
    requires i < Max(|xs|, |ys|)
    requires ListWritten(before, s0, p, xs, ys, i)
    requires after == before + Render(IndexLines(p, xs, ys, i))
    ensures ListWritten(after, s0, p, xs, ys, i + 1)
  {
    ListEntriesStep(p, xs, ys, i);
    WroteAppend(s0, before, after, ListEntries(p, xs, ys, i), IndexLines(p, xs, ys, i));
  }

  /** The builder holds s0 followed by the lines of the first n fields. */
  predicate FieldsWritten(sb: string, s0: string, p: Printer, fas: seq<Field>, fbs: seq<Field>, n: nat)
  {
    n <= |fas| && n <= |fbs| && sb == s0 + Render(FieldEntries(p, fas, fbs, n))
  }

  /** Before the first field the builder holds what it held. */
  lemma FieldsStart(s0: string, p: Printer, fas: seq<Field>, fbs: seq<Field>)
    ensures FieldsWritten(s0, s0, p, fas, fbs, 0)
  {
    assert s0 + Render([]) == s0;
  }

  /** After the last field the builder holds s0 followed by every field's lines. */
  lemma FieldsEnd(sb: string, s0: string, p: Printer, fas: seq<Field>, fbs: seq<Field>)
    requires |fas| == |fbs| && FieldsWritten(sb, s0, p, fas, fbs, |fas|)
    ensures sb == s0 + Render(FieldEntries(p, fas, fbs, |fas|))
  {
  }

  /** Writing field i after the first i fields wrote the first i + 1. */
  lemma FieldStep(s0: string, before: string, after: string, p: Printer, fas: seq<Field>, fbs: seq<Field>, i: nat)
    requires i < |fas| && i < |fbs|
    requires FieldsWritten(before, s0, p, fas, fbs, i)
    requires after == before + Render(FieldLines(p, fas[i], fbs[i]))
    ensures FieldsWritten(after, s0, p, fas, fbs, i + 1)
  {
    assert FieldEntries(p, fas, fbs, i + 1) == FieldEntries(p, fas, fbs, i) + FieldLines(p, fas[i], fbs[i]);
    WroteAppend(s0, before, after, FieldEntries(p, fas, fbs, i), FieldLines(p, fas[i], fbs[i]));
  }

  /** The builder holds s0 followed by the lines of the first n keys of ks. */
  predicate KeysWritten(sb: string, s0: string, p: Printer, stringKeys: bool, ma: map<string, Value>, mb: map<string, Value>,
    ks: seq<string>, n: nat)
  {
    n <= |ks| && (forall i | 0 <= i < n :: ks[i] in ma || ks[i] in mb)
    && sb == s0 + Render(MapEntries(p, stringKeys, ma, mb, ks[..n]))
  }

  /** Writing key i after the first i keys wrote the first i + 1. */
  lemma KeyStep(s0: string, before: string, after: string, p: Printer, stringKeys: bool,
    ma: map<string, Value>, mb: map<string, Value>, ks: seq<string>, i: nat)
    requires i < |ks| && (ks[i] in ma || ks[i] in mb)
    requires KeysWritten(before, s0, p, stringKeys, ma, mb, ks, i)
    requires after == before + Render(KeyLines(p, stringKeys, ma, mb, ks[i]))
    ensures KeysWritten(after, s0, p, stringKeys, ma, mb, ks, i + 1)
  {
    MapEntriesSnoc(p, stringKeys, ma, mb, ks, i);
    WroteAppend(s0, before, after, MapEntries(p, stringKeys, ma, mb, ks[..i]), KeyLines(p, stringKeys, ma, mb, ks[i]));
  }

  /** The entries of the first i + 1 keys: those of the first i, then key i's. */
  lemma MapEntriesSnoc(p: Printer, stringKeys: bool, ma: map<string, Value>, mb: map<string, Value>, ks: seq<string>, i: nat)
    requires i < |ks| && forall j | 0 <= j <= i :: ks[j] in ma || ks[j] in mb
    ensures MapEntries(p, stringKeys, ma, mb, ks[..i + 1])
      == MapEntries(p, stringKeys, ma, mb, ks[..i]) + KeyLines(p, stringKeys, ma, mb, ks[i])
  {
    SliceLast(ks, i);
  }

  /** The first i + 1 keys end with key i after the first i. */
  lemma SliceLast(ks: seq<string>, i: nat)
    requires i < |ks|
    ensures |ks[..i + 1]| == i + 1 && ks[..i + 1][..i] == ks[..i] && ks[..i + 1][i] == ks[i]
  {
  }

  /** Rendering x and then y renders x + y. */
  lemma WroteAppend(s0: string, before: string, after: string, x: seq<Line>, y: seq<Line>)
    requires before == s0 + Render(x)
    requires after == before + Render(y)
    ensures after == s0 + Render(x + y)
  {
    RenderAppend(x, y);
    Assoc(s0, Render(x), Render(y));
  }

  /** Past the invalid, type, nil-versus-empty and recursive branches, diffValues goes by kind. */
  lemma DiffTextIsKind(p: Printer, a: Value, b: Value)
    requires !a.Nil? && !b.Nil? && SameType(a, b) && !NilVersusEmpty(a, b)
    requires !(a.Pointer? && a.target.Some? && b.target.Some?)
    requires !(a.Interface? && a.inner.Some? && b.inner.Some?)
    ensures DiffText(p, a, b) == KindText(p, a, b)
  {
  }

  /** Three writes in a row append the concatenation of their texts. */
  lemma Wrote3(s0: string, s1: string, s2: string, s3: string, x1: string, x2: string, x3: string)
    requires s1 == s0 + x1 && s2 == s1 + x2 && s3 == s2 + x3
    ensures s3 == s0 + (x1 + x2 + x3)
  {
  }

  /** Four writes in a row append the concatenation of their texts. */
  lemma Wrote4(s0: string, s1: string, s2: string, s3: string, s4: string, x1: string, x2: string, x3: string, x4: string)
    requires s1 == s0 + x1 && s2 == s1 + x2 && s3 == s2 + x3 && s4 == s3 + x4
    ensures s4 == s0 + (x1 + x2 + x3 + x4)
  {
  }

  /** Five writes in a row append the concatenation of their texts. */
  lemma Wrote5(s0: string, s1: string, s2: string, s3: string, s4: string, s5: string,
    x1: string, x2: string, x3: string, x4: string, x5: string)
    requires s1 == s0 + x1 && s2 == s1 + x2 && s3 == s2 + x3 && s4 == s3 + x4 && s5 == s4 + x5
    ensures s5 == s0 + (x1 + x2 + x3 + x4 + x5)
  {
  }

  /** A wrapped body of two lines, piece by piece. */
  lemma WrappedParts(mode: Mode, typ: string, l1: string, l2: string)
    ensures Wrapped(mode, typ, l1 + l2) == (Prefix(mode) + typ) + "(\n" + l1 + l2 + ")"
  {
  }

  /** The diff context: the string builder every write appends to. */
  class DiffContext {

    var sb: string

    constructor ()
      ensures sb == ""
    {
      sb := "";
    }

    method WriteString(s: string)
      modifies this
      ensures sb == old(sb) + s
    {
      sb := sb + s;
    }

    /** writeType: the mode's prefix and the type. */
    method WriteType(typ: string, mode: Mode)
      modifies this
      ensures sb == old(sb) + (Prefix(mode) + typ)
    {
      var prefix := "  ";
      match mode {
        case Removed => prefix := "- ";
        case Inserted => prefix := "+ ";
        case Identical =>
      }
      sb := sb + (prefix + typ);
    }

    /** The mode's prefix followed by one tab per indentation level, as writeValue and writeLine build it. */
    static method LinePrefix(mode: Mode, indent: nat) returns (prefix: string)
      ensures prefix == Prefix(mode) + Tabs(indent)
    {
      prefix := "  ";
      match mode {
        case Removed => prefix := "- ";
        case Inserted => prefix := "+ ";
        case Identical =>
      }
      for i := 0 to indent
        invariant prefix == Prefix(mode) + Tabs(i)
      {
        prefix := prefix + "\t";
      }
    }

    /** writeValue: a line holding the value. */
    method WriteValue(p: Printer, v: Value, mode: Mode, indent: nat)
      modifies this
      ensures sb == old(sb) + LineText(mode, indent, ValueText(p, v) + ",")
    {
      var prefix := LinePrefix(mode, indent);
      var text;
      match v {
        case Nil => text := "nil";
        case Basic(_, _, t) => text := t;
        case Str(_, s) => text := FormatString(p, s);
        case Pointer(_, _, _, target) =>
          if target.None? {
            text := "nil";
          } else {
            text := "&" + Show(p, target.value);
          }
        case _ => text := Show(p, v);
      }
      sb := sb + (prefix + text + ",\n");
      assert prefix + text + ",\n" == LineText(mode, indent, text + ",");
    }

    /** writeLine: a line holding the text. */
    method WriteLine(mode: Mode, indent: nat, text: string)
      modifies this
      ensures sb == old(sb) + LineText(mode, indent, text)
    {
      var prefix := LinePrefix(mode, indent);
      sb := sb + (prefix + text + "\n");
    }

    /** A value shown alone: its type in the mode, then the value, in parentheses. */
    method WriteWrapped(p: Printer, v: Value, mode: Mode)
      requires !v.Nil?
      modifies this
      ensures sb == old(sb) + Wrapped(mode, v.typ, ValueLine(p, v, mode))
    {
      ghost var s0 := sb;
      WriteType(v.typ, mode);
      ghost var s1 := sb;
      WriteString("(\n");
      ghost var s2 := sb;
      WriteValue(p, v, mode, 1);
      ghost var s3 := sb;
      WriteString(")");
      Wrote4(s0, s1, s2, s3, sb, Prefix(mode) + v.typ, "(\n", ValueLine(p, v, mode), ")");
    }

    /** diffValues: writes the report for a against b. */
    method DiffValues(p: Printer, a: Value, b: Value)
      modifies this
      ensures sb == old(sb) + DiffText(p, a, b)
      decreases a, 1
    {
      if a.Nil? || b.Nil? {
        DiffInvalid(p, a, b);
      } else if !SameType(a, b) {
        DiffTypes(p, a, b);
      } else if NilVersusEmpty(a, b) {
        assert DiffText(p, a, b) == "";
        assert sb == sb + "";
      } else if a.Pointer? && a.target.Some? && b.target.Some? {
        DiffPointer(p, a, b);
      } else if a.Interface? && a.inner.Some? && b.inner.Some? {
        DiffValues(p, a.inner.value, b.inner.value);
      } else {
        DiffTextIsKind(p, a, b);
        DiffKind(p, a, b);
      }
    }

    /** The branch for an invalid value on either side. */
    method DiffInvalid(p: Printer, a: Value, b: Value)
      requires a.Nil? || b.Nil?
      modifies this
      ensures sb == old(sb) + DiffText(p, a, b)
    {
      if a.Nil? != b.Nil? {
        if !a.Nil? {
          WriteWrapped(p, a, Removed);
        } else {
          WriteWrapped(p, b, Inserted);
        }
      } else {
        assert sb == sb + "";
      }
    }

    /** The branch for values of different types: the first removed, then the second inserted. */
    method DiffTypes(p: Printer, a: Value, b: Value)
      requires !a.Nil? && !b.Nil? && !SameType(a, b)
      modifies this
      ensures sb == old(sb) + DiffText(p, a, b)
    {
      ghost var s0 := sb;
      WriteWrapped(p, a, Removed);
      ghost var s1 := sb;
      WriteString("\n");
      ghost var s2 := sb;
      WriteWrapped(p, b, Inserted);
      Wrote3(s0, s1, s2, sb, Wrapped(Removed, a.typ, ValueLine(p, a, Removed)), "\n",
        Wrapped(Inserted, b.typ, ValueLine(p, b, Inserted)));
    }

    /** Two non-nil pointers: the pointee's diff between "&" and its type, and braces. */
    method DiffPointer(p: Printer, a: Value, b: Value)
      requires a.Pointer? && a.target.Some? && b.Pointer? && b.target.Some? && SameType(a, b)
      modifies this
      ensures sb == old(sb) + DiffText(p, a, b)
      decreases a, 0
    {
      if a.target.value != b.target.value {
        ghost var s0 := sb;
        WriteString("  &");
        ghost var s1 := sb;
        if a.elemNamed {
          WriteString(a.elemTyp);
        }
        ghost var s2 := sb;
        assert s2 == s1 + (if a.elemNamed then a.elemTyp else "");
        WriteString("{\n");
        ghost var s3 := sb;
        DiffValues(p, a.target.value, b.target.value);
        ghost var s4 := sb;
        WriteString("  }");
        Wrote5(s0, s1, s2, s3, s4, sb, "  &", if a.elemNamed then a.elemTyp else "", "{\n",
          DiffText(p, a.target.value, b.target.value), "  }");
      } else {
        assert sb == sb + "";
      }
    }

    /** The branches that do not recurse, by kind. */
    method DiffKind(p: Printer, a: Value, b: Value)
      requires !a.Nil? && SameType(a, b)
      modifies this
      ensures sb == old(sb) + KindText(p, a, b)
    {
      match a
      case Pointer(_, _, _, _) => DiffNilRef(p, a, b);
      case Interface(_, _) => DiffNilRef(p, a, b);
      case Struct(_, _) => DiffStruct(p, a, b);
      case Slice(_, _) => DiffList(p, a, b);
      case Array(_, _) => DiffList(p, a, b);
      case Map(_, _, _) => DiffMap(p, a, b);
      case Basic(_, _, _) => DiffScalar(p, a, b);
      case Str(_, _) => DiffScalar(p, a, b);
    }

    /** The scalar branch. */
    method DiffScalar(p: Printer, a: Value, b: Value)
      requires !a.Nil?
      modifies this
      ensures sb == old(sb) + ScalarText(p, a, b)
    {
      if a != b {
        ghost var s0 := sb;
        WriteType(a.typ, Identical);
        ghost var s1 := sb;
        WriteString("(\n");
        ghost var s2 := sb;
        WriteValue(p, a, Removed, 1);
        ghost var s3 := sb;
        WriteValue(p, b, Inserted, 1);
        ghost var s4 := sb;
        WriteString(")");
        Wrote5(s0, s1, s2, s3, s4, sb, Prefix(Identical) + a.typ, "(\n", ValueLine(p, a, Removed), ValueLine(p, b, Inserted), ")");
        WrappedParts(Identical, a.typ, ValueLine(p, a, Removed), ValueLine(p, b, Inserted));
      }
    }

    /** The pointer and interface branch when one side is nil. */
    method DiffNilRef(p: Printer, a: Value, b: Value)
      requires (a.Pointer? && b.Pointer?) || (a.Interface? && b.Interface?)
      modifies this
      ensures sb == old(sb) + NilRefText(p, a, b)
    {
      if IsNilRef(a) != IsNilRef(b) {
        ghost var s0 := sb;
        ghost var typ := if a.Pointer? then a.typ else "any";
        if a.Pointer? {
          WriteType(a.typ, Identical);
        } else {
          WriteString("  any");
        }
        ghost var s1 := sb;
        WriteString("(\n");
        ghost var s2 := sb;
        ghost var s3, l1, l2;
        if IsNilRef(a) {
          l1, l2 := LineText(Removed, 1, "nil"), ValueLine(p, b, Inserted);
          WriteLine(Removed, 1, "nil");
          s3 := sb;
          WriteValue(p, b, Inserted, 1);
        } else {
          l1, l2 := ValueLine(p, a, Removed), LineText(Inserted, 1, "nil");
          WriteValue(p, a, Removed, 1);
          s3 := sb;
          WriteLine(Inserted, 1, "nil");
        }
        ghost var s4 := sb;
        WriteString(")");
        Wrote5(s0, s1, s2, s3, s4, sb, Prefix(Identical) + typ, "(\n", l1, l2, ")");
        WrappedParts(Identical, typ, l1, l2);
      }
    }

    /** The struct branch: the exported fields that changed or are not zero. */
    method DiffStruct(p: Printer, a: Value, b: Value)
      requires a.Struct? && SameType(a, b)
      modifies this
      ensures sb == old(sb) + StructText(p, a, b)
    {
      assert |a.fields| == |FieldShape(a.fields)| == |FieldShape(b.fields)| == |b.fields|;
      if a != b {
        ghost var s0 := sb;
        WriteString("  " + a.typ + "{\n");
        WriteFields(p, a.fields, b.fields);
        WriteString("  }");
        BlockParts(s0, a.typ, FieldEntries(p, a.fields, b.fields, |a.fields|));
      }
    }

    /** The loop of the struct branch, over the fields in declaration order. */
    method WriteFields(p: Printer, fas: seq<Field>, fbs: seq<Field>)
      requires |fas| == |fbs|
      modifies this
      ensures sb == old(sb) + Render(FieldEntries(p, fas, fbs, |fas|))
    {
      ghost var s0 := sb;
      FieldsStart(s0, p, fas, fbs);
      for i := 0 to |fas|
        invariant FieldsWritten(sb, s0, p, fas, fbs, i)
      {
        ghost var before := sb;
        WriteField(p, fas, fbs, i);
        FieldStep(s0, before, sb, p, fas, fbs, i);
      }
      FieldsEnd(sb, s0, p, fas, fbs);
    }

    /** One field of the struct branch: skipped when unexported, context when unchanged and not zero. */
    method WriteField(p: Printer, fas: seq<Field>, fbs: seq<Field>, i: nat)
      requires i < |fas| && i < |fbs|
      modifies this
      ensures sb == old(sb) + Render(FieldLines(p, fas[i], fbs[i]))
    {
      var fa, fb := fas[i], fbs[i];
      var changed := fa.exported && fa.value != fb.value;
      if !fa.exported {
        assert sb == sb + [];
        return;
      }
      if changed {
        WriteLine(Removed, 1, FieldText(p, fa.name, fa.value));
        WriteLine(Inserted, 1, FieldText(p, fa.name, fb.value));
        WrotePair(old(sb), Line(Removed, FieldText(p, fa.name, fa.value)), Line(Inserted, FieldText(p, fa.name, fb.value)),
          FieldLines(p, fa, fb));
      } else if !IsZero(fa.value) {
        WriteLine(Identical, 1, FieldText(p, fa.name, fa.value));
        WroteSingle(old(sb), Line(Identical, FieldText(p, fa.name, fa.value)), FieldLines(p, fa, fb));
      } else {
        assert sb == sb + [];
      }
    }

    /** The slice and array branch: one entry per index up to the longer length. */
    method DiffList(p: Printer, a: Value, b: Value)
      requires (a.Slice? || a.Array?) && (b.Slice? || b.Array?)
      modifies this
      ensures sb == old(sb) + ListText(p, a, b)
    {
      if a != b {
        ghost var s0 := sb;
        WriteString("  " + a.typ + "{\n");
        WriteElements(p, Items(a), Items(b));
        WriteString("  }");
        BlockParts(s0, a.typ, ListEntries(p, Items(a), Items(b), Max(|Items(a)|, |Items(b)|)));
      }
    }

    /** The loop of the slice branch, over the indices of the longer list. */
    method WriteElements(p: Printer, xs: seq<Value>, ys: seq<Value>)
      modifies this
      ensures sb == old(sb) + Render(ListEntries(p, xs, ys, Max(|xs|, |ys|)))
    {
      ghost var s0 := sb;
      var maxLen := |xs|;
      if |ys| > maxLen {
        maxLen := |ys|;
      }
      for i := 0 to maxLen
        invariant maxLen == Max(|xs|, |ys|)
        invariant ListWritten(sb, s0, p, xs, ys, i)
      {
        ghost var before := sb;
        WriteIndex(p, xs, ys, i);
        ListStep(s0, before, sb, p, xs, ys, i);
      }
    }

    /** One index of the slice branch. */
    method WriteIndex(p: Printer, xs: seq<Value>, ys: seq<Value>, i: nat)
      requires i < |xs| || i < |ys|
      modifies this
      ensures sb == old(sb) + Render(IndexLines(p, xs, ys, i))
    {
      if i < |xs| && i < |ys| {
        if xs[i] != ys[i] {
          WriteLine(Removed, 1, ElementText(p, xs[i]));
          WriteLine(Inserted, 1, ElementText(p, ys[i]));
          WrotePair(old(sb), Line(Removed, ElementText(p, xs[i])), Line(Inserted, ElementText(p, ys[i])), IndexLines(p, xs, ys, i));
        } else {
          WriteLine(Identical, 1, ElementText(p, xs[i]));
          WroteSingle(old(sb), Line(Identical, ElementText(p, xs[i])), IndexLines(p, xs, ys, i));
        }
      } else if i < |xs| {
        WriteLine(Removed, 1, ElementText(p, xs[i]));
        WroteSingle(old(sb), Line(Removed, ElementText(p, xs[i])), IndexLines(p, xs, ys, i));
      } else {
        WriteLine(Inserted, 1, ElementText(p, ys[i]));
        WroteSingle(old(sb), Line(Inserted, ElementText(p, ys[i])), IndexLines(p, xs, ys, i));
      }
    }

    /** The map branch: the union of the keys, sorted, each entry classified. */
    method DiffMap(p: Printer, a: Value, b: Value)
      requires a.Map? && SameType(a, b)
      modifies this
      ensures sb == old(sb) + MapText(p, a, b)
    {
      if a != b {
        ghost var s0 := sb;
        WriteString("  " + a.typ + "{\n");
        var ma, mb := Entries(a), Entries(b);
        var keys := KeyUnion(ma.Keys, mb.Keys);
        var sortedKeys := SortedKeys(keys);
        SortedUnique(sortedKeys, SortedOf(keys));
        assert forall j | 0 <= j < |sortedKeys| :: sortedKeys[j] in Elements(sortedKeys);
        WriteKeys(p, a.stringKeys, ma, mb, sortedKeys);
        WriteString("  }");
        BlockParts(s0, a.typ, MapEntries(p, a.stringKeys, ma, mb, sortedKeys));
      }
    }

    /** The loop of the map branch, over the sorted keys. */
    method WriteKeys(p: Printer, stringKeys: bool, ma: map<string, Value>, mb: map<string, Value>, ks: seq<string>)
      requires forall i | 0 <= i < |ks| :: ks[i] in ma || ks[i] in mb
      modifies this
      ensures sb == old(sb) + Render(MapEntries(p, stringKeys, ma, mb, ks))
    {
      ghost var s0 := sb;
      for i := 0 to |ks|
        invariant KeysWritten(sb, s0, p, stringKeys, ma, mb, ks, i)
      {
        ghost var before := sb;
        WriteKey(p, stringKeys, ma, mb, ks[i]);
        KeyStep(s0, before, sb, p, stringKeys, ma, mb, ks, i);
      }
      assert ks[..|ks|] == ks;
    }

    /** One key of the map branch: only in b, only in a, changed, or the same. */
    method WriteKey(p: Printer, stringKeys: bool, ma: map<string, Value>, mb: map<string, Value>, k: string)
      requires k in ma || k in mb
      modifies this
      ensures sb == old(sb) + Render(KeyLines(p, stringKeys, ma, mb, k))
    {
      var keyStr := FormatMapKey(p, stringKeys, k);
      if k !in ma {
        WriteLine(Inserted, 1, keyStr + ": " + FormatValue(p, mb[k]) + ",");
        WroteSingle(old(sb), Line(Inserted, EntryText(p, stringKeys, k, mb[k])), KeyLines(p, stringKeys, ma, mb, k));
      } else if k !in mb {
        WriteLine(Removed, 1, keyStr + ": " + FormatValue(p, ma[k]) + ",");
        WroteSingle(old(sb), Line(Removed, EntryText(p, stringKeys, k, ma[k])), KeyLines(p, stringKeys, ma, mb, k));
      } else if ma[k] != mb[k] {
        WriteLine(Removed, 1, keyStr + ": " + FormatValue(p, ma[k]) + ",");
        WriteLine(Inserted, 1, keyStr + ": " + FormatValue(p, mb[k]) + ",");
        WrotePair(old(sb), Line(Removed, EntryText(p, stringKeys, k, ma[k])), Line(Inserted, EntryText(p, stringKeys, k, mb[k])),
          KeyLines(p, stringKeys, ma, mb, k));
      } else {
        WriteLine(Identical, 1, keyStr + ": " + FormatValue(p, ma[k]) + ",");
        WroteSingle(old(sb), Line(Identical, EntryText(p, stringKeys, k, ma[k])), KeyLines(p, stringKeys, ma, mb, k));
      }
    }
  }

  /** The key set built by ranging over both maps' keys, in whatever order they come. */
  method KeyUnion(aKeys: set<string>, bKeys: set<string>) returns (keys: set<string>)
    ensures keys == aKeys + bKeys
  {
    keys := {};
    var rest := aKeys;
    while rest != {}
      invariant rest <= aKeys && keys == aKeys - rest
      decreases |rest|
    {
      var k :| k in rest;
      keys := keys + {k};
      rest := rest - {k};
    }
    rest := bKeys;
    while rest != {}
      invariant rest <= bKeys && keys == aKeys + (bKeys - rest)
      decreases |rest|
    {
      var k :| k in rest;
      keys := keys + {k};
      rest := rest - {k};
    }
  }

  /** Diff: "" for deeply equal values, otherwise the report diffValues writes. */
  method Diff(p: Printer, a: Value, b: Value) returns (s: string)
    ensures s == DiffOutput(p, a, b)
  {
    if a == b {
      return "";
    }
    var ctx := new DiffContext();
    ctx.DiffValues(p, a, b);
    s := ctx.sb;
  }

  // ---------------------------------------------------------------------
  // Properties of the report
  // ---------------------------------------------------------------------

  /**
   * The unequal pairs diffValues writes nothing for: a nil slice or map
   * against an empty one of the same type, directly or inside interfaces.
   */
  ghost predicate Silent(a: Value, b: Value)
    decreases a
  {
    !a.Nil? && !b.Nil? && SameType(a, b) &&
    (NilVersusEmpty(a, b) ||
     (a.Interface? && a.inner.Some? && b.inner.Some? && Silent(a.inner.value, b.inner.value)))
  }

  /** A value has the type of itself. */
  lemma SameTypeReflexive(a: Value)
    requires !a.Nil?
    ensures SameType(a, a)
  {
  }

  /** diffValues writes nothing for a value against itself. */
  lemma {:induction false} DiffTextSelf(p: Printer, a: Value)
    ensures DiffText(p, a, a) == ""
    decreases a
  {
    if !a.Nil? {
      SameTypeReflexive(a);
      if a.Interface? && a.inner.Some? {
        DiffTextSelf(p, a.inner.value);
      }
    }
  }

  /** A wrapped value is never empty. */
  lemma WrappedNotEmpty(mode: Mode, typ: string, body: string)
    ensures |Wrapped(mode, typ, body)| >= 2
  {
  }

  /**
   * diffValues writes nothing exactly for equal values and the silent
   * pairs: every other difference is reported.
   */
  lemma {:induction false} DiffTextEmptyIff(p: Printer, a: Value, b: Value)
    ensures DiffText(p, a, b) == "" <==> a == b || Silent(a, b)
    decreases a
  {
    if a == b {
      DiffTextSelf(p, a);
    } else if a.Interface? && b.Interface? && a.typ == b.typ && a.inner.Some? && b.inner.Some? {
      InterfaceText(p, a, b);
      DiffTextEmptyIff(p, a.inner.value, b.inner.value);
    } else {
      ReportedUnlessSilent(p, a, b);
    }
  }

  /** Two unequal interfaces of one type holding values: the report and silence are those of the values. */
  lemma InterfaceText(p: Printer, a: Value, b: Value)
    requires a != b && a.Interface? && b.Interface? && a.typ == b.typ && a.inner.Some? && b.inner.Some?
    ensures a.inner.value != b.inner.value
    ensures DiffText(p, a, b) == DiffText(p, a.inner.value, b.inner.value)
    ensures Silent(a, b) <==> Silent(a.inner.value, b.inner.value)
  {
  }

  /** Unequal values other than two interfaces holding values: nothing is written exactly for the silent pairs. */
  lemma ReportedUnlessSilent(p: Printer, a: Value, b: Value)
    requires a != b && !(a.Interface? && b.Interface? && a.typ == b.typ && a.inner.Some? && b.inner.Some?)
    ensures DiffText(p, a, b) == "" <==> Silent(a, b)
  {
    if a.Nil? || b.Nil? {
      if !a.Nil? {
        WrappedNotEmpty(Removed, a.typ, ValueLine(p, a, Removed));
      } else {
        WrappedNotEmpty(Inserted, b.typ, ValueLine(p, b, Inserted));
      }
    } else if !SameType(a, b) {
      WrappedNotEmpty(Removed, a.typ, ValueLine(p, a, Removed));
    } else if NilVersusEmpty(a, b) {
    } else if a.Pointer? && a.target.Some? && b.target.Some? {
      assert a.target.value != b.target.value;
    } else {
      DiffTextIsKind(p, a, b);
      KindTextNotEmpty(p, a, b);
    }
  }

  /** Every branch by kind writes something for unequal values. */
  lemma KindTextNotEmpty(p: Printer, a: Value, b: Value)
    requires !a.Nil? && SameType(a, b) && a != b
    requires !(a.Pointer? && a.target.Some? && b.target.Some?)
    requires !(a.Interface? && a.inner.Some? && b.inner.Some?)
    ensures KindText(p, a, b) != ""
  {
    match a
    case Pointer(_, _, _, _) =>
      WrappedNotEmpty(Identical, a.typ, "");
    case Interface(_, _) =>
      WrappedNotEmpty(Identical, "any", "");
    case Struct(_, _) =>
    case Slice(_, _) =>
    case Array(_, _) =>
    case Map(_, _, _) =>
    case Basic(_, _, _) =>
      WrappedNotEmpty(Identical, a.typ, "");
    case Str(_, _) =>
      WrappedNotEmpty(Identical, a.typ, "");
  }

  /**
   * Diff returns "" exactly for deeply equal values and the silent pairs,
   * not only for deeply equal ones.
   */
  lemma DiffEmptyIff(p: Printer, a: Value, b: Value)
    ensures DiffOutput(p, a, b) == "" <==> a == b || Silent(a, b)
  {
    DiffTextEmptyIff(p, a, b);
  }

  /** A nil slice against an empty one: unequal, and yet Diff reports nothing. */
  lemma NilVersusEmptySilent(p: Printer)
    ensures Slice("[]int", None) != Slice("[]int", Some([]))
    ensures DiffOutput(p, Slice("[]int", None), Slice("[]int", Some([]))) == ""
  {
    DiffEmptyIff(p, Slice("[]int", None), Slice("[]int", Some([])));
  }

  /** The element texts of a list, in order: one side of a list diff. */
  function ElementTexts(p: Printer, xs: seq<Value>): seq<string>
  {
    if |xs| == 0 then [] else ElementTexts(p, xs[..|xs| - 1]) + [ElementText(p, xs[|xs| - 1])]
  }

  function Min(x: nat, y: nat): nat
  {
    if x < y then x else y
  }

  lemma KeptSingle(l: Line, drop: Mode)
    ensures Kept([l], drop) == if l.mode == drop then [] else [l.text]
  {
    assert [l][..0] == [];
  }

  lemma KeptPair(l1: Line, l2: Line, drop: Mode)
    ensures Kept([l1, l2], drop)
      == (if l1.mode == drop then [] else [l1.text]) + (if l2.mode == drop then [] else [l2.text])
  {
    assert [l1, l2][..1] == [l1];
    KeptSingle(l1, drop);
  }

  /** The lines of one index keep each side's element, if it has one. */
  lemma KeptIndex(p: Printer, xs: seq<Value>, ys: seq<Value>, i: nat)
    requires i < |xs| || i < |ys|
    ensures Kept(IndexLines(p, xs, ys, i), Inserted) == if i < |xs| then [ElementText(p, xs[i])] else []
    ensures Kept(IndexLines(p, xs, ys, i), Removed) == if i < |ys| then [ElementText(p, ys[i])] else []
  {
    var lines := IndexLines(p, xs, ys, i);
    if |lines| == 2 {
      assert lines == [lines[0], lines[1]];
      KeptPair(lines[0], lines[1], Inserted);
      KeptPair(lines[0], lines[1], Removed);
    } else {
      assert lines == [lines[0]];
      KeptSingle(lines[0], Inserted);
      KeptSingle(lines[0], Removed);
    }
  }

  lemma ElementTextsStep(p: Printer, xs: seq<Value>, n: nat)
    requires n < |xs|
    ensures ElementTexts(p, xs[..n + 1]) == ElementTexts(p, xs[..n]) + [ElementText(p, xs[n])]
  {
    assert xs[..n + 1][..n] == xs[..n];
  }

  /** The lines of the first n indices give back the first n elements of each side. */
  ghost predicate SidesUpTo(p: Printer, xs: seq<Value>, ys: seq<Value>, n: nat)
    requires n <= Max(|xs|, |ys|)
  {
    && Kept(ListEntries(p, xs, ys, n), Inserted) == ElementTexts(p, xs[..Min(n, |xs|)])
    && Kept(ListEntries(p, xs, ys, n), Removed) == ElementTexts(p, ys[..Min(n, |ys|)])
  }

  /** The texts of the first i + 1 elements, as far as there are: those of the first i, then element i's if it exists. */
  lemma ElementTextsUpTo(p: Printer, xs: seq<Value>, i: nat)
    ensures ElementTexts(p, xs[..Min(i + 1, |xs|)])
      == ElementTexts(p, xs[..Min(i, |xs|)]) + (if i < |xs| then [ElementText(p, xs[i])] else [])
  {
    if i < |xs| {
      ElementTextsStep(p, xs, i);
    } else {
      assert xs[..Min(i + 1, |xs|)] == xs[..Min(i, |xs|)];
    }
  }

  /** Kept lines of two runs of lines, each known. */
  lemma KeptJoin(done: seq<Line>, next: seq<Line>, drop: Mode, texts: seq<string>, more: seq<string>)
    requires Kept(done, drop) == texts && Kept(next, drop) == more
    ensures Kept(done + next, drop) == texts + more
  {
    KeptAppend(done, next, drop);
  }

  /** The lines of one more index give back one more element of each side that has one. */
  lemma SidesStep(p: Printer, xs: seq<Value>, ys: seq<Value>, i: nat)
    requires i < Max(|xs|, |ys|) && SidesUpTo(p, xs, ys, i)
    ensures SidesUpTo(p, xs, ys, i + 1)
  {
    ListEntriesStep(p, xs, ys, i);
    KeptIndex(p, xs, ys, i);
    ElementTextsUpTo(p, xs, i);
    ElementTextsUpTo(p, ys, i);
    var done, next := ListEntries(p, xs, ys, i), IndexLines(p, xs, ys, i);
    KeptJoin(done, next, Inserted, ElementTexts(p, xs[..Min(i, |xs|)]), if i < |xs| then [ElementText(p, xs[i])] else []);
    KeptJoin(done, next, Removed, ElementTexts(p, ys[..Min(i, |ys|)]), if i < |ys| then [ElementText(p, ys[i])] else []);
  }

  /** The lines of the first n indices give back the first n elements of each side. */
  lemma ListEntriesSides(p: Printer, xs: seq<Value>, ys: seq<Value>, n: nat)
    requires n <= Max(|xs|, |ys|)
    ensures Kept(ListEntries(p, xs, ys, n), Inserted) == ElementTexts(p, xs[..Min(n, |xs|)])
    ensures Kept(ListEntries(p, xs, ys, n), Removed) == ElementTexts(p, ys[..Min(n, |ys|)])
  {
    for i := 0 to n
      invariant SidesUpTo(p, xs, ys, i)
    {
      SidesStep(p, xs, ys, i);
    }
  }

  /**
   * The removed and context lines of a slice or array diff are the first
   * list's elements, in order, and the inserted and context lines the
   * second's: each side can be read back from the report.
   */
  lemma ListSides(p: Printer, a: Value, b: Value)
    requires (a.Slice? || a.Array?) && (b.Slice? || b.Array?)
    ensures var lines := ListEntries(p, Items(a), Items(b), Max(|Items(a)|, |Items(b)|));
      Kept(lines, Inserted) == ElementTexts(p, Items(a)) && Kept(lines, Removed) == ElementTexts(p, Items(b))
  {
    var xs, ys := Items(a), Items(b);
    ListEntriesSides(p, xs, ys, Max(|xs|, |ys|));
    assert xs[..|xs|] == xs;
    assert ys[..|ys|] == ys;
  }

  /** The keys of ks that m holds, in order. */
  function KeysIn(ks: seq<string>, m: map<string, Value>): seq<string>
  {
    if |ks| == 0 then []
    else KeysIn(ks[..|ks| - 1], m) + (if ks[|ks| - 1] in m then [ks[|ks| - 1]] else [])
  }

  /** Keeping the keys a map holds keeps a sorted list sorted and leaves exactly those keys. */
  lemma {:induction false} KeysInSorted(ks: seq<string>, m: map<string, Value>)
    requires StrictlySorted(ks)
    ensures StrictlySorted(KeysIn(ks, m))
    ensures Elements(KeysIn(ks, m)) == Elements(ks) * m.Keys
  {
    if |ks| > 0 {
      var front, last := ks[..|ks| - 1], ks[|ks| - 1];
      assert StrictlySorted(front);
      KeysInSorted(front, m);
      var r := KeysIn(front, m);
      assert ks == front + [last];
      assert Elements(ks) == Elements(front) + {last};
      if last in m {
        LastAboveKept(ks, r);
        SnocSorted(r, last);
        assert Elements(r + [last]) == Elements(r) + {last};
      } else {
        assert r + [] == r;
      }
    }
  }

  /** The last key of a strictly sorted list is above every key kept from the ones before it. */
  lemma LastAboveKept(ks: seq<string>, r: seq<string>)
    requires StrictlySorted(ks) && |ks| > 0
    requires Elements(r) <= Elements(ks[..|ks| - 1])
    ensures forall i | 0 <= i < |r| :: Less(r[i], ks[|ks| - 1])
  {
    forall i | 0 <= i < |r|
      ensures Less(r[i], ks[|ks| - 1])
    {
      assert r[i] in Elements(r);
      var j :| 0 <= j < |ks| - 1 && ks[..|ks| - 1][j] == r[i];
      assert ks[j] == r[i];
    }
  }

  /** The entry texts of the keys of ks that m holds, in order: one side of a map diff. */
  function SideTexts(p: Printer, stringKeys: bool, m: map<string, Value>, ks: seq<string>): seq<string>
  {
    if |ks| == 0 then []
    else
      var k := ks[|ks| - 1];
      SideTexts(p, stringKeys, m, ks[..|ks| - 1]) + (if k in m then [EntryText(p, stringKeys, k, m[k])] else [])
  }

  /** A side depends only on the keys the map holds. */
  lemma {:induction false} SideTextsKeysIn(p: Printer, stringKeys: bool, m: map<string, Value>, ks: seq<string>)
    ensures SideTexts(p, stringKeys, m, ks) == SideTexts(p, stringKeys, m, KeysIn(ks, m))
  {
    if |ks| > 0 {
      var front, k := ks[..|ks| - 1], ks[|ks| - 1];
      SideTextsKeysIn(p, stringKeys, m, front);
      var r := KeysIn(front, m);
      if k in m {
        assert (r + [k])[..|r|] == r;
      } else {
        assert r + [] == r;
      }
    }
  }

  /** The lines of one key keep each map's entry for it, if it has one. */
  lemma KeptKey(p: Printer, stringKeys: bool, ma: map<string, Value>, mb: map<string, Value>, k: string)
    requires k in ma || k in mb
    ensures Kept(KeyLines(p, stringKeys, ma, mb, k), Inserted) == if k in ma then [EntryText(p, stringKeys, k, ma[k])] else []
    ensures Kept(KeyLines(p, stringKeys, ma, mb, k), Removed) == if k in mb then [EntryText(p, stringKeys, k, mb[k])] else []
  {
    var lines := KeyLines(p, stringKeys, ma, mb, k);
    if |lines| == 2 {
      assert lines == [lines[0], lines[1]];
      KeptPair(lines[0], lines[1], Inserted);
      KeptPair(lines[0], lines[1], Removed);
    } else {
      assert lines == [lines[0]];
      KeptSingle(lines[0], Inserted);
      KeptSingle(lines[0], Removed);
    }
  }

  /** The lines of the keys ks give back each map's entries among them. */
  lemma {:induction false} MapEntriesSides(p: Printer, stringKeys: bool, ma: map<string, Value>, mb: map<string, Value>,
    ks: seq<string>)
    requires forall i | 0 <= i < |ks| :: ks[i] in ma || ks[i] in mb
    ensures Kept(MapEntries(p, stringKeys, ma, mb, ks), Inserted) == SideTexts(p, stringKeys, ma, ks)
    ensures Kept(MapEntries(p, stringKeys, ma, mb, ks), Removed) == SideTexts(p, stringKeys, mb, ks)
  {
    if |ks| > 0 {
      var front, k := ks[..|ks| - 1], ks[|ks| - 1];
      var done, next := MapEntries(p, stringKeys, ma, mb, front), KeyLines(p, stringKeys, ma, mb, k);
      MapEntriesSides(p, stringKeys, ma, mb, front);
      KeptAppend(done, next, Inserted);
      KeptAppend(done, next, Removed);
      KeptKey(p, stringKeys, ma, mb, k);
    }
  }

  /** A map's entries in ascending order of their keys' `%v` text. */
  ghost function SortedEntries(p: Printer, stringKeys: bool, m: map<string, Value>): seq<string>
  {
    SideTexts(p, stringKeys, m, SortedOf(m.Keys))
  }

  /**
   * The removed and context lines of a map diff are the first map's
   * entries in ascending key order, and the inserted and context lines the
   * second map's.
   */
  lemma MapSides(p: Printer, a: Value, b: Value)
    requires a.Map? && b.Map?
    ensures var keys := SortedOf(Entries(a).Keys + Entries(b).Keys);
      (forall i | 0 <= i < |keys| :: keys[i] in Entries(a) || keys[i] in Entries(b)) &&
      Kept(MapEntries(p, a.stringKeys, Entries(a), Entries(b), keys), Inserted) == SortedEntries(p, a.stringKeys, Entries(a)) &&
      Kept(MapEntries(p, a.stringKeys, Entries(a), Entries(b), keys), Removed) == SortedEntries(p, a.stringKeys, Entries(b))
  {
    var ma, mb := Entries(a), Entries(b);
    var keys := SortedOf(ma.Keys + mb.Keys);
    assert forall i | 0 <= i < |keys| :: keys[i] in Elements(keys);
    MapEntriesSides(p, a.stringKeys, ma, mb, keys);
    OneSide(p, a.stringKeys, ma, keys, ma.Keys + mb.Keys);
    OneSide(p, a.stringKeys, mb, keys, ma.Keys + mb.Keys);
  }

  /** The side of m in a sorted list of keys covering m's keys is m's sorted entries. */
  lemma OneSide(p: Printer, stringKeys: bool, m: map<string, Value>, keys: seq<string>, all: set<string>)
    requires StrictlySorted(keys) && Elements(keys) == all && m.Keys <= all
    ensures SideTexts(p, stringKeys, m, keys) == SortedEntries(p, stringKeys, m)
  {
    KeysInSorted(keys, m);
    SortedUnique(KeysIn(keys, m), SortedOf(m.Keys));
    SideTextsKeysIn(p, stringKeys, m, keys);
  }

  /** A line among those of the first n fields is among those of the first m. */
  lemma FieldEntriesKeep(p: Printer, fas: seq<Field>, fbs: seq<Field>, n: nat, m: nat, l: Line)
    requires n <= m <= |fas| && m <= |fbs|
    requires l in FieldEntries(p, fas, fbs, n)
    ensures l in FieldEntries(p, fas, fbs, m)
  {
    for k := n to m
      invariant l in FieldEntries(p, fas, fbs, k)
    {
      FieldEntriesGrow(p, fas, fbs, k + 1);
      var z, w := FieldEntries(p, fas, fbs, k), FieldEntries(p, fas, fbs, k + 1);
      PrefixKeeps(z, w, l);
    }
  }

  /** The lines of the first m - 1 fields start the lines of the first m. */
  lemma FieldEntriesGrow(p: Printer, fas: seq<Field>, fbs: seq<Field>, m: nat)
    requires 0 < m <= |fas| && m <= |fbs|
    ensures |FieldEntries(p, fas, fbs, m - 1)| <= |FieldEntries(p, fas, fbs, m)|
    ensures FieldEntries(p, fas, fbs, m)[..|FieldEntries(p, fas, fbs, m - 1)|] == FieldEntries(p, fas, fbs, m - 1)
  {
    var z, y := FieldEntries(p, fas, fbs, m - 1), FieldLines(p, fas[m - 1], fbs[m - 1]);
    assert FieldEntries(p, fas, fbs, m) == z + y;
    assert (z + y)[..|z|] == z;
  }

  /** A line of a prefix is a line of the whole. */
  lemma PrefixKeeps(z: seq<Line>, w: seq<Line>, l: Line)
    requires |z| <= |w| && w[..|z|] == z && l in z
    ensures l in w
  {
    var j :| 0 <= j < |z| && z[j] == l;
    assert w[j] == z[j];
  }

  /** An exported field that changed is shown twice: its old value removed, its new value inserted. */
  lemma ChangedFieldShown(p: Printer, fas: seq<Field>, fbs: seq<Field>, i: nat)
    requires i < |fas| == |fbs|
    requires fas[i].exported && fas[i].value != fbs[i].value
    ensures Line(Removed, FieldText(p, fas[i].name, fas[i].value)) in FieldEntries(p, fas, fbs, |fas|)
    ensures Line(Inserted, FieldText(p, fas[i].name, fbs[i].value)) in FieldEntries(p, fas, fbs, |fas|)
  {
    var removed := Line(Removed, FieldText(p, fas[i].name, fas[i].value));
    var inserted := Line(Inserted, FieldText(p, fas[i].name, fbs[i].value));
    var z := FieldEntries(p, fas, fbs, i);
    assert FieldEntries(p, fas, fbs, i + 1) == z + [removed, inserted];
    FieldEntriesKeep(p, fas, fbs, i + 1, |fas|, removed);
    FieldEntriesKeep(p, fas, fbs, i + 1, |fas|, inserted);
  }

  /**
   * When every exported field is the same on both sides, the struct's lines
   * are all context: changes to unexported fields are not reported.
   */
  lemma {:induction false} UnexportedChangesHidden(p: Printer, fas: seq<Field>, fbs: seq<Field>, n: nat)
    requires n <= |fas| && n <= |fbs|
    requires forall i | 0 <= i < n :: fas[i].exported ==> fas[i].value == fbs[i].value
    ensures forall j | 0 <= j < |FieldEntries(p, fas, fbs, n)| :: FieldEntries(p, fas, fbs, n)[j].mode == Identical
  {
    if n > 0 {
      UnexportedChangesHidden(p, fas, fbs, n - 1);
    }
  }
}
