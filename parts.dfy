/**
 * The part tree of route/Parser.js, its depth-aware reducer `__compileParts`
 * (exposed as `compile`), and the serialiser `toString`, which runs the
 * reducer with the `part2Pattern` visitor.
 *
 * A JavaScript visitor is a closure that may update variables it captured
 * (the parameter-usage counter of `build`, the name list of the regular
 * expression compiler). Here a visitor receives that state and returns it
 * updated next to its text, and the reducer threads it in call order.
 */
module Parts {
  import Percent

  /** One node of the tree: literal text, a `/`, a named parameter with optional allowed values, or an optional group. */
  datatype Part =
    | Static(body: string, encoded: string)
    | Delimiter
    | Param(body: string, values: seq<Part>)
    | Optional(parts: seq<Part>)

  /** A visitor gets its state, a part and whether the call closes an Optional; it returns text and its new state. */
  type Visitor<!S> = (S, Part, bool) -> (string, S)

  /**
   * The reducer from index i on, with the text accumulated so far. An
   * Optional is compiled first; if its text is empty it is skipped whole,
   * otherwise the visitor is called to open and to close it around that
   * text. A Param whose text is empty below the top level abandons the
   * whole sequence being reduced, which then yields "". So the text so far
   * is only ever extended, except by that abandonment, which cannot happen
   * at the top level.
   */
  function CompileFrom<S>(parts: seq<Part>, visit: Visitor<S>, depth: nat, i: nat, acc: string, st: S): (r: (string, S))
    requires i <= |parts|
    ensures acc <= r.0 || (depth > 0 && r.0 == "")
    decreases parts, |parts| - i
  {
    if i == |parts| then (acc, st)
    else if parts[i].Optional? then
      var (chunk, st1) := CompileFrom(parts[i].parts, visit, depth + 1, 0, "", st);
      if chunk == "" then CompileFrom(parts, visit, depth, i + 1, acc, st1)
      else
        var (open, st2) := visit(st1, parts[i], false);
        var (close, st3) := visit(st2, parts[i], true);
        CompileFrom(parts, visit, depth, i + 1, acc + open + chunk + close, st3)
    else
      var (chunk, st1) := visit(st, parts[i], false);
      if parts[i].Param? && chunk == "" && depth > 0 then ("", st1)
      else CompileFrom(parts, visit, depth, i + 1, acc + chunk, st1)
  }

  /** `__compileParts(parts, func, depth)`. */
  function Compile<S>(parts: seq<Part>, visit: Visitor<S>, st: S, depth: nat): (string, S) {
    CompileFrom(parts, visit, depth, 0, "", st)
  }

  /** The characters `escape` puts a backslash before. */
  const SyntaxChars: string := "\\()<>,=*/"

  function EscapeChar(c: char): string {
    if c in SyntaxChars then ['\\', c] else [c]
  }

  /** `escape`: a backslash before every syntax character. */
  function Escape(s: string): (r: string)
    ensures |r| >= |s|
  {
    if s == [] then [] else EscapeChar(s[0]) + Escape(s[1..])
  }

  /** The `body` field of a part; only Static and Param parts have one. */
  function BodyOf(p: Part): string {
    match p
    case Static(b, _) => b
    case Param(b, _) => b
    case _ => ""
  }

  function EscapedBodies(values: seq<Part>): (r: seq<string>)
    ensures |r| == |values|
  {
    if values == [] then [] else [Escape(BodyOf(values[0]))] + EscapedBodies(values[1..])
  }

  /** `items.join(sep)`. */
  function Join(items: seq<string>, sep: string): string {
    if items == [] then ""
    else if |items| == 1 then items[0]
    else items[0] + sep + Join(items[1..], sep)
  }

  /** `part2Pattern`: the visitor that renders a part back to pattern text. */
  function PartToPattern(u: (), part: Part, closing: bool): (string, ()) {
    match part
    case Optional(_) => (if closing then ")" else "(", ())
    case Param(name, values) =>
      if values == [] then ("<" + Escape(name) + ">", ())
      else ("<" + Escape(name) + "=" + Join(EscapedBodies(values), ",") + ">", ())
    case Delimiter => ("/", ())
    case Static(body, _) => (Escape(body), ())
  }

  /** Parser `toString`. */
  function ToString(parts: seq<Part>): string {
    Compile(parts, PartToPattern, (), 0).0
  }

  /**
   * The shape every successful parse has: a Static holds non-empty text and
   * its percent-encoding, a Param has a non-empty name and only Static
   * values, an Optional is not empty.
   */
  predicate Good(p: Part) {
    match p
    case Static(body, encoded) => body != [] && encoded == Percent.Encode(body)
    case Delimiter => true
    case Param(name, values) => name != [] && forall v | v in values :: v.Static? && Good(v)
    case Optional(parts) => parts != [] && forall q | q in parts :: Good(q)
  }

  predicate AllGood(ps: seq<Part>) {
    forall p | p in ps :: Good(p)
  }

  predicate NoAdjacentStatics(ps: seq<Part>) {
    forall i | 0 <= i < |ps| - 1 :: !(ps[i].Static? && ps[i + 1].Static?)
  }

  /**
   * A good tree that text can spell back exactly: no two Statics side by
   * side (their texts would run together) and no `%` in Static text (the
   * parser would decode it).
   */
  predicate Canonical(p: Part) {
    match p
    case Static(body, encoded) => body != [] && '%' !in body && encoded == Percent.Encode(body)
    case Delimiter => true
    case Param(name, values) => name != [] && forall v | v in values :: v.Static? && Canonical(v)
    case Optional(parts) =>
      parts != [] && NoAdjacentStatics(parts) && forall q | q in parts :: Canonical(q)
  }

  predicate CanonicalSeq(ps: seq<Part>) {
    ps != [] && NoAdjacentStatics(ps) && forall p | p in ps :: Canonical(p)
  }

  /** The text of a part written directly, without the reducer. */
  function Serialize(p: Part): string
    decreases p, 1
  {
    match p
    case Static(body, _) => Escape(body)
    case Delimiter => "/"
    case Param(name, values) =>
      if values == [] then "<" + Escape(name) + ">"
      else "<" + Escape(name) + "=" + Join(EscapedBodies(values), ",") + ">"
    case Optional(parts) => "(" + SerializeSeq(parts) + ")"
  }

  function SerializeSeq(ps: seq<Part>): string
    decreases ps, 0
  {
    if ps == [] then "" else Serialize(ps[0]) + SerializeSeq(ps[1..])
  }

  lemma CanonicalIsGood(p: Part)
    requires Canonical(p)
    ensures Good(p)
  {
    match p
    case Static(_, _) =>
    case Delimiter =>
    case Param(_, values) =>
      forall v | v in values ensures v.Static? && Good(v) { CanonicalIsGood(v); }
    case Optional(parts) =>
      forall q | q in parts ensures Good(q) { CanonicalIsGood(q); }
  }

  lemma {:induction false} SerializeNonEmpty(p: Part)
    requires Good(p)
    ensures Serialize(p) != ""
  {
    match p
    case Static(body, _) =>
    case Delimiter =>
    case Param(_, _) =>
    case Optional(parts) =>
  }

  /** One reducer step over an Optional whose content renders to non-empty text. */
  lemma CompileOptionalStep(ps: seq<Part>, depth: nat, i: nat, acc: string)
    requires i < |ps| && ps[i].Optional? && Good(ps[i])
    requires CompileFrom(ps[i].parts, PartToPattern, depth + 1, 0, "", ()) == ("" + SerializeSeq(ps[i].parts[0..]), ())
    ensures CompileFrom(ps, PartToPattern, depth, i, acc, ())
         == CompileFrom(ps, PartToPattern, depth, i + 1, acc + Serialize(ps[i]), ())
  {
    var p := ps[i];
    var inner := SerializeSeq(p.parts);
    assert p.parts[0..] == p.parts;
    assert "" + inner == inner;
    assert inner != "" by {
      assert p.parts[0] in p.parts;
      SerializeNonEmpty(p.parts[0]);
    }
    assert PartToPattern((), p, false) == ("(", ());
    assert PartToPattern((), p, true) == (")", ());
    assert acc + "(" + inner + ")" == acc + Serialize(p);
  }

  /** One reducer step over a good part that is not an Optional. */
  lemma CompilePlainStep(ps: seq<Part>, depth: nat, i: nat, acc: string)
    requires i < |ps| && !ps[i].Optional? && Good(ps[i])
    ensures CompileFrom(ps, PartToPattern, depth, i, acc, ())
         == CompileFrom(ps, PartToPattern, depth, i + 1, acc + Serialize(ps[i]), ())
  {
    assert PartToPattern((), ps[i], false) == (Serialize(ps[i]), ());
    SerializeNonEmpty(ps[i]);
  }

  /**
   * On a good tree the reducer drops nothing: `toString` equals the direct
   * rendering, at any depth and from any index on.
   */
  lemma {:induction false} CompilePatternIsSerialize(ps: seq<Part>, depth: nat, i: nat, acc: string)
    requires i <= |ps| && AllGood(ps)
    ensures CompileFrom(ps, PartToPattern, depth, i, acc, ()) == (acc + SerializeSeq(ps[i..]), ())
    decreases ps, |ps| - i
  {
    if i == |ps| {
      assert ps[i..] == [];
      assert acc + SerializeSeq(ps[i..]) == acc;
    } else {
      var p := ps[i];
      assert p in ps;
      if p.Optional? {
        CompilePatternIsSerialize(p.parts, depth + 1, 0, "");
        CompileOptionalStep(ps, depth, i, acc);
      } else {
        CompilePlainStep(ps, depth, i, acc);
      }
      CompilePatternIsSerialize(ps, depth, i + 1, acc + Serialize(p));
      SerializeSeqAt(ps, i, acc);
    }
  }

  /** The text from index i on: the part at i, then the rest after it. */
  lemma SerializeSeqAt(ps: seq<Part>, i: nat, acc: string)
    requires i < |ps|
    ensures acc + Serialize(ps[i]) + SerializeSeq(ps[i + 1..]) == acc + SerializeSeq(ps[i..])
  {
    assert ps[i..] == [ps[i]] + ps[i + 1..];
  }

  /** `toString` of a good tree is the concatenation of its parts' texts. */
  lemma ToStringIsSerialize(ps: seq<Part>)
    requires AllGood(ps)
    ensures ToString(ps) == SerializeSeq(ps)
  {
    CompilePatternIsSerialize(ps, 0, 0, "");
    assert ps[0..] == ps;
  }
}
