/**
 * The regular-expression source text that route/Pattern.js compiles a part
 * tree to (`__compileRegExp`, `__compileStaticPart`, `__reduceChar`), with the
 * list of capture names. The regular-expression engine is not modelled; a
 * small acceptance relation for the per-character fragments of Static text
 * states what those fragments are meant to match.
 */
module RegexSource {
  import opened Wrappers
  import Percent
  import opened Parts
  import Flags

  /** The characters the `regesc` escaper puts a backslash before. */
  const RegexSpecials: string := "-/\\^$*+?.()|[]{}"

  /** `escape` (`regesc`) of one character. */
  function RegexEscape(c: char): (r: string)
    ensures r == [c] || r == ['\\', c]
  {
    if c in RegexSpecials then ['\\', c] else [c]
  }

  /**
   * `__reduceChar`: a character that is its own encoding stands for itself;
   * any other also accepts its percent-encoding (with `ignoreCase`, the
   * encodings of its lower- and upper-case forms).
   */
  function ReduceChar(ignoreCase: bool, result: string, c: char): string {
    if Percent.EncodeChar(c) == [c] then result + RegexEscape(c)
    else if ignoreCase then
      result + "(?:" + RegexEscape(c) + "|" + Percent.EncodeChar(Flags.ToLower(c)) + "|"
        + Percent.EncodeChar(Flags.ToUpper(c)) + ")"
    else result + "(?:" + RegexEscape(c) + "|" + Percent.EncodeChar(c) + ")"
  }

  /** `_.reduce(text, __reduceChar, '')`. */
  function StaticSource(ignoreCase: bool, text: string): string
    decreases |text|
  {
    if text == [] then "" else ReduceChar(ignoreCase, StaticSource(ignoreCase, text[..|text| - 1]), text[|text| - 1])
  }

  /**
   * `_.reduce` walks text one UTF-16 code unit at a time, so a character
   * above U+FFFF reaches `__reduceChar` as half of a surrogate pair, on which
   * `encodeURIComponent` throws URIError.
   */
  predicate SingleUnits(text: string) {
    forall i | 0 <= i < |text| :: (text[i] as int) < 0x10000
  }

  /**
   * Whether `__compileStaticPart` returns for a body as written: decoding it
   * a second time succeeds, and no decoded character is split in two.
   */
  predicate Recompiles(body: string) {
    match Percent.Decode(body)
    case None => false
    case Some(text) => SingleUnits(text)
  }

  /**
   * `__compileStaticPart` as written: the body, already decoded by the
   * parser, is decoded a second time before its characters are reduced.
   * None is the URIError it throws.
   */
  function CompileStaticPartAsWritten(ignoreCase: bool, body: string): (r: Option<string>)
    ensures r.Some? <==> Recompiles(body)
    ensures r.Some? ==> r.value == RenderAll(Fragments(ignoreCase, Percent.Decode(body).value))
  {
    match Percent.Decode(body)
    case None => None
    case Some(text) =>
      StaticSourceRenders(ignoreCase, text);
      if SingleUnits(text) then Some(StaticSource(ignoreCase, text)) else None
  }

  /** The text a Static body adds to the expression; nothing when compiling it throws. */
  function StaticPartSource(ignoreCase: bool, body: string): string {
    match CompileStaticPartAsWritten(ignoreCase, body)
    case Some(source) => source
    case None => ""
  }

  /** `__compileStaticPart` as intended: the characters of the body, which the parser decoded once. */
  function CompileStaticPart(ignoreCase: bool, body: string): string {
    StaticSource(ignoreCase, body)
  }

  /** On a body without `%` and without characters above U+FFFF, the code as written does what was intended. */
  lemma AsWrittenAgrees(ignoreCase: bool, body: string)
    requires '%' !in body && SingleUnits(body)
    ensures CompileStaticPartAsWritten(ignoreCase, body) == Some(CompileStaticPart(ignoreCase, body))
  {
    Percent.DecodeWithoutPercent(body);
  }

  /** One character's piece of the expression: a literal, or a literal with alternative encodings. */
  datatype Fragment = Lit(c: char) | Alt(c: char, encodings: seq<string>)

  function CharFragment(ignoreCase: bool, c: char): Fragment {
    if Percent.EncodeChar(c) == [c] then Lit(c)
    else if ignoreCase then Alt(c, [Percent.EncodeChar(Flags.ToLower(c)), Percent.EncodeChar(Flags.ToUpper(c))])
    else Alt(c, [Percent.EncodeChar(c)])
  }

  function Alternatives(encodings: seq<string>): string {
    if encodings == [] then "" else "|" + encodings[0] + Alternatives(encodings[1..])
  }

  /** The text of a fragment in the expression. */
  function Render(f: Fragment): string {
    match f
    case Lit(c) => RegexEscape(c)
    case Alt(c, encodings) => "(?:" + RegexEscape(c) + Alternatives(encodings) + ")"
  }

  /** One fragment per character, in order. */
  function Fragments(ignoreCase: bool, text: string): (r: seq<Fragment>)
    ensures |r| == |text|
  {
    seq(|text|, i requires 0 <= i < |text| => CharFragment(ignoreCase, text[i]))
  }

  lemma FragmentsTail(ignoreCase: bool, text: string)
    requires text != []
    ensures Fragments(ignoreCase, text)[0] == CharFragment(ignoreCase, text[0])
    ensures Fragments(ignoreCase, text)[1..] == Fragments(ignoreCase, text[1..])
  {
    var fs, ft := Fragments(ignoreCase, text), Fragments(ignoreCase, text[1..]);
    forall k | 0 <= k < |ft| ensures fs[1..][k] == ft[k] {
      assert text[1..][k] == text[k + 1];
    }
  }

  function RenderAll(fs: seq<Fragment>): string {
    if fs == [] then "" else RenderAll(fs[..|fs| - 1]) + Render(fs[|fs| - 1])
  }

  /** The source text of a Static is the rendering of one fragment per character. */
  lemma ReduceCharRenders(ignoreCase: bool, result: string, c: char)
    ensures ReduceChar(ignoreCase, result, c) == result + Render(CharFragment(ignoreCase, c))
  {
    var e := RegexEscape(c);
    if Percent.EncodeChar(c) == [c] {
    } else if ignoreCase {
      AlternativesTwo(result, e, Percent.EncodeChar(Flags.ToLower(c)), Percent.EncodeChar(Flags.ToUpper(c)));
    } else {
      AlternativesOne(result, e, Percent.EncodeChar(c));
    }
  }

  lemma AlternativesOne(result: string, e: string, a: string)
    ensures result + "(?:" + e + "|" + a + ")" == result + ("(?:" + e + Alternatives([a]) + ")")
  {
    assert [a][1..] == [];
    assert Alternatives([a]) == "|" + a + "";
  }

  lemma AlternativesTwo(result: string, e: string, a: string, b: string)
    ensures result + "(?:" + e + "|" + a + "|" + b + ")" == result + ("(?:" + e + Alternatives([a, b]) + ")")
  {
    assert [a, b][1..] == [b] && [b][1..] == [];
    assert Alternatives([b]) == "|" + b + "";
    assert Alternatives([a, b]) == "|" + a + ("|" + b + "");
  }

  lemma {:induction false} StaticSourceRenders(ignoreCase: bool, text: string)
    ensures StaticSource(ignoreCase, text) == RenderAll(Fragments(ignoreCase, text))
    decreases |text|
  {
    if text != [] {
      var init := text[..|text| - 1];
      var c := text[|text| - 1];
      StaticSourceRenders(ignoreCase, init);
      var fs := Fragments(ignoreCase, text);
      assert fs[..|fs| - 1] == Fragments(ignoreCase, init);
      ReduceCharRenders(ignoreCase, StaticSource(ignoreCase, init), c);
    }
  }

  /** What a fragment matches: its character, or one of its encodings. */
  predicate Accepts(f: Fragment, s: string) {
    match f
    case Lit(c) => s == [c]
    case Alt(c, encodings) => s == [c] || s in encodings
  }

  /** The fragments in a row match `s` split into consecutive pieces. */
  predicate AcceptsAll(fs: seq<Fragment>, s: string)
    decreases |fs|
  {
    if fs == [] then s == []
    else exists k | 0 <= k <= |s| :: Accepts(fs[0], s[..k]) && AcceptsAll(fs[1..], s[k..])
  }

  /** Every character's fragment matches the character itself and its percent-encoding. */
  lemma CharFragmentAccepts(ignoreCase: bool, c: char)
    ensures Accepts(CharFragment(ignoreCase, c), [c])
    ensures Accepts(CharFragment(ignoreCase, c), Percent.EncodeChar(c))
  {
    if !ignoreCase || Percent.EncodeChar(c) == [c] {
    } else {
      assert Flags.ToLower(c) == c || Flags.ToUpper(c) == c;
    }
  }

  /** The fragments of `text` in a row match `text` itself. */
  lemma {:induction false} FragmentsAcceptText(ignoreCase: bool, text: string)
    ensures AcceptsAll(Fragments(ignoreCase, text), text)
    decreases |text|
  {
    if text != [] {
      var fs := Fragments(ignoreCase, text);
      CharFragmentAccepts(ignoreCase, text[0]);
      FragmentsTail(ignoreCase, text);
      FragmentsAcceptText(ignoreCase, text[1..]);
      assert Accepts(fs[0], text[..1]) && AcceptsAll(fs[1..], text[1..]);
    }
  }

  /** The fragments of `text` in a row match its percent-encoding, the text `build` writes. */
  lemma {:induction false} FragmentsAcceptEncoding(ignoreCase: bool, text: string)
    ensures AcceptsAll(Fragments(ignoreCase, text), Percent.Encode(text))
    decreases |text|
  {
    if text != [] {
      var fs := Fragments(ignoreCase, text);
      var head := Percent.EncodeChar(text[0]);
      var tail := Percent.Encode(text[1..]);
      assert Percent.Encode(text) == head + tail;
      CharFragmentAccepts(ignoreCase, text[0]);
      FragmentsTail(ignoreCase, text);
      FragmentsAcceptEncoding(ignoreCase, text[1..]);
      AcceptsCons(fs, head, tail);
    }
  }

  lemma AcceptsCons(fs: seq<Fragment>, head: string, tail: string)
    requires fs != [] && Accepts(fs[0], head) && AcceptsAll(fs[1..], tail)
    ensures AcceptsAll(fs, head + tail)
  {
    var s := head + tail;
    assert s[..|head|] == head && s[|head|..] == tail;
  }

  /** Fragments that are all literals match exactly the characters they spell. */
  lemma {:induction false} LiteralsAcceptOnly(text: string, s: string)
    requires forall i | 0 <= i < |text| :: Percent.EncodeChar(text[i]) == [text[i]]
    ensures AcceptsAll(Fragments(false, text), s) ==> s == text
    decreases |text|
  {
    if text != [] && AcceptsAll(Fragments(false, text), s) {
      var fs := Fragments(false, text);
      FragmentsTail(false, text);
      var k :| 0 <= k <= |s| && Accepts(fs[0], s[..k]) && AcceptsAll(fs[1..], s[k..]);
      assert Percent.EncodeChar(text[0]) == [text[0]];
      assert s[..k] == [text[0]];
      var rest := text[1..];
      assert forall i | 0 <= i < |rest| :: Percent.EncodeChar(rest[i]) == [rest[i]] by {
        forall i | 0 <= i < |rest| ensures Percent.EncodeChar(rest[i]) == [rest[i]] {
          assert rest[i] == text[i + 1];
        }
      }
      LiteralsAcceptOnly(rest, s[k..]);
      assert s == s[..k] + s[k..];
    }
  }


  /**
   * The state `__compileRegExp` threads through the reducer: whether case is
   * ignored, the `names` list, the `using` set, and whether a visit has
   * thrown URIError, which leaves the constructor without a result.
   */
  datatype RegexState = RegexState(ignoreCase: bool, names: seq<string>, using: set<string>, failed: bool)

  /** Whether every allowed value of a Param compiles. */
  predicate ValuesRecompile(values: seq<Part>) {
    forall i | 0 <= i < |values| :: Recompiles(BodyOf(values[i]))
  }

  /** `_.map(values, __compileStaticPart).join('|')`. */
  function ValueSources(ignoreCase: bool, values: seq<Part>): string {
    if values == [] then ""
    else if |values| == 1 then StaticPartSource(ignoreCase, BodyOf(values[0]))
    else StaticPartSource(ignoreCase, BodyOf(values[0])) + "|" + ValueSources(ignoreCase, values[1..])
  }

  /** The visitor `__compileRegExp` hands to `compile`. */
  function RegexVisit(st: RegexState, part: Part, closing: bool): (r: (string, RegexState))
    ensures r.1.ignoreCase == st.ignoreCase
    ensures r.1.failed <==> st.failed || (part.Static? && !Recompiles(part.body))
                                      || (part.Param? && !ValuesRecompile(part.values))
    ensures r.1.names == st.names + (if part.Param? then [part.body] else [])
    ensures r.0 == "" ==> part.Static? && (part.body == [] || !Recompiles(part.body))
  {
    match part
    case Delimiter => (RegexEscape('/'), st)
    case Static(body, _) => (StaticPartSource(st.ignoreCase, body), st.(failed := st.failed || !Recompiles(body)))
    case Param(name, values) =>
      var st1 := st.(names := st.names + [name], using := st.using + {name},
                     failed := st.failed || !ValuesRecompile(values));
      if values == [] then ("([^/]+?)", st1)
      else ("(" + ValueSources(st.ignoreCase, values) + ")", st1)
    case Optional(_) => (if closing then ")?" else "(?:", st)
  }

  /** The compiled result: the expression's source and flag, and the capture names. */
  datatype Compiled = Compiled(source: string, ignoreCase: bool, names: seq<string>, using: set<string>)

  /** A param is set when its value is truthy. */
  predicate IsSet(params: Flags.Params, key: string) {
    Flags.Get(params, key) == Some(true)
  }

  /**
   * `__compileRegExp`; None when compiling a Static body or an allowed value
   * throws URIError. The flag follows ignoreCase, and the source is anchored
   * at each end unless the matching param is set.
   */
  function CompileRegExp(parts: seq<Part>, params: Flags.Params): (r: Option<Compiled>)
    ensures r.Some? ==> r.value.ignoreCase == IsSet(params, "ignoreCase")
    ensures r.Some? && !IsSet(params, "doNotMatchStart") ==> r.value.source != [] && r.value.source[0] == '^'
    ensures r.Some? && !IsSet(params, "doNotMatchEnd") ==> r.value.source != [] && r.value.source[|r.value.source| - 1] == '$'
  {
    var ignoreCase := IsSet(params, "ignoreCase");
    var (body, st) := Compile(parts, RegexVisit, RegexState(ignoreCase, [], {}, false), 0);
    var start := if IsSet(params, "doNotMatchStart") then "" else "^";
    var end := if IsSet(params, "doNotMatchEnd") then "" else "$";
    if st.failed then None else Some(Compiled(start + body + end, ignoreCase, st.names, st.using))
  }

  /** The expression text of a part, written directly. */
  function PartSource(ignoreCase: bool, p: Part): string
    decreases p, 1
  {
    match p
    case Delimiter => "\\/"
    case Static(body, _) => StaticPartSource(ignoreCase, body)
    case Param(_, values) => if values == [] then "([^/]+?)" else "(" + ValueSources(ignoreCase, values) + ")"
    case Optional(parts) => "(?:" + SeqSource(ignoreCase, parts) + ")?"
  }

  function SeqSource(ignoreCase: bool, ps: seq<Part>): string
    decreases ps, 0
  {
    if ps == [] then "" else PartSource(ignoreCase, ps[0]) + SeqSource(ignoreCase, ps[1..])
  }

  /** Whether compiling a part throws nowhere: every Static body and allowed value in it compiles. */
  predicate PartRecompiles(p: Part)
    decreases p, 1
  {
    match p
    case Static(body, _) => Recompiles(body)
    case Param(_, values) => ValuesRecompile(values)
    case Optional(parts) => SeqRecompiles(parts)
    case Delimiter => true
  }

  predicate SeqRecompiles(ps: seq<Part>)
    decreases ps, 0
  {
    ps == [] || (PartRecompiles(ps[0]) && SeqRecompiles(ps[1..]))
  }

  /** The parameter names of a tree, left to right, repeats included. */
  function ParamNames(p: Part): seq<string>
    decreases p, 1
  {
    match p
    case Param(name, _) => [name]
    case Optional(parts) => SeqParamNames(parts)
    case _ => []
  }

  function SeqParamNames(ps: seq<Part>): seq<string>
    decreases ps, 0
  {
    if ps == [] then [] else ParamNames(ps[0]) + SeqParamNames(ps[1..])
  }

  function NameSet(names: seq<string>): set<string> {
    set n | n in names
  }

  lemma StaticSourceNonEmpty(ignoreCase: bool, text: string)
    requires text != []
    ensures StaticSource(ignoreCase, text) != ""
  {
  }

  lemma PartSourceNonEmpty(ignoreCase: bool, p: Part)
    requires Good(p) && PartRecompiles(p)
    ensures PartSource(ignoreCase, p) != ""
  {
    if p.Static? {
      StaticSourceNonEmpty(ignoreCase, Percent.Decode(p.body).value);
    }
  }

  /** The state after visiting parameters named `names`. */
  function AddNames(st: RegexState, names: seq<string>): RegexState {
    st.(names := st.names + names, using := st.using + NameSet(names))
  }

  /** The state after visiting a part: its parameter names added, and failed if compiling it throws. */
  function PartVisited(st: RegexState, p: Part): RegexState {
    AddNames(st, ParamNames(p)).(failed := st.failed || !PartRecompiles(p))
  }

  /** The state after visiting a sequence of parts. */
  function Visited(st: RegexState, ps: seq<Part>): RegexState {
    AddNames(st, SeqParamNames(ps)).(failed := st.failed || !SeqRecompiles(ps))
  }

  lemma AddNamesAppend(st: RegexState, a: seq<string>, b: seq<string>)
    ensures AddNames(AddNames(st, a), b) == AddNames(st, a + b)
  {
    assert st.names + a + b == st.names + (a + b);
    assert NameSet(a + b) == NameSet(a) + NameSet(b);
  }

  lemma AddNoNames(st: RegexState)
    ensures AddNames(st, []) == st
  {
    assert st.names + [] == st.names;
    assert NameSet([]) == {};
  }

  /** One reducer step over an Optional: skipped when its contents compile to nothing, wrapped otherwise. */
  lemma RegexOptionalStep(ps: seq<Part>, depth: nat, i: nat, acc: string, st: RegexState)
    requires i < |ps| && ps[i].Optional?
    ensures var r := CompileFrom(ps[i].parts, RegexVisit, depth + 1, 0, "", st);
      CompileFrom(ps, RegexVisit, depth, i, acc, st) == CompileFrom(ps, RegexVisit, depth, i + 1, Wrapped(acc, r.0), r.1)
  {
    var r := CompileFrom(ps[i].parts, RegexVisit, depth + 1, 0, "", st);
    assert RegexVisit(r.1, ps[i], false) == ("(?:", r.1);
    assert RegexVisit(r.1, ps[i], true) == (")?", r.1);
  }

  /** One reducer step over a good part that is not an Optional. */
  lemma RegexPlainStep(ps: seq<Part>, depth: nat, i: nat, acc: string, st: RegexState)
    requires i < |ps| && !ps[i].Optional? && Good(ps[i])
    ensures CompileFrom(ps, RegexVisit, depth, i, acc, st)
         == CompileFrom(ps, RegexVisit, depth, i + 1, acc + PartSource(st.ignoreCase, ps[i]), PartVisited(st, ps[i]))
  {
    var p := ps[i];
    if p.Param? {
      assert NameSet([p.body]) == {p.body};
    } else {
      AddNoNames(st);
    }
  }

  /**
   * What the reducer yields from index i on: the names are the tree's
   * parameter names in order, the compile fails exactly when some Static
   * body or allowed value throws, and when none does the compiled text is
   * the direct rendering.
   */
  predicate DirectFrom(ps: seq<Part>, depth: nat, i: nat, acc: string, st: RegexState)
    requires i <= |ps|
  {
    DirectResult(ps, i, acc, st, CompileFrom(ps, RegexVisit, depth, i, acc, st))
  }

  predicate DirectResult(ps: seq<Part>, i: nat, acc: string, st: RegexState, r: (string, RegexState))
    requires i <= |ps|
  {
    r.1 == Visited(st, ps[i..]) && (SeqRecompiles(ps[i..]) ==> r.0 == acc + SeqSource(st.ignoreCase, ps[i..]))
  }

  /** The text so far after an Optional whose contents compiled to `inner`. */
  function Wrapped(acc: string, inner: string): string {
    if inner == "" then acc else acc + "(?:" + inner + ")?"
  }

  /** On a good tree the reducer drops nothing. */
  lemma {:induction false} CompileRegexIsDirect(ps: seq<Part>, depth: nat, i: nat, acc: string, st: RegexState)
    requires i <= |ps| && AllGood(ps)
    ensures DirectFrom(ps, depth, i, acc, st)
    decreases ps, |ps| - i
  {
    if i == |ps| {
      assert ps[i..] == [];
      assert acc + "" == acc;
      AddNoNames(st);
    } else {
      var p := ps[i];
      assert Good(p);
      if p.Optional? {
        CompileOptionalIsDirect(p, depth, st);
        var inner := CompileFrom(p.parts, RegexVisit, depth + 1, 0, "", st).0;
        CompileRegexIsDirect(ps, depth, i + 1, Wrapped(acc, inner), PartVisited(st, p));
        DirectOptionalStep(ps, depth, i, acc, st);
      } else {
        CompileRegexIsDirect(ps, depth, i + 1, acc + PartSource(st.ignoreCase, p), PartVisited(st, p));
        DirectPlainStep(ps, depth, i, acc, st);
      }
    }
  }

  lemma DirectOptionalStep(ps: seq<Part>, depth: nat, i: nat, acc: string, st: RegexState)
    requires i < |ps| && ps[i].Optional? && Good(ps[i])
    requires DirectFrom(ps[i].parts, depth + 1, 0, "", st)
    requires DirectFrom(ps, depth, i + 1,
      Wrapped(acc, CompileFrom(ps[i].parts, RegexVisit, depth + 1, 0, "", st).0), PartVisited(st, ps[i]))
    ensures DirectFrom(ps, depth, i, acc, st)
  {
    var r := CompileFrom(ps[i].parts, RegexVisit, depth + 1, 0, "", st);
    RegexOptionalStep(ps, depth, i, acc, st);
    OptionalResult(ps, i, acc, st, r, CompileFrom(ps, RegexVisit, depth, i + 1, Wrapped(acc, r.0), PartVisited(st, ps[i])));
  }

  /** The Optional step on results alone, with no reducer terms in sight. */
  lemma OptionalResult(ps: seq<Part>, i: nat, acc: string, st: RegexState, r: (string, RegexState), next: (string, RegexState))
    requires i < |ps| && ps[i].Optional? && Good(ps[i])
    requires DirectResult(ps[i].parts, 0, "", st, r)
    requires DirectResult(ps, i + 1, Wrapped(acc, r.0), PartVisited(st, ps[i]), next)
    ensures DirectResult(ps, i, acc, st, next)
  {
    var p := ps[i];
    assert p.parts[0..] == p.parts;
    VisitedCompose(ps, i, st);
    if SeqRecompiles(ps[i..]) {
      RecompilesAt(ps, i);
      OptionalText(p, acc, st.ignoreCase, r.0);
      SourceCompose(ps, i, acc, st.ignoreCase);
    }
  }

  lemma OptionalText(p: Part, acc: string, ignoreCase: bool, inner: string)
    requires p.Optional? && Good(p) && SeqRecompiles(p.parts)
    requires inner == "" + SeqSource(ignoreCase, p.parts)
    ensures Wrapped(acc, inner) == acc + PartSource(ignoreCase, p)
  {
    OptionalSourceNonEmpty(ignoreCase, p);
  }

  lemma DirectPlainStep(ps: seq<Part>, depth: nat, i: nat, acc: string, st: RegexState)
    requires i < |ps| && !ps[i].Optional? && Good(ps[i])
    requires DirectFrom(ps, depth, i + 1, acc + PartSource(st.ignoreCase, ps[i]), PartVisited(st, ps[i]))
    ensures DirectFrom(ps, depth, i, acc, st)
  {
    RegexPlainStep(ps, depth, i, acc, st);
    VisitedCompose(ps, i, st);
    RecompilesAt(ps, i);
    SourceCompose(ps, i, acc, st.ignoreCase);
  }

  lemma OptionalSourceNonEmpty(ignoreCase: bool, p: Part)
    requires p.Optional? && Good(p) && SeqRecompiles(p.parts)
    ensures SeqSource(ignoreCase, p.parts) != ""
  {
    assert p.parts != [] && Good(p.parts[0]);
    PartSourceNonEmpty(ignoreCase, p.parts[0]);
  }

  /** The contents of a good Optional compile directly. */
  lemma {:induction false} CompileOptionalIsDirect(p: Part, depth: nat, st: RegexState)
    requires p.Optional? && Good(p)
    ensures DirectFrom(p.parts, depth + 1, 0, "", st)
    decreases p, 0
  {
    CompileRegexIsDirect(p.parts, depth + 1, 0, "", st);
  }

  /** The part at i, then the rest after it: text, names and failure compose. */
  lemma SourceCompose(ps: seq<Part>, i: nat, acc: string, ignoreCase: bool)
    requires i < |ps|
    ensures acc + PartSource(ignoreCase, ps[i]) + SeqSource(ignoreCase, ps[i + 1..])
         == acc + SeqSource(ignoreCase, ps[i..])
  {
    assert ps[i..] == [ps[i]] + ps[i + 1..];
  }

  lemma VisitedCompose(ps: seq<Part>, i: nat, st: RegexState)
    requires i < |ps|
    ensures Visited(PartVisited(st, ps[i]), ps[i + 1..]) == Visited(st, ps[i..])
  {
    assert ps[i..][0] == ps[i] && ps[i..][1..] == ps[i + 1..];
    RecompilesAt(ps, i);
    AddNamesAppend(st, ParamNames(ps[i]), SeqParamNames(ps[i + 1..]));
  }

  lemma RecompilesAt(ps: seq<Part>, i: nat)
    requires i < |ps|
    ensures SeqRecompiles(ps[i..]) <==> PartRecompiles(ps[i]) && SeqRecompiles(ps[i + 1..])
  {
    assert ps[i..][0] == ps[i] && ps[i..][1..] == ps[i + 1..];
  }

  /**
   * `__compileRegExp` on a good tree fails exactly when some Static body or
   * allowed value throws URIError. Otherwise: `^` unless doNotMatchStart is
   * set, `$` unless doNotMatchEnd is set, the direct rendering in between;
   * the `i` flag exactly when ignoreCase is set; one name per parameter in
   * tree order, repeats included, and `using` holds exactly those names.
   */
  lemma CompileRegExpShape(parts: seq<Part>, params: Flags.Params)
    requires AllGood(parts)
    ensures CompileRegExp(parts, params).Some? <==> SeqRecompiles(parts)
    ensures var c := CompileRegExp(parts, params);
      c.Some? ==>
        c.value.source ==
          (if IsSet(params, "doNotMatchStart") then "" else "^")
          + SeqSource(IsSet(params, "ignoreCase"), parts)
          + (if IsSet(params, "doNotMatchEnd") then "" else "$")
        && c.value.ignoreCase == IsSet(params, "ignoreCase")
        && c.value.names == SeqParamNames(parts)
        && c.value.using == NameSet(c.value.names)
  {
    var st := RegexState(IsSet(params, "ignoreCase"), [], {}, false);
    CompileRegexIsDirect(parts, 0, 0, "", st);
    assert parts[0..] == parts;
    assert [] + SeqParamNames(parts) == SeqParamNames(parts);
    assert {} + NameSet(SeqParamNames(parts)) == NameSet(SeqParamNames(parts));
    assert "" + SeqSource(st.ignoreCase, parts) == SeqSource(st.ignoreCase, parts);
  }
}
