/**
 * `build` of route/Pattern.js: the path a pattern generates from an object
 * of arguments. The visitor handed to the reducer counts, per parameter
 * name, how many occurrences it has visited; the count picks the element
 * of a list argument, and a scalar argument serves the first occurrence
 * only. The counter is the visitor state the reducer threads.
 */
module Build {
  import opened Wrappers
  import Percent
  import opened Parts

  /** An argument value: null or undefined, or a string. */
  datatype Scalar = Nil | Text(s: string)

  /** An argument: one value, or an array of values. */
  datatype Arg = One(value: Scalar) | Many(items: seq<Scalar>)

  /** The `opts` object: its own properties. */
  type Opts = map<string, Arg>

  /** `isFalsy`: null, undefined and the empty string. */
  predicate IsFalsy(v: Scalar) {
    v.Nil? || v.s == ""
  }

  /**
   * The value the occurrence numbered `num` (from 0) of a parameter takes:
   * element `num` of an array (undefined past its end), a scalar only for
   * the first occurrence.
   */
  function Occurrence(arg: Arg, num: nat): (v: Scalar)
    ensures arg.Many? && num < |arg.items| ==> v == arg.items[num]
    ensures arg.One? && num == 0 ==> v == arg.value
    ensures (arg.Many? && num >= |arg.items|) || (arg.One? && num > 0) ==> v == Nil
  {
    match arg
    case Many(items) => if num < |items| then items[num] else Nil
    case One(value) => if num == 0 then value else Nil
  }

  /** What a value contributes to the path: nothing when falsy, otherwise its percent-encoding. */
  function ValueText(v: Scalar): (r: string)
    ensures r == "" <==> IsFalsy(v)
    ensures !IsFalsy(v) ==> Percent.Decode(r) == Some(v.s)
  {
    if IsFalsy(v) then "" else Percent.DecodeEncode(v.s); Percent.Encode(v.s)
  }

  /** The arguments and the `using` counter: the index of the last visited occurrence of each name. */
  datatype BuildState = BuildState(opts: Opts, using: map<string, nat>)

  /**
   * `buildParamPart`: an absent name contributes nothing and is not
   * counted; otherwise the occurrence is counted and its value, if truthy,
   * is written percent-encoded.
   */
  function BuildParamPart(st: BuildState, name: string): (r: (string, BuildState))
    ensures r.1.opts == st.opts
    ensures name !in st.opts ==> r == ("", st)
    ensures name in st.opts ==>
      var num := if name in st.using then st.using[name] + 1 else 0;
      r.1.using.Keys == st.using.Keys + {name} && r.1.using[name] == num
      && (forall n | n in st.using && n != name :: r.1.using[n] == st.using[n])
      && (r.0 == "" <==> IsFalsy(Occurrence(st.opts[name], num)))
      && (r.0 != "" ==> Percent.Decode(r.0) == Some(Occurrence(st.opts[name], num).s))
  {
    if name !in st.opts then ("", st)
    else
      var num := if name in st.using then st.using[name] + 1 else 0;
      (ValueText(Occurrence(st.opts[name], num)), st.(using := st.using[name := num]))
  }

  /** `buildPart`, the visitor `build` hands to `compile`. */
  function BuildVisit(st: BuildState, part: Part, closing: bool): (string, BuildState) {
    match part
    case Delimiter => ("/", st)
    case Static(_, encoded) => (encoded, st)
    case Param(name, _) => BuildParamPart(st, name)
    case Optional(_) => ("", st)
  }

  /**
   * `build(opts)`. When every Param occurrence it meets gets a truthy value,
   * nothing is left out: it writes the tree with every Optional opened, and
   * the k-th Param of a name (from 0, in visiting order) takes occurrence k
   * of its argument.
   */
  function Build(parts: seq<Part>, opts: Opts): (r: string)
    ensures AllWrite([], OpenedSeq(parts), opts) ==> r == FlatBuild(OpenedSeq(parts), opts)
  {
    CompileOpened(parts, opts);
    Compile(parts, BuildVisit, BuildState(opts, map[]), 0).0
  }

  /** How many Params named `name` the sequence holds at its top level. */
  function Count(ps: seq<Part>, name: string): nat
    decreases |ps|
  {
    if ps == [] then 0
    else
      var p := ps[|ps| - 1];
      Count(ps[..|ps| - 1], name) + (if p.Param? && p.body == name then 1 else 0)
  }

  /**
   * What a top-level part contributes to the path when `seen` earlier
   * Params carry its name, written without the counter.
   */
  function FlatPartText(p: Part, opts: Opts, seen: nat): string {
    match p
    case Delimiter => "/"
    case Static(_, encoded) => encoded
    case Param(name, _) => if name in opts then ValueText(Occurrence(opts[name], seen)) else ""
    case Optional(_) => ""
  }

  /** The path of a sequence without Optionals: each Param takes the value of its position among its namesakes. */
  function FlatBuild(ps: seq<Part>, opts: Opts): string
    decreases |ps|
  {
    if ps == [] then ""
    else
      var init := ps[..|ps| - 1];
      var p := ps[|ps| - 1];
      FlatBuild(init, opts) + FlatPartText(p, opts, if p.Param? then Count(init, p.body) else 0)
  }

  /** The counter agrees with the Params visited so far. */
  ghost predicate Tracks(st: BuildState, visited: seq<Part>, opts: Opts) {
    st.opts == opts
    && (forall n :: n in st.using <==> n in opts && Count(visited, n) > 0)
    && (forall n | n in st.using :: st.using[n] + 1 == Count(visited, n))
  }

  lemma CountAppend(ps: seq<Part>, p: Part, name: string)
    ensures Count(ps + [p], name) == Count(ps, name) + (if p.Param? && p.body == name then 1 else 0)
  {
    assert (ps + [p])[..|ps|] == ps;
  }

  /** Visiting one more top-level part that is not an Optional keeps the counter in step. */
  lemma FlatStep(ps: seq<Part>, i: nat, st: BuildState, opts: Opts)
    requires i < |ps| && !ps[i].Optional? && Tracks(st, ps[..i], opts)
    ensures var p := ps[i];
      BuildVisit(st, p, false).0 == FlatPartText(p, opts, if p.Param? then Count(ps[..i], p.body) else 0)
      && Tracks(BuildVisit(st, p, false).1, ps[..i + 1], opts)
  {
    assert ps[..i + 1] == ps[..i] + [ps[i]];
    TracksStep(st, ps[..i], ps[i], opts);
  }

  lemma TracksStep(st: BuildState, prev: seq<Part>, p: Part, opts: Opts)
    requires !p.Optional? && Tracks(st, prev, opts)
    ensures BuildVisit(st, p, false).0 == FlatPartText(p, opts, if p.Param? then Count(prev, p.body) else 0)
    ensures Tracks(BuildVisit(st, p, false).1, prev + [p], opts)
  {
    forall n ensures Count(prev + [p], n) == Count(prev, n) + (if p.Param? && p.body == n then 1 else 0) {
      CountAppend(prev, p, n);
    }
    if p.Param? {
      TracksParam(st, prev, p, opts);
    }
  }

  lemma TracksParam(st: BuildState, prev: seq<Part>, p: Part, opts: Opts)
    requires p.Param? && Tracks(st, prev, opts)
    ensures BuildParamPart(st, p.body).0 == FlatPartText(p, opts, Count(prev, p.body))
    ensures Tracks(BuildParamPart(st, p.body).1, prev + [p], opts)
  {
    var name := p.body;
    if name in opts {
      var num := if name in st.using then st.using[name] + 1 else 0;
      assert num == Count(prev, name);
      var u := st.using[name := num];
      assert BuildParamPart(st, name) == (ValueText(Occurrence(opts[name], num)), st.(using := u));
      forall n ensures n in u <==> n in opts && Count(prev + [p], n) > 0 {
        CountAppend(prev, p, n);
      }
      forall n | n in u ensures u[n] + 1 == Count(prev + [p], n) {
        CountAppend(prev, p, n);
      }
    } else {
      assert BuildParamPart(st, name) == ("", st);
      forall n ensures Count(prev + [p], n) == Count(prev, n) + (if name == n then 1 else 0) {
        CountAppend(prev, p, n);
      }
    }
  }

  lemma {:induction false} FlatFrom(ps: seq<Part>, i: nat, acc: string, st: BuildState, opts: Opts)
    requires i <= |ps| && (forall p | p in ps :: !p.Optional?)
    requires Tracks(st, ps[..i], opts) && acc == FlatBuild(ps[..i], opts)
    ensures CompileFrom(ps, BuildVisit, 0, i, acc, st).0 == FlatBuild(ps, opts)
    decreases |ps| - i
  {
    if i == |ps| {
      assert ps[..i] == ps;
    } else {
      var p := ps[i];
      FlatStep(ps, i, st, opts);
      var text, st1 := BuildVisit(st, p, false).0, BuildVisit(st, p, false).1;
      assert ps[..i + 1][..i] == ps[..i];
      assert FlatBuild(ps[..i + 1], opts) == acc + text;
      FlatFrom(ps, i + 1, acc + text, st1, opts);
    }
  }

  /**
   * Without Optionals, `build` writes every part in order, and the k-th
   * Param of a name (from 0) takes element k of a list argument, or the
   * scalar argument when k is 0; nothing is abandoned at the top level.
   */
  lemma BuildFlat(ps: seq<Part>, opts: Opts)
    requires forall p | p in ps :: !p.Optional?
    ensures Build(ps, opts) == FlatBuild(ps, opts)
  {
    assert ps[..0] == [];
    FlatFrom(ps, 0, "", BuildState(opts, map[]), opts);
  }

  /** A tree with no Params anywhere. */
  predicate ParamFree(p: Part) {
    match p
    case Param(_, _) => false
    case Optional(parts) => forall q | q in parts :: ParamFree(q)
    case _ => true
  }

  /** The path of a Param-free tree written directly: every Optional kept. */
  function PlainText(p: Part): string
    decreases p, 1
  {
    match p
    case Delimiter => "/"
    case Static(_, encoded) => encoded
    case Param(_, _) => ""
    case Optional(parts) => PlainSeq(parts)
  }

  function PlainSeq(ps: seq<Part>): string
    decreases ps, 0
  {
    if ps == [] then "" else PlainText(ps[0]) + PlainSeq(ps[1..])
  }

  lemma {:induction false} PlainFrom(ps: seq<Part>, depth: nat, i: nat, acc: string, st: BuildState)
    requires i <= |ps| && AllGood(ps) && forall p | p in ps :: ParamFree(p)
    ensures CompileFrom(ps, BuildVisit, depth, i, acc, st) == (acc + PlainSeq(ps[i..]), st)
    decreases ps, |ps| - i
  {
    if i == |ps| {
      assert ps[i..] == [];
      assert acc + "" == acc;
    } else {
      var p := ps[i];
      assert p in ps;
      if p.Optional? {
        PlainFrom(p.parts, depth + 1, 0, "", st);
        PlainOptionalStep(ps, depth, i, acc, st);
      } else {
        assert CompileFrom(ps, BuildVisit, depth, i, acc, st) == CompileFrom(ps, BuildVisit, depth, i + 1, acc + PlainText(p), st);
      }
      PlainFrom(ps, depth, i + 1, acc + PlainText(p), st);
      PlainSeqAt(ps, i, acc);
    }
  }

  /** The rest of the text from index i: the part at i, then the rest after it. */
  lemma PlainSeqAt(ps: seq<Part>, i: nat, acc: string)
    requires i < |ps|
    ensures acc + PlainText(ps[i]) + PlainSeq(ps[i + 1..]) == acc + PlainSeq(ps[i..])
  {
    assert ps[i..] == [ps[i]] + ps[i + 1..];
  }

  /** A Param-free Optional, once its own parts are written, is kept whole. */
  lemma PlainOptionalStep(ps: seq<Part>, depth: nat, i: nat, acc: string, st: BuildState)
    requires i < |ps| && ps[i].Optional?
    requires CompileFrom(ps[i].parts, BuildVisit, depth + 1, 0, "", st) == ("" + PlainSeq(ps[i].parts[0..]), st)
    ensures CompileFrom(ps, BuildVisit, depth, i, acc, st) == CompileFrom(ps, BuildVisit, depth, i + 1, acc + PlainText(ps[i]), st)
  {
    assert ps[i].parts[0..] == ps[i].parts;
    assert "" + PlainText(ps[i]) == PlainText(ps[i]);
    BuildOptionalStep(ps, depth, i, acc, st);
  }

  /** A good tree without Params builds to all of its text, whatever the arguments. */
  lemma BuildParamFree(ps: seq<Part>, opts: Opts)
    requires AllGood(ps) && forall p | p in ps :: ParamFree(p)
    ensures Build(ps, opts) == PlainSeq(ps)
  {
    PlainFrom(ps, 0, 0, "", BuildState(opts, map[]));
    assert ps[0..] == ps;
    assert "" + PlainSeq(ps) == PlainSeq(ps);
  }

  /** The parts of a tree in visiting order with every Optional opened. */
  function Opened(p: Part): seq<Part>
    decreases p, 1
  {
    match p
    case Optional(parts) => OpenedSeq(parts)
    case _ => [p]
  }

  function OpenedSeq(ps: seq<Part>): seq<Part>
    decreases ps, 0
  {
    if ps == [] then [] else Opened(ps[0]) + OpenedSeq(ps[1..])
  }

  /** A Param named `name`, visited after the Params of `prev`, writes a value. */
  predicate Writes(prev: seq<Part>, name: string, opts: Opts) {
    name in opts && !IsFalsy(Occurrence(opts[name], Count(prev, name)))
  }

  /** Every Param of `seg`, visited after `prev`, writes a value. */
  predicate AllWrite(prev: seq<Part>, seg: seq<Part>, opts: Opts)
    decreases |seg|
  {
    seg == [] || ((seg[0].Param? ==> Writes(prev, seg[0].body, opts)) && AllWrite(prev + [seg[0]], seg[1..], opts))
  }

  /** The text of `seg` visited after `prev`, part by part from the front, nothing left out. */
  function FlatTail(prev: seq<Part>, seg: seq<Part>, opts: Opts): string
    decreases |seg|
  {
    if seg == [] then ""
    else
      FlatPartText(seg[0], opts, if seg[0].Param? then Count(prev, seg[0].body) else 0)
      + FlatTail(prev + [seg[0]], seg[1..], opts)
  }

  /** The counter after visiting `visited`: for each present name seen, the index of its last occurrence. */
  function Counter(visited: seq<Part>, opts: Opts): BuildState {
    BuildState(opts, map n | n in opts && Count(visited, n) > 0 :: Count(visited, n) - 1)
  }

  lemma CounterTracks(visited: seq<Part>, opts: Opts)
    ensures Tracks(Counter(visited, opts), visited, opts)
  {
  }

  /** The counter is determined by the Params visited. */
  lemma TracksCounter(st: BuildState, visited: seq<Part>, opts: Opts)
    requires Tracks(st, visited, opts)
    ensures st == Counter(visited, opts)
  {
    var c := Counter(visited, opts);
    assert st.using.Keys == c.using.Keys;
    assert forall n | n in st.using :: st.using[n] == c.using[n];
    assert st.using == c.using;
  }

  lemma CounterStart(opts: Opts)
    ensures Counter([], opts) == BuildState(opts, map[])
  {
    assert Counter([], opts).using == map[];
  }

  /** Visiting a part that is not an Optional, from the counter of `prev`. */
  lemma CounterStep(prev: seq<Part>, p: Part, opts: Opts)
    requires !p.Optional?
    ensures BuildVisit(Counter(prev, opts), p, false)
         == (FlatPartText(p, opts, if p.Param? then Count(prev, p.body) else 0), Counter(prev + [p], opts))
  {
    CounterTracks(prev, opts);
    TracksStep(Counter(prev, opts), prev, p, opts);
    TracksCounter(BuildVisit(Counter(prev, opts), p, false).1, prev + [p], opts);
  }

  lemma ConcatAssoc(h: string, x: string, y: string)
    ensures h + (x + y) == (h + x) + y
  {
  }

  lemma {:induction false} FlatTailAppend(prev: seq<Part>, a: seq<Part>, b: seq<Part>, opts: Opts)
    ensures FlatTail(prev, a + b, opts) == FlatTail(prev, a, opts) + FlatTail(prev + a, b, opts)
    decreases |a|
  {
    if a == [] {
      assert a + b == b && prev + a == prev;
      assert FlatTail(prev, a, opts) == "";
      assert "" + FlatTail(prev, b, opts) == FlatTail(prev, b, opts);
    } else {
      FlatTailAppend(prev + [a[0]], a[1..], b, opts);
      FlatTailAppendStep(prev, a, b, opts);
    }
  }

  /** The first part of `a`, then the rest of `a + b` as the induction hypothesis splits it. */
  lemma FlatTailAppendStep(prev: seq<Part>, a: seq<Part>, b: seq<Part>, opts: Opts)
    requires a != []
    requires FlatTail(prev + [a[0]], a[1..] + b, opts)
          == FlatTail(prev + [a[0]], a[1..], opts) + FlatTail(prev + [a[0]] + a[1..], b, opts)
    ensures FlatTail(prev, a + b, opts) == FlatTail(prev, a, opts) + FlatTail(prev + a, b, opts)
  {
    var p := a[0];
    var head := FlatPartText(p, opts, if p.Param? then Count(prev, p.body) else 0);
    var x, y := FlatTail(prev + [p], a[1..], opts), FlatTail(prev + a, b, opts);
    assert (a + b)[0] == p && (a + b)[1..] == a[1..] + b;
    assert prev + [p] + a[1..] == prev + a;
    assert FlatTail(prev, a + b, opts) == head + (x + y);
    assert FlatTail(prev, a, opts) == head + x;
    ConcatAssoc(head, x, y);
  }

  lemma {:induction false} AllWriteAppend(prev: seq<Part>, a: seq<Part>, b: seq<Part>, opts: Opts)
    ensures AllWrite(prev, a + b, opts) <==> AllWrite(prev, a, opts) && AllWrite(prev + a, b, opts)
    decreases |a|
  {
    if a == [] {
      assert a + b == b && prev + a == prev;
    } else {
      assert (a + b)[0] == a[0] && (a + b)[1..] == a[1..] + b;
      AllWriteAppend(prev + [a[0]], a[1..], b, opts);
      assert prev + [a[0]] + a[1..] == prev + a;
    }
  }

  /** Opening a slice: its first part opened, then the rest of the slice. */
  lemma OpenedSlice(ps: seq<Part>, i: nat, j: nat)
    requires i < j <= |ps|
    ensures OpenedSeq(ps[i..j]) == Opened(ps[i]) + OpenedSeq(ps[i + 1..j])
  {
    assert ps[i..j][0] == ps[i] && ps[i..j][1..] == ps[i + 1..j];
  }

  /** The flat path of `prev + seg` is that of `prev`, then the text `seg` writes after it. */
  lemma {:induction false} FlatBuildTail(prev: seq<Part>, seg: seq<Part>, opts: Opts)
    ensures FlatBuild(prev + seg, opts) == FlatBuild(prev, opts) + FlatTail(prev, seg, opts)
    decreases |seg|
  {
    if seg == [] {
      assert prev + seg == prev;
    } else {
      var p := seg[0];
      var head := FlatPartText(p, opts, if p.Param? then Count(prev, p.body) else 0);
      assert (prev + [p])[..|prev|] == prev;
      assert FlatBuild(prev + [p], opts) == FlatBuild(prev, opts) + head;
      assert FlatTail(prev, seg, opts) == head + FlatTail(prev + [p], seg[1..], opts);
      FlatBuildTail(prev + [p], seg[1..], opts);
      assert prev + [p] + seg[1..] == prev + seg;
      ConcatAssoc(FlatBuild(prev, opts), head, FlatTail(prev + [p], seg[1..], opts));
    }
  }

  /** The reducer at an Optional under `build`: the Optional's text is added as it is, with no text around it. */
  lemma BuildOptionalStep(ps: seq<Part>, depth: nat, i: nat, acc: string, st: BuildState)
    requires i < |ps| && ps[i].Optional?
    ensures var r := CompileFrom(ps[i].parts, BuildVisit, depth + 1, 0, "", st);
      CompileFrom(ps, BuildVisit, depth, i, acc, st) == CompileFrom(ps, BuildVisit, depth, i + 1, acc + r.0, r.1)
  {
    var r := CompileFrom(ps[i].parts, BuildVisit, depth + 1, 0, "", st);
    assert acc + "" + r.0 + "" == acc + r.0;
    if r.0 == "" {
      assert acc + r.0 == acc;
    }
  }

  /** The reducer at a part that is not an Optional and writes some text under `build`. */
  lemma BuildPlainStep(ps: seq<Part>, depth: nat, i: nat, acc: string, st: BuildState)
    requires i < |ps| && !ps[i].Optional?
    requires ps[i].Param? ==> BuildVisit(st, ps[i], false).0 != ""
    ensures var r := BuildVisit(st, ps[i], false);
      CompileFrom(ps, BuildVisit, depth, i, acc, st) == CompileFrom(ps, BuildVisit, depth, i + 1, acc + r.0, r.1)
  {
  }

  /**
   * When every Param met writes a value, the reducer leaves nothing out:
   * the parts from index i on write their opened text, and the counter
   * counts every Param in them.
   */
  lemma {:induction false} OpenedFrom(ps: seq<Part>, depth: nat, i: nat, acc: string, prev: seq<Part>, opts: Opts)
    requires i <= |ps| && AllWrite(prev, OpenedSeq(ps[i..]), opts)
    ensures CompileFrom(ps, BuildVisit, depth, i, acc, Counter(prev, opts))
         == (acc + FlatTail(prev, OpenedSeq(ps[i..]), opts), Counter(prev + OpenedSeq(ps[i..]), opts))
    decreases ps, |ps| - i, 1
  {
    if i == |ps| {
      assert ps[i..] == [];
      assert prev + [] == prev && acc + "" == acc;
    } else {
      var here := Opened(ps[i]);
      var rest := OpenedSeq(ps[i + 1..]);
      OpenedSlice(ps, i, |ps|);
      assert ps[i..|ps|] == ps[i..] && ps[i + 1..|ps|] == ps[i + 1..];
      AllWriteAppend(prev, here, rest, opts);
      OpenedStep(ps, depth, i, acc, prev, opts);
      OpenedFrom(ps, depth, i + 1, acc + FlatTail(prev, here, opts), prev + here, opts);
      TailJoin(acc, prev, here, rest, opts);
    }
  }

  /** The text and the counter of two stretches visited one after the other. */
  lemma TailJoin(acc: string, prev: seq<Part>, a: seq<Part>, b: seq<Part>, opts: Opts)
    ensures (acc + FlatTail(prev, a, opts) + FlatTail(prev + a, b, opts), Counter(prev + a + b, opts))
         == (acc + FlatTail(prev, a + b, opts), Counter(prev + (a + b), opts))
  {
    TextJoin(acc, prev, a, b, opts);
    assert prev + a + b == prev + (a + b);
  }

  lemma TextJoin(acc: string, prev: seq<Part>, a: seq<Part>, b: seq<Part>, opts: Opts)
    ensures acc + FlatTail(prev, a, opts) + FlatTail(prev + a, b, opts) == acc + FlatTail(prev, a + b, opts)
  {
    FlatTailAppend(prev, a, b, opts);
    ConcatAssoc(acc, FlatTail(prev, a, opts), FlatTail(prev + a, b, opts));
  }

  /** One part, with every Param in it writing a value, writes its opened text. */
  lemma {:induction false} OpenedStep(ps: seq<Part>, depth: nat, i: nat, acc: string, prev: seq<Part>, opts: Opts)
    requires i < |ps| && AllWrite(prev, Opened(ps[i]), opts)
    ensures CompileFrom(ps, BuildVisit, depth, i, acc, Counter(prev, opts))
         == CompileFrom(ps, BuildVisit, depth, i + 1, acc + FlatTail(prev, Opened(ps[i]), opts),
                        Counter(prev + Opened(ps[i]), opts))
    decreases ps, |ps| - i, 0
  {
    var p := ps[i];
    if p.Optional? {
      var text := FlatTail(prev, OpenedSeq(p.parts), opts);
      var st1 := Counter(prev + OpenedSeq(p.parts), opts);
      assert p.parts[0..] == p.parts;
      OpenedFrom(p.parts, depth + 1, 0, "", prev, opts);
      assert "" + text == text;
      assert CompileFrom(p.parts, BuildVisit, depth + 1, 0, "", Counter(prev, opts)) == (text, st1);
      BuildOptionalStep(ps, depth, i, acc, Counter(prev, opts));
    } else {
      CounterStep(prev, p, opts);
      assert [p][1..] == [];
      var text := FlatPartText(p, opts, if p.Param? then Count(prev, p.body) else 0);
      assert FlatTail(prev, [p], opts) == text + "";
      assert text + "" == text;
      if p.Param? {
        assert Writes(prev, p.body, opts);
      }
      BuildPlainStep(ps, depth, i, acc, Counter(prev, opts));
    }
  }

  /** The reducer under `build`, when every Param met writes a value. */
  lemma CompileOpened(ps: seq<Part>, opts: Opts)
    ensures AllWrite([], OpenedSeq(ps), opts) ==>
      Compile(ps, BuildVisit, BuildState(opts, map[]), 0).0 == FlatBuild(OpenedSeq(ps), opts)
  {
    if AllWrite([], OpenedSeq(ps), opts) {
      CounterStart(opts);
      assert ps[0..] == ps;
      OpenedFrom(ps, 0, 0, "", [], opts);
      FlatBuildTail([], OpenedSeq(ps), opts);
      assert [] + OpenedSeq(ps) == OpenedSeq(ps);
      assert "" + FlatTail([], OpenedSeq(ps), opts) == FlatTail([], OpenedSeq(ps), opts);
    }
  }

  /**
   * An Optional holding, at its own level, a Param that writes nothing,
   * after Params that all write, contributes nothing, and the sequence it
   * is in goes on after it. The counter has then counted the Params up to
   * and including that one, and none after it.
   */
  lemma DroppedOptional(ps: seq<Part>, depth: nat, i: nat, acc: string, prev: seq<Part>, opts: Opts, j: nat)
    requires i < |ps| && ps[i].Optional? && j < |ps[i].parts| && ps[i].parts[j].Param?
    requires AllWrite(prev, OpenedSeq(ps[i].parts[..j]), opts)
    requires !Writes(prev + OpenedSeq(ps[i].parts[..j]), ps[i].parts[j].body, opts)
    ensures CompileFrom(ps, BuildVisit, depth, i, acc, Counter(prev, opts))
         == CompileFrom(ps, BuildVisit, depth, i + 1, acc, Counter(prev + OpenedSeq(ps[i].parts[..j + 1]), opts))
  {
    var q := ps[i].parts;
    assert q[0..j] == q[..j] && q[0..j + 1] == q[..j + 1];
    AbandonedFrom(q, depth + 1, 0, j, "", prev, opts);
    BuildOptionalStep(ps, depth, i, acc, Counter(prev, opts));
    assert acc + "" == acc;
  }

  /**
   * Below the top level, from index i on, the Params up to the one at j
   * write and that one does not: the sequence yields "", and the counter
   * has counted every Param up to and including it.
   */
  lemma {:induction false} AbandonedFrom(q: seq<Part>, depth: nat, i: nat, j: nat, acc: string, prev: seq<Part>, opts: Opts)
    requires depth > 0 && i <= j < |q| && q[j].Param?
    requires AllWrite(prev, OpenedSeq(q[i..j]), opts)
    requires !Writes(prev + OpenedSeq(q[i..j]), q[j].body, opts)
    ensures CompileFrom(q, BuildVisit, depth, i, acc, Counter(prev, opts)) == ("", Counter(prev + OpenedSeq(q[i..j + 1]), opts))
    decreases j - i
  {
    if i == j {
      assert q[i..j] == [] && prev + OpenedSeq([]) == prev;
      AbandonedAt(q, depth, j, acc, prev, opts);
    } else {
      var here := Opened(q[i]);
      OpenedSlice(q, i, j);
      AllWriteAppend(prev, here, OpenedSeq(q[i + 1..j]), opts);
      assert prev + here + OpenedSeq(q[i + 1..j]) == prev + OpenedSeq(q[i..j]);
      AbandonedFrom(q, depth, i + 1, j, acc + FlatTail(prev, here, opts), prev + here, opts);
      AbandonedStep(q, depth, i, j, acc, prev, opts);
    }
  }

  /** One part that writes its opened text, then the abandoned rest as the induction hypothesis has it. */
  lemma AbandonedStep(q: seq<Part>, depth: nat, i: nat, j: nat, acc: string, prev: seq<Part>, opts: Opts)
    requires i < j < |q| && AllWrite(prev, Opened(q[i]), opts)
    requires var here := Opened(q[i]);
      CompileFrom(q, BuildVisit, depth, i + 1, acc + FlatTail(prev, here, opts), Counter(prev + here, opts))
      == ("", Counter(prev + here + OpenedSeq(q[i + 1..j + 1]), opts))
    ensures CompileFrom(q, BuildVisit, depth, i, acc, Counter(prev, opts)) == ("", Counter(prev + OpenedSeq(q[i..j + 1]), opts))
  {
    var here := Opened(q[i]);
    OpenedSlice(q, i, j + 1);
    assert prev + here + OpenedSeq(q[i + 1..j + 1]) == prev + OpenedSeq(q[i..j + 1]);
    OpenedStep(q, depth, i, acc, prev, opts);
  }

  /** Below the top level, a Param that writes nothing abandons its sequence, and is counted. */
  lemma AbandonedAt(q: seq<Part>, depth: nat, j: nat, acc: string, prev: seq<Part>, opts: Opts)
    requires depth > 0 && j < |q| && q[j].Param? && !Writes(prev, q[j].body, opts)
    ensures CompileFrom(q, BuildVisit, depth, j, acc, Counter(prev, opts)) == ("", Counter(prev + OpenedSeq(q[j..j + 1]), opts))
  {
    var p := q[j];
    assert q[j..j + 1] == [p] && [p][1..] == [];
    assert OpenedSeq([p]) == [p] + OpenedSeq([]) == [p];
    assert FlatPartText(p, opts, Count(prev, p.body)) == "";
    CounterStep(prev, p, opts);
    assert BuildVisit(Counter(prev, opts), p, false) == ("", Counter(prev + [p], opts));
  }

  /** The tree of `/<id>/<id>`. */
  const TwoIds: seq<Part> := [Delimiter, Param("id", []), Delimiter, Param("id", [])]

  /** A list argument feeds the occurrences in turn. */
  lemma ListArgumentExample()
    ensures Build(TwoIds, map["id" := Many([Text("7"), Text("8")])]) == "/7/8"
  {
    ListArgumentCompile();
  }

  lemma ListArgumentCompile()
    ensures Compile(TwoIds, BuildVisit, BuildState(map["id" := Many([Text("7"), Text("8")])], map[]), 0).0 == "/7/8"
  {
    var opts := map["id" := Many([Text("7"), Text("8")])];
    var st0 := BuildState(opts, map[]);
    var st1 := BuildState(opts, map["id" := 0]);
    var st2 := BuildState(opts, map["id" := 1]);
    assert Percent.Encode("7") == "7" && Percent.Encode("8") == "8";
    assert BuildParamPart(st0, "id") == ("7", st1);
    assert st1.using["id" := 1] == st2.using;
    assert BuildParamPart(st1, "id") == ("8", st2);
  }

  /** A scalar argument serves only the first occurrence. */
  lemma ScalarArgumentExample()
    ensures Build(TwoIds, map["id" := One(Text("7"))]) == "/7/"
  {
    ScalarArgumentCompile();
  }

  lemma ScalarArgumentCompile()
    ensures Compile(TwoIds, BuildVisit, BuildState(map["id" := One(Text("7"))], map[]), 0).0 == "/7/"
  {
    var opts := map["id" := One(Text("7"))];
    assert Percent.Encode("7") == "7";
    assert BuildParamPart(BuildState(opts, map[]), "id") == ("7", BuildState(opts, map["id" := 0]));
  }

  /** The tree of `/a(/<b>)`. */
  const OptionalTail: seq<Part> := [Delimiter, Static("a", "a"), Optional([Delimiter, Param("b", [])])]

  /** An Optional whose Param has no value is left out, with its `/`. */
  lemma OptionalExamples()
    ensures Build(OptionalTail, map[]) == "/a"
    ensures Build(OptionalTail, map["b" := One(Text("x"))]) == "/a/x"
    ensures Build(OptionalTail, map["b" := One(Text(""))]) == "/a"
  {
    OptionalTailWithout();
    OptionalTailWith();
    OptionalTailEmpty();
  }

  lemma OptionalTailWithout()
    ensures Compile(OptionalTail, BuildVisit, BuildState(map[], map[]), 0).0 == "/a"
  {
    assert BuildParamPart(BuildState(map[], map[]), "b") == ("", BuildState(map[], map[]));
  }

  lemma OptionalTailWith()
    ensures Compile(OptionalTail, BuildVisit, BuildState(map["b" := One(Text("x"))], map[]), 0).0 == "/a/x"
  {
    var opts := map["b" := One(Text("x"))];
    assert Percent.Encode("x") == "x";
    assert BuildParamPart(BuildState(opts, map[]), "b") == ("x", BuildState(opts, map["b" := 0]));
  }

  lemma OptionalTailEmpty()
    ensures Compile(OptionalTail, BuildVisit, BuildState(map["b" := One(Text(""))], map[]), 0).0 == "/a"
  {
    var opts := map["b" := One(Text(""))];
    assert BuildParamPart(BuildState(opts, map[]), "b") == ("", BuildState(opts, map["b" := 0]));
  }

  /** The tree of `/x(/a(/<b>))`. */
  const NestedTail: seq<Part> :=
    [Delimiter, Static("x", "x"), Optional([Delimiter, Static("a", "a"), Optional([Delimiter, Param("b", [])])])]

  /** Only the innermost Optional holding the empty Param is left out; the enclosing one stays. */
  lemma NestedOptionalExample()
    ensures Build(NestedTail, map[]) == "/x/a"
  {
    NestedOptionalCompile();
  }

  lemma NestedOptionalCompile()
    ensures Compile(NestedTail, BuildVisit, BuildState(map[], map[]), 0).0 == "/x/a"
  {
    assert BuildParamPart(BuildState(map[], map[]), "b") == ("", BuildState(map[], map[]));
  }

  /** The tree of `x(a<b>c)`. */
  const MiddleParam: seq<Part> := [Static("x", "x"), Optional([Static("a", "a"), Param("b", []), Static("c", "c")])]

  /** An empty Param below the top level abandons its whole sequence, text before it included. */
  lemma AbandonedSequenceExample()
    ensures Build(MiddleParam, map[]) == "x"
    ensures Build(MiddleParam, map["b" := One(Text("y"))]) == "xayc"
  {
    MiddleParamWithout();
    MiddleParamWith();
  }

  lemma MiddleParamWithout()
    ensures Compile(MiddleParam, BuildVisit, BuildState(map[], map[]), 0).0 == "x"
  {
    assert BuildParamPart(BuildState(map[], map[]), "b") == ("", BuildState(map[], map[]));
  }

  lemma MiddleParamWith()
    ensures Compile(MiddleParam, BuildVisit, BuildState(map["b" := One(Text("y"))], map[]), 0).0 == "xayc"
  {
    var opts := map["b" := One(Text("y"))];
    assert Percent.Encode("y") == "y";
    assert BuildParamPart(BuildState(opts, map[]), "b") == ("y", BuildState(opts, map["b" := 0]));
  }
}
