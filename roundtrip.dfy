/**
 * Parser `toString` and the parser are inverse on trees text can spell:
 * parsing the rendering of such a tree gives the tree back.
 */
module RoundTrip {
  import opened Wrappers
  import Percent
  import opened Parts
  import opened Scanner
  import opened ScanRules

  /** A state between parts, outside any `<...>`, whose pending run holds no `%`. */
  predicate Idle(s: Scan) {
    Consistent(s) && !s.isEscape && !s.isParam && !s.isValue && '%' !in s.chunk
  }

  /** The buffer as it stands once the pending run is added as a Static. */
  function Flushed(s: Scan): seq<Part> {
    if s.chunk == "" then s.buf else s.buf + [Static(s.chunk, Percent.Encode(s.chunk))]
  }

  /** The state after reading the text of one part. */
  function Absorbed(s: Scan, p: Part): Scan {
    if p.Static? then s.(chunk := s.chunk + p.body) else s.(chunk := "", buf := Flushed(s) + [p])
  }

  function AbsorbedAll(s: Scan, ps: seq<Part>): Scan
    decreases |ps|
  {
    if ps == [] then s else AbsorbedAll(Absorbed(s, ps[0]), ps[1..])
  }

  /** Reading `a + b` is reading `a`, then `b` from where `a` left off. */
  lemma {:induction false} RunConcat(s: Scan, a: string, b: string, t: Scan)
    requires Consistent(s)
    ensures Run(s, a) == Ok(t) ==> Run(s, a + b) == Run(t, b)
    decreases |a|
  {
    if a == [] {
      assert a + b == b;
    } else if Step(s, a[0]).Ok? {
      var u := Step(s, a[0]).value;
      assert (a + b)[0] == a[0] && (a + b)[1..] == a[1..] + b;
      assert Run(s, a) == Run(u, a[1..]);
      assert Run(s, a + b) == Run(u, a[1..] + b);
      RunConcat(u, a[1..], b, t);
    } else {
      assert Run(s, a).Err?;
    }
  }

  lemma RunOne(s: Scan, c: char)
    requires Consistent(s)
    ensures Run(s, [c]) == Step(s, c)
  {
    assert [c][1..] == [];
    if Step(s, c).Ok? {
      var t := Step(s, c).value;
      assert Run(t, []) == Ok(t);
    }
  }

  /** Outside an escape, the text `Escape(t)` adds exactly `t` to the pending run. */
  lemma {:induction false} EscapeRun(s: Scan, t: string)
    requires Consistent(s) && !s.isEscape
    ensures Run(s, Escape(t)) == Ok(s.(chunk := s.chunk + t))
    decreases |t|
  {
    if t == [] {
      assert s.chunk + t == s.chunk;
    } else {
      var c := t[0];
      var s1 := s.(chunk := s.chunk + [c]);
      EscapeSplit(s, t);
      EscapeCharRun(s, c);
      RunConcat(s, EscapeChar(c), Escape(t[1..]), s1);
      EscapeRun(s1, t[1..]);
    }
  }

  lemma EscapeSplit(s: Scan, t: string)
    requires t != []
    ensures Escape(t) == EscapeChar(t[0]) + Escape(t[1..])
    ensures var s1 := s.(chunk := s.chunk + [t[0]]); s1.(chunk := s1.chunk + t[1..]) == s.(chunk := s.chunk + t)
  {
    assert s.chunk + [t[0]] + t[1..] == s.chunk + t;
  }

  /** The escaped spelling of one character adds that character to the pending run. */
  lemma EscapeCharRun(s: Scan, c: char)
    requires Consistent(s) && !s.isEscape
    ensures Run(s, EscapeChar(c)) == Ok(s.(chunk := s.chunk + [c]))
    ensures Consistent(s.(chunk := s.chunk + [c]))
  {
    if c in SyntaxChars {
      var e := s.(isEscape := true);
      BackslashStartsEscape(s);
      EscapedCharIsLiteral(e, c);
      assert ['\\', c] == ['\\'] + [c];
      RunOne(s, '\\');
      RunOne(e, c);
      RunConcat(s, ['\\'], [c], e);
    } else {
      OrdinaryCharJoinsRun(s, c);
      RunOne(s, c);
    }
  }

  lemma FlushIdle(s: Scan)
    requires '%' !in s.chunk
    ensures FlushChunk(s) == Ok(s.(chunk := "", buf := Flushed(s)))
  {
    if s.chunk != "" {
      Percent.DecodeWithoutPercent(s.chunk);
    }
  }

  /** Reading the texts of canonical parts keeps the state idle and extends the flushed buffer by them. */
  lemma {:induction false} AbsorbedAllShape(s: Scan, ps: seq<Part>)
    requires Idle(s) && NoAdjacentStatics(ps) && forall p | p in ps :: Canonical(p)
    requires ps != [] && ps[0].Static? ==> s.chunk == ""
    ensures Idle(AbsorbedAll(s, ps))
    ensures Flushed(AbsorbedAll(s, ps)) == Flushed(s) + ps
    ensures AbsorbedAll(s, ps).stack == s.stack && AbsorbedAll(s, ps).nesting == s.nesting
    decreases |ps|
  {
    if ps == [] {
      assert Flushed(s) + ps == Flushed(s);
    } else {
      var p := ps[0];
      var s1 := Absorbed(s, p);
      assert AbsorbedAll(s, ps) == AbsorbedAll(s1, ps[1..]);
      TailCanonical(ps);
      AbsorbedFlushed(s, p);
      AbsorbedAllShape(s1, ps[1..]);
      assert Flushed(s) + [p] + ps[1..] == Flushed(s) + ps;
    }
  }

  lemma TailCanonical(ps: seq<Part>)
    requires ps != [] && NoAdjacentStatics(ps) && forall p | p in ps :: Canonical(p)
    ensures Canonical(ps[0]) && NoAdjacentStatics(ps[1..]) && forall q | q in ps[1..] :: Canonical(q)
    ensures ps[1..] != [] && ps[1..][0].Static? ==> !ps[0].Static?
  {
    assert ps[0] in ps;
    assert forall q | q in ps[1..] :: q in ps;
    if |ps| > 1 {
      assert ps[1..][0] == ps[1];
    }
  }

  /** The text of one canonical part, read from an idle state, is absorbed. */
  lemma {:induction false} AbsorbPart(s: Scan, p: Part)
    requires Idle(s) && Canonical(p)
    requires p.Static? ==> s.chunk == ""
    ensures Run(s, Serialize(p)) == Ok(Absorbed(s, p))
    decreases p, 1
  {
    match p
    case Static(body, _) =>
      EscapeRun(s, body);
    case Delimiter =>
      FlushIdle(s);
      SolidusRule(s);
      RunOne(s, '/');
    case Param(name, values) =>
      AbsorbParam(s, name, values);
    case Optional(parts) =>
      AbsorbOptional(s, parts);
  }

  lemma {:induction false} AbsorbOptional(s: Scan, parts: seq<Part>)
    requires Idle(s) && Canonical(Optional(parts))
    ensures Run(s, Serialize(Optional(parts))) == Ok(Absorbed(s, Optional(parts)))
    decreases Optional(parts), 0
  {
    FlushIdle(s);
    LeftParenthesisRule(s);
    var s1 := s.(chunk := "", buf := [], stack := s.stack + [Frame(Flushed(s), OptionalHole)], nesting := s.nesting + 1);
    assert Step(s, '(') == Ok(s1);
    RunOne(s, '(');
    AbsorbSeq(s1, parts);
    AbsorbedAllShape(s1, parts);
    var t := AbsorbedAll(s1, parts);
    assert Flushed(t) == parts by {
      assert Flushed(s1) == [];
    }
    FlushIdle(t);
    var u := t.(chunk := "", buf := parts);
    assert Pop(u) == s.(chunk := "", buf := Flushed(s) + [Optional(parts)], nesting := s.nesting + 1);
    assert Step(t, ')') == Ok(Absorbed(s, Optional(parts)));
    RunOne(t, ')');
    RunConcat(s, "(", SerializeSeq(parts), s1);
    RunConcat(s, "(" + SerializeSeq(parts), ")", t);
  }

  /** The pending run becomes the last Static; an idle run decodes to itself. */
  lemma AbsorbedFlushed(s: Scan, p: Part)
    requires Idle(s) && Canonical(p)
    requires p.Static? ==> s.chunk == ""
    ensures Flushed(Absorbed(s, p)) == Flushed(s) + [p]
    ensures Idle(Absorbed(s, p))
    ensures Absorbed(s, p).stack == s.stack && Absorbed(s, p).nesting == s.nesting
    ensures !p.Static? ==> Absorbed(s, p).chunk == ""
  {
    if p.Static? {
      assert s.chunk + p.body == p.body;
    }
  }

  /** `<` and an escaped name: a parameter is open with its name pending. */
  lemma OpenParam(s: Scan, name: string)
    requires Idle(s)
    ensures Run(s, "<" + Escape(name)) == Ok(s.(chunk := name, buf := Flushed(s), isParam := true))
  {
    FlushIdle(s);
    LessThanRule(s);
    var s1 := s.(chunk := "", buf := Flushed(s), isParam := true);
    assert Step(s, '<') == Ok(s1);
    RunOne(s, '<');
    EscapeRun(s1, name);
    assert s1.chunk + name == name;
    RunConcat(s, "<", Escape(name), s1);
  }

  lemma {:induction false} AbsorbParam(s: Scan, name: string, values: seq<Part>)
    requires Idle(s) && Canonical(Param(name, values))
    ensures Run(s, Serialize(Param(name, values))) == Ok(Absorbed(s, Param(name, values)))
    decreases Param(name, values), 0
  {
    if values == [] {
      AbsorbBareParam(s, name);
    } else {
      AbsorbValuedParam(s, name, values);
    }
  }

  lemma AbsorbBareParam(s: Scan, name: string)
    requires Idle(s) && name != ""
    ensures Run(s, Serialize(Param(name, []))) == Ok(Absorbed(s, Param(name, [])))
  {
    OpenParam(s, name);
    var s2 := s.(chunk := name, buf := Flushed(s), isParam := true);
    GreaterThanRule(s2);
    assert Step(s2, '>') == Ok(Absorbed(s, Param(name, [])));
    RunOne(s2, '>');
    RunConcat(s, "<" + Escape(name), ">", s2);
  }

  lemma AbsorbValuedParam(s: Scan, name: string, values: seq<Part>)
    requires Idle(s) && Canonical(Param(name, values)) && values != []
    ensures Run(s, Serialize(Param(name, values))) == Ok(Absorbed(s, Param(name, values)))
  {
    var s3 := s.(chunk := "", buf := [], isParam := true, isValue := true,
      stack := s.stack + [Frame(Flushed(s), ParamHole(name))]);
    var open, items := "<" + Escape(name) + "=", Join(EscapedBodies(values), ",");
    OpenValues(s, name);
    ValueList(s3, values);
    var s4 := s3.(buf := values[..|values| - 1], chunk := values[|values| - 1].body);
    assert s3.buf + values[..|values| - 1] == values[..|values| - 1];
    RunConcat(s, open, items, s3);
    CloseValues(s, s4, name, values);
    RunOne(s4, '>');
    RunConcat(s, open + items, ">", s4);
  }

  /** `<`, the name and `=`: the parameter's value list opens. */
  lemma OpenValues(s: Scan, name: string)
    requires Idle(s) && name != ""
    ensures Run(s, "<" + Escape(name) + "=") == Ok(s.(chunk := "", buf := [], isParam := true, isValue := true,
      stack := s.stack + [Frame(Flushed(s), ParamHole(name))]))
  {
    OpenParam(s, name);
    var s2 := s.(chunk := name, buf := Flushed(s), isParam := true);
    EqualsRule(s2);
    RunOne(s2, '=');
    RunConcat(s, "<" + Escape(name), "=", s2);
  }

  /** `>` after the last value: the value list is plugged into its parameter. */
  lemma CloseValues(s: Scan, s4: Scan, name: string, values: seq<Part>)
    requires Idle(s) && Canonical(Param(name, values)) && values != []
    requires s4 == s.(chunk := values[|values| - 1].body, buf := values[..|values| - 1], isParam := true,
      isValue := true, stack := s.stack + [Frame(Flushed(s), ParamHole(name))])
    ensures Consistent(s4) && Step(s4, '>') == Ok(Absorbed(s, Param(name, values)))
  {
    var last := values[|values| - 1];
    assert last in values;
    Percent.DecodeWithoutPercent(last.body);
    assert values[..|values| - 1] + [last] == values;
    GreaterThanRule(s4);
    var t := AddPartStatic(s4).value;
    assert t.buf == values;
    assert Pop(t) == s.(chunk := "", buf := Flushed(s) + [Param(name, values)], isParam := true, isValue := true);
  }

  /** The joined values of a list, read just after its `=`. */
  lemma ValueList(v: Scan, values: seq<Part>)
    requires Consistent(v) && v.isValue && !v.isEscape && v.chunk == ""
    requires values != [] && forall x | x in values :: x.Static? && Canonical(x)
    ensures Run(v, Join(EscapedBodies(values), ",")) == Ok(v.(buf := v.buf + values[..|values| - 1], chunk := values[|values| - 1].body))
  {
    InitLast(values);
    ValuesRun(v, values[..|values| - 1], values[|values| - 1]);
  }

  /** A value list is its init and its last value, all canonical Statics. */
  lemma InitLast(values: seq<Part>)
    requires values != [] && forall x | x in values :: x.Static? && Canonical(x)
    ensures values[..|values| - 1] + [values[|values| - 1]] == values
    ensures values[|values| - 1].Static? && AllValues(values[..|values| - 1])
  {
    var init := values[..|values| - 1];
    assert values[|values| - 1] in values;
    InitMembers(values);
    ValueStatics(init);
  }

  lemma InitMembers<T>(s: seq<T>)
    requires s != []
    ensures s[..|s| - 1] + [s[|s| - 1]] == s
    ensures forall x | x in s[..|s| - 1] :: x in s
  {
  }

  /** Every value is a canonical Static, one at a time. */
  predicate AllValues(init: seq<Part>) {
    init == [] || (init[0].Static? && Canonical(init[0]) && AllValues(init[1..]))
  }

  lemma {:induction false} ValueStatics(init: seq<Part>)
    requires forall x | x in init :: x.Static? && Canonical(x)
    ensures AllValues(init)
  {
    if init != [] {
      assert init[0] in init;
      assert forall x | x in init[1..] :: x in init;
      ValueStatics(init[1..]);
    }
  }

  /** Inside an open value list, the joined values leave all but the last as Statics and the last pending. */
  lemma {:induction false} ValuesRun(v: Scan, init: seq<Part>, last: Part)
    requires Consistent(v) && v.isValue && !v.isEscape && v.chunk == ""
    requires AllValues(init) && last.Static?
    ensures Reads(v, Join(EscapedBodies(init + [last]), ","), v.(buf := v.buf + init, chunk := last.body))
    decreases |init|
  {
    if init == [] {
      JoinCons(init, last);
      LastValueRun(v, last);
    } else {
      var w1 := v.(buf := v.buf + [init[0]]);
      ValuesRun(w1, init[1..], last);
      ValuesRunStep(v, init, last);
    }
  }

  /** One value and its comma, then the rest of the list as the induction hypothesis reads it. */
  lemma ValuesRunStep(v: Scan, init: seq<Part>, last: Part)
    requires Consistent(v) && v.isValue && !v.isEscape && v.chunk == ""
    requires init != [] && AllValues(init) && last.Static?
    requires var w1 := v.(buf := v.buf + [init[0]]);
      Reads(w1, Join(EscapedBodies(init[1..] + [last]), ","), w1.(buf := w1.buf + init[1..], chunk := last.body))
    ensures Reads(v, Join(EscapedBodies(init + [last]), ","), v.(buf := v.buf + init, chunk := last.body))
  {
    var x := init[0];
    var w1 := v.(buf := v.buf + [x]);
    var a, b := Escape(x.body) + ",", Join(EscapedBodies(init[1..] + [last]), ",");
    var u := w1.(buf := w1.buf + init[1..], chunk := last.body);
    JoinCons(init, last);
    assert w1.buf + init[1..] == v.buf + init;
    FirstValueComma(v, init);
    ReadsConcat(v, a, b, w1, u);
  }

  /** Reading a, then b, reads a + b. */
  lemma ReadsConcat(s: Scan, a: string, b: string, t: Scan, u: Scan)
    requires Consistent(s) && Consistent(t) && Reads(s, a, t) && Reads(t, b, u)
    ensures Reads(s, a + b, u)
  {
    RunConcat(s, a, b, t);
  }

  /** Reading `text` from v ends in w without an error. */
  predicate Reads(v: Scan, text: string, w: Scan)
    requires Consistent(v)
  {
    Run(v, text) == Ok(w)
  }

  /** The first value of a list and its comma. */
  lemma FirstValueComma(v: Scan, init: seq<Part>)
    requires Consistent(v) && v.isValue && !v.isEscape && v.chunk == ""
    requires init != [] && AllValues(init)
    ensures init[0].Static? && Run(v, Escape(init[0].body) + ",") == Ok(v.(buf := v.buf + [init[0]]))
  {
    ValueComma(v, init[0]);
  }

  /** The joined text of a value list: the last value alone, or the first value, a comma and the rest. */
  lemma JoinCons(init: seq<Part>, last: Part)
    requires (init != [] ==> init[0].Static?) && last.Static?
    ensures init == [] ==> Join(EscapedBodies(init + [last]), ",") == Escape(last.body)
    ensures init != [] ==>
      Join(EscapedBodies(init + [last]), ",") == Escape(init[0].body) + "," + Join(EscapedBodies(init[1..] + [last]), ",")
  {
    var values := init + [last];
    assert values[0] == (if init == [] then last else init[0]);
    assert init != [] ==> values[1..] == init[1..] + [last];
    JoinEscaped(values);
  }

  /** The last value: its text becomes the pending run. */
  lemma LastValueRun(v: Scan, x: Part)
    requires Consistent(v) && !v.isEscape && v.chunk == "" && x.Static?
    ensures Run(v, Escape(x.body)) == Ok(v.(buf := v.buf + [], chunk := x.body))
  {
    EscapeRun(v, x.body);
    assert v.chunk + x.body == x.body;
    assert v.buf + [] == v.buf;
  }

  lemma JoinEscaped(values: seq<Part>)
    requires values != [] && values[0].Static?
    ensures |values| == 1 ==> Join(EscapedBodies(values), ",") == Escape(values[0].body)
    ensures |values| > 1 ==> Join(EscapedBodies(values), ",") == Escape(values[0].body) + "," + Join(EscapedBodies(values[1..]), ",")
  {
    assert EscapedBodies(values)[0] == Escape(values[0].body);
    assert EscapedBodies(values)[1..] == EscapedBodies(values[1..]);
  }

  /** One value and the comma after it: the value joins the list. */
  lemma ValueComma(v: Scan, x: Part)
    requires Consistent(v) && v.isValue && !v.isEscape && v.chunk == ""
    requires x.Static? && Canonical(x)
    ensures Run(v, Escape(x.body) + ",") == Ok(v.(buf := v.buf + [x]))
  {
    EscapeRun(v, x.body);
    assert v.chunk + x.body == x.body;
    var w := v.(chunk := x.body);
    CommaStep(w, x);
    RunOne(w, ',');
    RunConcat(v, Escape(x.body), ",", w);
  }

  lemma CommaStep(w: Scan, x: Part)
    requires Consistent(w) && w.isValue && !w.isEscape && x.Static? && Canonical(x) && w.chunk == x.body
    ensures Step(w, ',') == Ok(w.(chunk := "", buf := w.buf + [x]))
  {
    Percent.DecodeWithoutPercent(x.body);
    CommaRule(w);
  }

  /** The text of a canonical sequence, read from an idle state, is absorbed part by part. */
  lemma {:induction false} AbsorbSeq(s: Scan, ps: seq<Part>)
    requires Idle(s) && NoAdjacentStatics(ps) && forall p | p in ps :: Canonical(p)
    requires ps != [] && ps[0].Static? ==> s.chunk == ""
    ensures Run(s, SerializeSeq(ps)) == Ok(AbsorbedAll(s, ps))
    decreases ps, 2
  {
    if ps == [] {
    } else {
      var p := ps[0];
      TailCanonical(ps);
      AbsorbPart(s, p);
      var s1 := Absorbed(s, p);
      AbsorbedFlushed(s, p);
      AbsorbSeq(s1, ps[1..]);
      RunConcat(s, Serialize(p), SerializeSeq(ps[1..]), s1);
    }
  }

  /** Parsing the direct rendering of a canonical tree gives the tree back. */
  lemma ParseSerialize(ps: seq<Part>)
    requires CanonicalSeq(ps)
    ensures Parse(SerializeSeq(ps)) == Ok(ps)
  {
    assert Idle(Start);
    AbsorbSeq(Start, ps);
    AbsorbedAllShape(Start, ps);
    var t := AbsorbedAll(Start, ps);
    assert Flushed(Start) == [];
    assert [] + ps == ps;
    if t.chunk != "" {
      Percent.DecodeWithoutPercent(t.chunk);
    }
  }

  /**
   * Parser `toString` is a right inverse of parsing on canonical trees: a
   * tree without adjacent Statics and without `%` in Static text survives
   * being written out and read back.
   */
  lemma ParseToString(ps: seq<Part>)
    requires CanonicalSeq(ps)
    ensures Parse(ToString(ps)) == Ok(ps)
  {
    forall p | p in ps ensures Good(p) { CanonicalIsGood(p); }
    ToStringIsSerialize(ps);
    ParseSerialize(ps);
  }
}
