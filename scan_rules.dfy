/**
 * What the scanner of route/Parser.js accepts and rejects, character by
 * character, and the shape of every tree it produces.
 */
module ScanRules {
  import opened Wrappers
  import Percent
  import opened Parts
  import opened Scanner

  /** The characters some handler claims when no escape is pending. */
  const Reserved: string := "\\/()<>=,"

  /** After a backslash, any character, a reserved one or another backslash, joins the run as itself. */
  lemma EscapedCharIsLiteral(s: Scan, c: char)
    requires Consistent(s) && s.isEscape
    ensures Step(s, c) == Ok(s.(chunk := s.chunk + [c], isEscape := false))
  {
  }

  /** An unescaped backslash only sets the escape flag. */
  lemma BackslashStartsEscape(s: Scan)
    requires Consistent(s) && !s.isEscape
    ensures Step(s, '\\') == Ok(s.(isEscape := true))
  {
  }

  /** A character no handler claims joins the pending run. */
  lemma OrdinaryCharJoinsRun(s: Scan, c: char)
    requires Consistent(s) && !s.isEscape && c !in Reserved
    ensures Step(s, c) == Ok(s.(chunk := s.chunk + [c]))
  {
  }

  /** `/`, `(` and `<` are syntax errors inside `<...>`. */
  lemma OpenersRejectedInParam(s: Scan, c: char)
    requires Consistent(s) && !s.isEscape && s.isParam && c in "/(<"
    ensures Step(s, c) == Err(Syntax)
  {
  }

  /** `/`: legal exactly outside `<...>` (and when the pending run decodes); it appends a Delimiter. */
  lemma SolidusRule(s: Scan)
    requires Consistent(s) && !s.isEscape
    ensures Step(s, '/').Ok? <==> !s.isParam && FlushChunk(s).Ok?
    ensures Step(s, '/').Ok? ==> Step(s, '/').value == FlushChunk(s).value.(buf := FlushChunk(s).value.buf + [Delimiter])
  {
  }

  /** `(`: legal exactly outside `<...>`; it opens one more group with an empty buffer. */
  lemma LeftParenthesisRule(s: Scan)
    requires Consistent(s) && !s.isEscape
    ensures Step(s, '(').Ok? <==> !s.isParam && FlushChunk(s).Ok?
    ensures Step(s, '(').Ok? ==>
      var t := Step(s, '(').value;
      t.nesting == s.nesting + 1 && t.buf == [] && |t.stack| == |s.stack| + 1
      && t.stack[|s.stack|] == Frame(FlushChunk(s).value.buf, OptionalHole)
  {
  }

  /** `<`: legal exactly outside `<...>`; it opens a parameter. */
  lemma LessThanRule(s: Scan)
    requires Consistent(s) && !s.isEscape
    ensures Step(s, '<').Ok? <==> !s.isParam && FlushChunk(s).Ok?
    ensures Step(s, '<').Ok? ==> Step(s, '<').value.isParam && Step(s, '<').value.chunk == ""
  {
  }

  /**
   * `)`: legal exactly when a group is open and there is a pending run or a
   * non-empty buffer, whatever the parameter flags say; it closes one group.
   */
  lemma RightParenthesisRule(s: Scan)
    requires Consistent(s) && !s.isEscape
    ensures Step(s, ')').Ok? <==>
      s.nesting > 0 && (s.chunk != "" || s.buf != []) && FlushChunk(s).Ok?
    ensures Step(s, ')').Ok? ==>
      var t := Step(s, ')').value;
      t.nesting == s.nesting - 1 && |t.stack| == |s.stack| - 1
      && t.isParam == s.isParam && t.isValue == s.isValue
  {
  }

  /**
   * `>`: legal exactly inside `<...>` after a non-empty run; it closes the
   * parameter and any open value list.
   */
  lemma GreaterThanRule(s: Scan)
    requires Consistent(s) && !s.isEscape
    ensures Step(s, '>').Ok? <==>
      s.isParam && s.chunk != "" && (s.isValue ==> Percent.Decode(s.chunk).Some?)
    ensures Step(s, '>').Ok? ==>
      var t := Step(s, '>').value;
      !t.isParam && !t.isValue && t.chunk == "" && t.nesting == s.nesting
  {
  }

  /** `=`: legal exactly inside `<...>` after a non-empty name and before any value list. */
  lemma EqualsRule(s: Scan)
    requires Consistent(s) && !s.isEscape
    ensures Step(s, '=').Ok? <==> s.chunk != "" && s.isParam && !s.isValue
    ensures Step(s, '=').Ok? ==>
      var t := Step(s, '=').value;
      t.isValue && t.buf == [] && t.chunk == "" && t.stack == s.stack + [Frame(s.buf, ParamHole(s.chunk))]
  {
  }

  /** `,`: legal exactly inside a value list after a non-empty run; it adds that value. */
  lemma CommaRule(s: Scan)
    requires Consistent(s) && !s.isEscape
    ensures Step(s, ',').Ok? <==> s.chunk != "" && s.isValue && Percent.Decode(s.chunk).Some?
    ensures Step(s, ',').Ok? ==> Step(s, ',').value == AddPartStatic(s).value
  {
  }

  /** A stretch of characters no handler claims only grows the pending run. */
  lemma {:induction false} RunOrdinary(s: Scan, src: string)
    requires Consistent(s) && !s.isEscape
    requires forall i | 0 <= i < |src| :: src[i] !in Reserved
    ensures Run(s, src) == Ok(s.(chunk := s.chunk + src))
    decreases |src|
  {
    if src == [] {
      assert s.chunk + src == s.chunk;
    } else {
      OrdinaryCharJoinsRun(s, src[0]);
      var t := s.(chunk := s.chunk + [src[0]]);
      RunOrdinary(t, src[1..]);
      assert t.chunk + src[1..] == s.chunk + src;
    }
  }

  /**
   * A pattern without reserved characters is one Static part holding its
   * decoding, or the URIError of the decoder.
   */
  lemma ParsePlain(src: string)
    requires src != [] && forall i | 0 <= i < |src| :: src[i] !in Reserved
    ensures Percent.Decode(src).None? ==> Parse(src) == Err(UriError)
    ensures Percent.Decode(src).Some? ==>
      var body := Percent.Decode(src).value;
      Parse(src) == Ok([Static(body, Percent.Encode(body))])
  {
    RunPlain(src);
    ParseAfterRun(src, Start.(chunk := src));
    FinishRun(src);
  }

  /** Text without reserved characters is one run, kept pending. */
  lemma RunPlain(src: string)
    requires forall i | 0 <= i < |src| :: src[i] !in Reserved
    ensures Run(Start, src) == Ok(Start.(chunk := src))
  {
    RunOrdinary(Start, src);
    assert "" + src == src;
  }

  /** A parse whose loop ends in s is decided by the final checks on s. */
  lemma ParseAfterRun(src: string, s: Scan)
    requires Run(Start, src) == Ok(s)
    ensures Finish(s).Err? ==> Parse(src) == Err(Raise(src, Finish(s).error))
    ensures Finish(s).Ok? ==> Parse(src) == Ok(Finish(s).value)
  {
  }

  /** The final flush of a run that is all there is. */
  lemma FinishRun(chunk: string)
    requires chunk != []
    ensures Finish(Start.(chunk := chunk)) ==
      match Percent.Decode(chunk)
      case None => Err(Malformed)
      case Some(body) => Ok([Static(body, Percent.Encode(body))])
  {
    if Percent.Decode(chunk).Some? {
      var body := Percent.Decode(chunk).value;
      assert [] + [Static(body, Percent.Encode(body))] == [Static(body, Percent.Encode(body))];
    }
  }

  /** An unclosed group, escape, parameter or value list at the end is a syntax error. */
  lemma ParseRejectsOpen(src: string)
    requires Run(Start, src).Ok?
    requires var s := Run(Start, src).value; s.nesting > 0 || s.isEscape || s.isParam || s.isValue
    ensures Parse(src) == Err(SyntaxError(src))
  {
  }

  /** Input that leaves no run and no parts is a syntax error. */
  lemma ParseRejectsNothing(src: string)
    requires Run(Start, src).Ok?
    requires var s := Run(Start, src).value; s.chunk == "" && s.buf == []
    ensures Parse(src) == Err(SyntaxError(src))
  {
  }

  /** The empty pattern is rejected. */
  lemma ParseEmpty()
    ensures Parse("") == Err(SyntaxError(""))
  {
  }

  /**
   * The shape of a state a good tree grows from: every part built so far is
   * good, only the innermost frame may collect a parameter's values, and
   * while it does, only Statics are collected.
   */
  predicate GoodScan(s: Scan) {
    Consistent(s)
    && AllGood(s.buf)
    && (forall i | 0 <= i < |s.stack| :: AllGood(s.stack[i].prefix))
    && (forall i | 0 <= i < |s.stack| - 1 :: s.stack[i].hole.OptionalHole?)
    && (s.stack != [] && s.stack[|s.stack| - 1].hole.ParamHole? ==>
          s.isValue && s.stack[|s.stack| - 1].hole.name != "" && forall p | p in s.buf :: p.Static?)
  }

  lemma AllGoodAppend(a: seq<Part>, b: seq<Part>)
    requires AllGood(a) && AllGood(b)
    ensures AllGood(a + b)
  {
    forall p | p in a + b ensures Good(p) {
      assert p in a || p in b;
    }
  }

  /** Plugging a non-empty buffer into the innermost frame keeps the state good. */
  lemma PopGood(s: Scan)
    requires GoodScan(s) && s.stack != [] && s.buf != []
    ensures AllGood(Pop(s).buf)
    ensures forall i | 0 <= i < |Pop(s).stack| :: AllGood(Pop(s).stack[i].prefix)
    ensures forall i | 0 <= i < |Pop(s).stack| :: Pop(s).stack[i].hole.OptionalHole?
  {
    var top := s.stack[|s.stack| - 1];
    var part := Plug(top, s.buf)[|top.prefix|];
    assert Good(part) by {
      if top.hole.ParamHole? {
        assert forall v | v in s.buf :: v.Static? && Good(v);
      }
    }
    AllGoodAppend(top.prefix, [part]);
    assert Plug(top, s.buf) == top.prefix + [part];
  }

  lemma FlushGood(s: Scan)
    requires GoodScan(s) && FlushChunk(s).Ok?
    ensures GoodScan(FlushChunk(s).value)
    ensures s.chunk != "" ==> FlushChunk(s).value.buf != []
  {
    if s.chunk != "" {
      var t := FlushChunk(s).value;
      assert Good(t.buf[|s.buf|]);
      AllGoodAppend(s.buf, [t.buf[|s.buf|]]);
      assert t.buf == s.buf + [t.buf[|s.buf|]];
    }
  }

  lemma {:induction false} SolidusGood(s: Scan, c: char)
    requires GoodScan(s) && GuessSolidus(s, c).Took?
    ensures GoodScan(GuessSolidus(s, c).next)
  {
    FlushGood(s);
    var t := FlushChunk(s).value;
    AllGoodAppend(t.buf, [Delimiter]);
  }

  lemma {:induction false} LeftParenthesisGood(s: Scan, c: char)
    requires GoodScan(s) && GuessLeftParenthesis(s, c).Took?
    ensures GoodScan(GuessLeftParenthesis(s, c).next)
  {
    FlushGood(s);
  }

  lemma {:induction false} RightParenthesisGood(s: Scan, c: char)
    requires GoodScan(s) && GuessRightParenthesis(s, c).Took?
    ensures GoodScan(GuessRightParenthesis(s, c).next)
  {
    FlushGood(s);
    var t := FlushChunk(s).value;
    PopGood(t);
  }

  lemma {:induction false} LessThanGood(s: Scan, c: char)
    requires GoodScan(s) && GuessLessThan(s, c).Took?
    ensures GoodScan(GuessLessThan(s, c).next)
  {
    FlushGood(s);
  }

  lemma {:induction false} GreaterThanGood(s: Scan, c: char)
    requires GoodScan(s) && GuessGreaterThan(s, c).Took?
    ensures GoodScan(GuessGreaterThan(s, c).next)
  {
    if s.isValue {
      FlushGood(s);
      PopGood(FlushChunk(s).value);
    } else {
      assert Good(Param(s.chunk, []));
      AllGoodAppend(s.buf, [Param(s.chunk, [])]);
    }
  }

  lemma {:induction false} EqualsGood(s: Scan, c: char)
    requires GoodScan(s) && GuessEquals(s, c).Took?
    ensures GoodScan(GuessEquals(s, c).next)
  {
  }

  lemma {:induction false} CommaGood(s: Scan, c: char)
    requires GoodScan(s) && GuessComma(s, c).Took?
    ensures GoodScan(GuessComma(s, c).next)
  {
    FlushGood(s);
  }

  /** Every step from a good state leads to a good state. */
  lemma {:induction false} StepGood(s: Scan, c: char)
    requires GoodScan(s) && Step(s, c).Ok?
    ensures GoodScan(Step(s, c).value)
  {
    if GuessReverseSolidus(s, c).Took? || GuessEscaped(s, c).Took? {
    } else if GuessSolidus(s, c).Took? {
      SolidusGood(s, c);
    } else if GuessLeftParenthesis(s, c).Took? {
      LeftParenthesisGood(s, c);
    } else if GuessRightParenthesis(s, c).Took? {
      RightParenthesisGood(s, c);
    } else if GuessLessThan(s, c).Took? {
      LessThanGood(s, c);
    } else if GuessGreaterThan(s, c).Took? {
      GreaterThanGood(s, c);
    } else if GuessEquals(s, c).Took? {
      EqualsGood(s, c);
    } else if GuessComma(s, c).Took? {
      CommaGood(s, c);
    }
  }

  lemma {:induction false} RunGood(s: Scan, src: string)
    requires GoodScan(s) && Run(s, src).Ok?
    ensures GoodScan(Run(s, src).value)
    decreases |src|
  {
    if src != [] {
      StepGood(s, src[0]);
      RunGood(Step(s, src[0]).value, src[1..]);
    }
  }

  /**
   * Every successful parse is a non-empty good tree: each Static holds a
   * non-empty decoded run and its encoding, each Param has a non-empty name
   * and only Static values, and each Option is non-empty.
   */
  lemma ParseGood(src: string)
    requires Parse(src).Ok?
    ensures Parse(src).value != [] && AllGood(Parse(src).value)
  {
    RunGood(Start, src);
    var s := Run(Start, src).value;
    assert s.stack == [];
    FlushGood(s);
  }
}
