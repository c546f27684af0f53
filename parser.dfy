/**
 * The Parser object of route/Parser.js: its fields, the `__guess*` handlers
 * that update them in place, and the constructor's scanning loop. Each
 * method is proved to do what the corresponding function of module Scanner
 * describes, so the facts proved there (ScanRules, RoundTrip) hold of the
 * object.
 */
module Parsing {
  import opened Wrappers
  import Percent
  import opened Parts
  import Scanner

  /** What a handler method did: left the character alone, consumed it, or threw. */
  datatype Outcome = Passed | Claimed | Thrown(fault: Scanner.Fault)

  /** A handler method's outcome and new state agree with the handler function's claim. */
  predicate Agrees(r: Outcome, claim: Scanner.Claim, before: Scanner.Scan, after: Scanner.Scan) {
    match claim
    case Pass => r == Passed && after == before
    case Took(next) => r == Claimed && after == next
    case Fail(f) => r == Thrown(f)
  }

  class Parser {
    var src: string
    var next: nat
    var chunk: string
    var buf: seq<Part>
    var stack: seq<Scanner.Frame>
    var nesting: nat
    var isEscape: bool
    var isParam: bool
    var isValue: bool
    /** The parse result, set once the whole pattern has been read. */
    var parts: seq<Part>

    /** The scanning fields as one value. */
    function State(): Scanner.Scan
      reads this
    {
      Scanner.Scan(chunk, buf, stack, nesting, isEscape, isParam, isValue)
    }

    /** The field initialisation of the constructor, before its loop. */
    constructor (pattern: string)
      ensures State() == Scanner.Start && src == pattern && next == 0 && parts == []
    {
      src := pattern;
      next := 0;
      chunk := "";
      buf := [];
      stack := [];
      nesting := 0;
      isEscape := false;
      isParam := false;
      isValue := false;
      parts := [];
    }

    /** `__addPartStatic`; a malformed escape is reported instead of thrown. */
    method AddPartStatic() returns (fault: Option<Scanner.Fault>)
      modifies this
      ensures fault.None? <==> Scanner.AddPartStatic(old(State())).Ok?
      ensures fault.None? ==> State() == Scanner.AddPartStatic(old(State())).value
      ensures fault.Some? ==> fault.value == Scanner.Malformed && State() == old(State())
      ensures src == old(src) && next == old(next)
    {
      var body := Percent.Decode(chunk);
      if body.None? {
        return Some(Scanner.Malformed);
      }
      buf := buf + [Static(body.value, Percent.Encode(body.value))];
      chunk := "";
      return None;
    }

    method GuessReverseSolidus(c: char) returns (r: Outcome)
      modifies this
      ensures Agrees(r, Scanner.GuessReverseSolidus(old(State()), c), old(State()), State())
      ensures src == old(src) && next == old(next)
    {
      if c == '\\' && !isEscape {
        isEscape := true;
        return Claimed;
      }
      return Passed;
    }

    method GuessEscaped(c: char) returns (r: Outcome)
      modifies this
      ensures Agrees(r, Scanner.GuessEscaped(old(State()), c), old(State()), State())
      ensures src == old(src) && next == old(next)
    {
      if isEscape {
        chunk := chunk + [c];
        isEscape := false;
        return Claimed;
      }
      return Passed;
    }

    method GuessSolidus(c: char) returns (r: Outcome)
      modifies this
      ensures Agrees(r, Scanner.GuessSolidus(old(State()), c), old(State()), State())
      ensures src == old(src) && next == old(next)
    {
      if c != '/' {
        return Passed;
      }
      if isParam {
        return Thrown(Scanner.Syntax);
      }
      if chunk != "" {
        var fault := AddPartStatic();
        if fault.Some? {
          return Thrown(fault.value);
        }
      }
      buf := buf + [Delimiter];
      return Claimed;
    }

    method GuessLeftParenthesis(c: char) returns (r: Outcome)
      modifies this
      ensures Agrees(r, Scanner.GuessLeftParenthesis(old(State()), c), old(State()), State())
      ensures src == old(src) && next == old(next)
    {
      if c != '(' {
        return Passed;
      }
      if isParam {
        return Thrown(Scanner.Syntax);
      }
      if chunk != "" {
        var fault := AddPartStatic();
        if fault.Some? {
          return Thrown(fault.value);
        }
      }
      stack := stack + [Scanner.Frame(buf, Scanner.OptionalHole)];
      buf := [];
      nesting := nesting + 1;
      return Claimed;
    }

    method GuessRightParenthesis(c: char) returns (r: Outcome)
      requires Scanner.Consistent(State())
      modifies this
      ensures Agrees(r, Scanner.GuessRightParenthesis(old(State()), c), old(State()), State())
      ensures src == old(src) && next == old(next)
    {
      if c != ')' {
        return Passed;
      }
      if nesting == 0 {
        return Thrown(Scanner.Syntax);
      }
      if chunk != "" {
        var fault := AddPartStatic();
        if fault.Some? {
          return Thrown(fault.value);
        }
      } else if buf == [] {
        return Thrown(Scanner.Syntax);
      }
      PopFrame();
      nesting := nesting - 1;
      return Claimed;
    }

    method GuessLessThan(c: char) returns (r: Outcome)
      modifies this
      ensures Agrees(r, Scanner.GuessLessThan(old(State()), c), old(State()), State())
      ensures src == old(src) && next == old(next)
    {
      if c != '<' {
        return Passed;
      }
      if isParam {
        return Thrown(Scanner.Syntax);
      }
      if chunk != "" {
        var fault := AddPartStatic();
        if fault.Some? {
          return Thrown(fault.value);
        }
      }
      isParam := true;
      return Claimed;
    }

    method GuessGreaterThan(c: char) returns (r: Outcome)
      requires Scanner.Consistent(State())
      modifies this
      ensures Agrees(r, Scanner.GuessGreaterThan(old(State()), c), old(State()), State())
      ensures src == old(src) && next == old(next)
    {
      if c != '>' {
        return Passed;
      }
      if !isParam || chunk == "" {
        return Thrown(Scanner.Syntax);
      }
      if isValue {
        var fault := AddPartStatic();
        if fault.Some? {
          return Thrown(fault.value);
        }
        PopFrame();
        isValue := false;
      } else {
        buf := buf + [Param(chunk, [])];
        chunk := "";
      }
      isParam := false;
      return Claimed;
    }

    method GuessEquals(c: char) returns (r: Outcome)
      modifies this
      ensures Agrees(r, Scanner.GuessEquals(old(State()), c), old(State()), State())
      ensures src == old(src) && next == old(next)
    {
      if c != '=' {
        return Passed;
      }
      if chunk == "" || !isParam || isValue {
        return Thrown(Scanner.Syntax);
      }
      isValue := true;
      stack := stack + [Scanner.Frame(buf, Scanner.ParamHole(chunk))];
      buf := [];
      chunk := "";
      return Claimed;
    }

    method GuessComma(c: char) returns (r: Outcome)
      modifies this
      ensures Agrees(r, Scanner.GuessComma(old(State()), c), old(State()), State())
      ensures src == old(src) && next == old(next)
    {
      if c != ',' {
        return Passed;
      }
      if chunk == "" || !isValue {
        return Thrown(Scanner.Syntax);
      }
      var fault := AddPartStatic();
      if fault.Some? {
        return Thrown(fault.value);
      }
      return Claimed;
    }

    /** `this.__buf = this.__stack.pop()`: the current buffer goes into the part that owns it. */
    method PopFrame()
      requires stack != []
      modifies this
      ensures State() == Scanner.Pop(old(State()))
      ensures src == old(src) && next == old(next)
    {
      var top := stack[|stack| - 1];
      buf := Scanner.Plug(top, buf);
      stack := stack[..|stack| - 1];
    }

    /** One iteration of the constructor's loop. */
    method Step(c: char) returns (fault: Option<Scanner.Fault>)
      requires Scanner.Consistent(State())
      modifies this
      ensures Scanner.Step(old(State()), c) == if fault.None? then Ok(State()) else Err(fault.value)
      ensures src == old(src) && next == old(next)
    {
      var r := GuessReverseSolidus(c);
      if r == Passed {
        r := GuessEscaped(c);
      }
      if r == Passed {
        r := GuessSolidus(c);
      }
      if r == Passed {
        r := GuessLeftParenthesis(c);
      }
      if r == Passed {
        r := GuessRightParenthesis(c);
      }
      if r == Passed {
        r := GuessLessThan(c);
      }
      if r == Passed {
        r := GuessGreaterThan(c);
      }
      if r == Passed {
        r := GuessEquals(c);
      }
      if r == Passed {
        r := GuessComma(c);
      }
      match r
      case Passed =>
        chunk := chunk + [c];
        fault := None;
      case Claimed =>
        fault := None;
      case Thrown(f) =>
        fault := Some(f);
    }

    /**
     * The constructor's loop and its final checks: on success `parts` holds
     * the tree, otherwise the error the constructor throws is returned.
     */
    method ScanAll() returns (error: Option<Scanner.ParseError>)
      requires State() == Scanner.Start && next == 0
      modifies this
      ensures error.None? <==> Scanner.Parse(src).Ok?
      ensures error.None? ==> parts == Scanner.Parse(src).value
      ensures error.Some? ==> Scanner.Parse(src) == Err(error.value)
      ensures src == old(src)
    {
      while next < |src|
        invariant next <= |src| && src == old(src)
        invariant Scanner.Consistent(State())
        invariant Scanner.Run(Scanner.Start, src) == Scanner.Run(State(), src[next..])
      {
        var c := src[next];
        assert src[next..][0] == c && src[next..][1..] == src[next + 1..];
        next := next + 1;
        var fault := Step(c);
        if fault.Some? {
          return Some(Scanner.Raise(src, fault.value));
        }
      }
      assert src[next..] == [];
      if nesting > 0 || isEscape || isParam || isValue {
        return Some(Scanner.SyntaxError(src));
      }
      if chunk != "" {
        var fault := AddPartStatic();
        if fault.Some? {
          return Some(Scanner.Raise(src, fault.value));
        }
      } else if buf == [] {
        return Some(Scanner.SyntaxError(src));
      }
      parts := buf;
      return None;
    }
  }

  /** `new Parser(pattern)`: the parsed object, or the error its constructor throws. */
  method NewParser(pattern: string) returns (r: Result<Parser, Scanner.ParseError>)
    ensures r.Ok? <==> Scanner.Parse(pattern).Ok?
    ensures r.Ok? ==> fresh(r.value) && r.value.src == pattern && r.value.parts == Scanner.Parse(pattern).value
    ensures r.Err? ==> Scanner.Parse(pattern) == Err(r.error)
  {
    var p := new Parser(pattern);
    var error := p.ScanAll();
    if error.Some? {
      return Err(error.value);
    }
    return Ok(p);
  }
}
