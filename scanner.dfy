/**
 * The scanning state machine of route/Parser.js as pure functions.
 *
 * The JavaScript parser keeps the buffer being filled in `__buf` and pushes
 * the enclosing buffers onto `__stack`; the part that owns the new buffer
 * (an Option, or a Param with values) is pushed into the enclosing buffer
 * before it is filled, and is filled through the shared array. Here the
 * stack holds frames of a zipper instead: a frame is the enclosing buffer
 * together with the kind of part whose contents are being collected, and
 * popping a frame plugs the finished buffer into that part. Since a buffer
 * is never written again once its frame is popped, the trees agree.
 */
module Scanner {
  import opened Wrappers
  import Percent
  import opened Parts

  /** The part a frame is collecting contents for. */
  datatype Hole = OptionalHole | ParamHole(name: string)

  /** An enclosing buffer and the part that the current buffer will fill. */
  datatype Frame = Frame(prefix: seq<Part>, hole: Hole)

  /** Popping a frame: the enclosing buffer gets its part, holding `buf`. */
  function Plug(f: Frame, buf: seq<Part>): (r: seq<Part>)
    ensures |r| == |f.prefix| + 1 && r[..|f.prefix|] == f.prefix
    ensures r[|f.prefix|] == (if f.hole.OptionalHole? then Optional(buf) else Param(f.hole.name, buf))
  {
    match f.hole
    case OptionalHole => f.prefix + [Optional(buf)]
    case ParamHole(name) => f.prefix + [Param(name, buf)]
  }

  /** The fields `__chunk`, `__buf`, `__stack`, `__nesting`, `__isEscape`, `__isParam`, `__isValue`. */
  datatype Scan = Scan(
    chunk: string,
    buf: seq<Part>,
    stack: seq<Frame>,
    nesting: nat,
    isEscape: bool,
    isParam: bool,
    isValue: bool)

  /** The state the constructor sets up before the loop. */
  const Start: Scan := Scan("", [], [], 0, false, false, false)

  /**
   * What every reachable state satisfies: one frame per open group plus one
   * for an open value list, and a value list only inside a parameter.
   */
  predicate Consistent(s: Scan) {
    |s.stack| == s.nesting + (if s.isValue then 1 else 0) && (s.isValue ==> s.isParam)
  }

  /** The two things that stop a parse: a syntax error, or a malformed `%` escape (a URIError). */
  datatype Fault = Syntax | Malformed

  /** What a handler does with the current character: not its business, consumed, or thrown. */
  datatype Claim = Pass | Took(next: Scan) | Fail(fault: Fault)

  /**
   * `__addPartStatic`: the pending run is decoded into a Static part that
   * also keeps its encoding, and the run is cleared.
   */
  function AddPartStatic(s: Scan): (r: Result<Scan, Fault>)
    ensures r.Ok? <==> Percent.Decode(s.chunk).Some?
    ensures r.Err? ==> r.error == Malformed
    ensures r.Ok? ==>
      var body := Percent.Decode(s.chunk).value;
      r.value.chunk == "" && r.value.buf == s.buf + [Static(body, Percent.Encode(body))]
      && r.value.stack == s.stack && r.value.nesting == s.nesting
      && r.value.isEscape == s.isEscape && r.value.isParam == s.isParam && r.value.isValue == s.isValue
    ensures r.Ok? && s.chunk != "" ==> Good(r.value.buf[|s.buf|])
  {
    match Percent.Decode(s.chunk)
    case None => Err(Malformed)
    case Some(body) => Ok(s.(chunk := "", buf := s.buf + [Static(body, Percent.Encode(body))]))
  }

  /** The `if (this.__chunk) this.__addPartStatic()` that several handlers start with. */
  function FlushChunk(s: Scan): (r: Result<Scan, Fault>)
    ensures r.Ok? ==> (r.value.chunk == "" && r.value.stack == s.stack && r.value.nesting == s.nesting
      && r.value.isEscape == s.isEscape && r.value.isParam == s.isParam && r.value.isValue == s.isValue)
    ensures s.chunk == "" ==> r == Ok(s)
  {
    if s.chunk == "" then Ok(s) else AddPartStatic(s)
  }

  /** `this.__buf = this.__stack.pop()`. */
  function Pop(s: Scan): Scan
    requires s.stack != []
  {
    var top := s.stack[|s.stack| - 1];
    s.(buf := Plug(top, s.buf), stack := s.stack[..|s.stack| - 1])
  }

  /** `__guessReverseSolidus`: an unescaped backslash starts an escape. */
  function GuessReverseSolidus(s: Scan, c: char): (r: Claim)
    ensures r.Pass? <==> c != '\\' || s.isEscape
    ensures r.Took? ==> r.next.isEscape && r.next.chunk == s.chunk && r.next.buf == s.buf
  {
    if c == '\\' && !s.isEscape then Took(s.(isEscape := true)) else Pass
  }

  /** `__guessEscaped`: the character after a backslash is literal. */
  function GuessEscaped(s: Scan, c: char): (r: Claim)
    ensures r.Pass? <==> !s.isEscape
    ensures r.Took? ==> !r.next.isEscape && r.next.chunk == s.chunk + [c] && r.next.buf == s.buf
  {
    if s.isEscape then Took(s.(chunk := s.chunk + [c], isEscape := false)) else Pass
  }

  /** `__guessSolidus`: a delimiter, not allowed inside `<...>`. */
  function GuessSolidus(s: Scan, c: char): (r: Claim)
    ensures r.Pass? <==> c != '/'
    ensures c == '/' && s.isParam ==> r == Fail(Syntax)
    ensures r.Took? ==> r.next.chunk == "" && r.next.buf != [] && r.next.buf[|r.next.buf| - 1] == Delimiter
  {
    if c != '/' then Pass
    else if s.isParam then Fail(Syntax)
    else
      match FlushChunk(s)
      case Err(f) => Fail(f)
      case Ok(t) => Took(t.(buf := t.buf + [Delimiter]))
  }

  /** `__guessLeftParenthesis`: opens an Option, not allowed inside `<...>`. */
  function GuessLeftParenthesis(s: Scan, c: char): (r: Claim)
    ensures r.Pass? <==> c != '('
    ensures c == '(' && s.isParam ==> r == Fail(Syntax)
    ensures r.Took? ==> r.next.nesting == s.nesting + 1 && |r.next.stack| == |s.stack| + 1 && r.next.buf == []
  {
    if c != '(' then Pass
    else if s.isParam then Fail(Syntax)
    else
      match FlushChunk(s)
      case Err(f) => Fail(f)
      case Ok(t) => Took(t.(stack := t.stack + [Frame(t.buf, OptionalHole)], buf := [], nesting := t.nesting + 1))
  }

  /**
   * `__guessRightParenthesis`: closes the innermost open frame. It needs an
   * open group and something to put in it; it does not look at the
   * parameter flags.
   */
  function GuessRightParenthesis(s: Scan, c: char): (r: Claim)
    requires Consistent(s)
    ensures r.Pass? <==> c != ')'
    ensures c == ')' && (s.nesting == 0 || (s.chunk == "" && s.buf == [])) ==> r == Fail(Syntax)
    ensures r.Took? ==> r.next.nesting + 1 == s.nesting && |r.next.stack| + 1 == |s.stack|
  {
    if c != ')' then Pass
    else if s.nesting == 0 then Fail(Syntax)
    else if s.chunk == "" && s.buf == [] then Fail(Syntax)
    else
      match FlushChunk(s)
      case Err(f) => Fail(f)
      case Ok(t) => Took(Pop(t).(nesting := t.nesting - 1))
  }

  /** `__guessLessThan`: opens a parameter, not allowed inside `<...>`. */
  function GuessLessThan(s: Scan, c: char): (r: Claim)
    ensures r.Pass? <==> c != '<'
    ensures c == '<' && s.isParam ==> r == Fail(Syntax)
    ensures r.Took? ==> r.next.isParam && r.next.chunk == ""
  {
    if c != '<' then Pass
    else if s.isParam then Fail(Syntax)
    else
      match FlushChunk(s)
      case Err(f) => Fail(f)
      case Ok(t) => Took(t.(isParam := true))
  }

  /**
   * `__guessGreaterThan`: closes a parameter. With a value list open, the
   * last value is added and the list's frame is popped; otherwise the run is
   * the parameter's name.
   */
  function GuessGreaterThan(s: Scan, c: char): (r: Claim)
    requires Consistent(s)
    ensures r.Pass? <==> c != '>'
    ensures c == '>' && (!s.isParam || s.chunk == "") ==> r == Fail(Syntax)
    ensures r.Took? ==> !r.next.isParam && !r.next.isValue && r.next.chunk == ""
  {
    if c != '>' then Pass
    else if !s.isParam || s.chunk == "" then Fail(Syntax)
    else if s.isValue then
      match AddPartStatic(s)
      case Err(f) => Fail(f)
      case Ok(t) => Took(Pop(t).(isValue := false, isParam := false))
    else Took(s.(buf := s.buf + [Param(s.chunk, [])], chunk := "", isParam := false))
  }

  /** `__guessEquals`: the run so far names the parameter; its value list opens. */
  function GuessEquals(s: Scan, c: char): (r: Claim)
    ensures r.Pass? <==> c != '='
    ensures c == '=' && (s.chunk == "" || !s.isParam || s.isValue) ==> r == Fail(Syntax)
    ensures r.Took? ==> r.next.isValue && |r.next.stack| == |s.stack| + 1 && r.next.buf == [] && r.next.chunk == ""
  {
    if c != '=' then Pass
    else if s.chunk == "" || !s.isParam || s.isValue then Fail(Syntax)
    else Took(s.(isValue := true, stack := s.stack + [Frame(s.buf, ParamHole(s.chunk))], buf := [], chunk := ""))
  }

  /** `__guessComma`: ends one value of an open value list. */
  function GuessComma(s: Scan, c: char): (r: Claim)
    ensures r.Pass? <==> c != ','
    ensures c == ',' && (s.chunk == "" || !s.isValue) ==> r == Fail(Syntax)
    ensures r.Took? ==> r.next.isValue && r.next.chunk == "" && |r.next.buf| == |s.buf| + 1
  {
    if c != ',' then Pass
    else if s.chunk == "" || !s.isValue then Fail(Syntax)
    else
      match AddPartStatic(s)
      case Err(f) => Fail(f)
      case Ok(t) => Took(t)
  }

  /** `_.some(matchers, …)`: the first handler that does not pass decides. */
  function FirstClaim(a: Claim, b: Claim): Claim {
    if a.Pass? then b else a
  }

  /**
   * One iteration of the constructor's loop: the handlers in the order of
   * the `matchers` list, and the character joins the run when none claims it.
   */
  function Step(s: Scan, c: char): (r: Result<Scan, Fault>)
    requires Consistent(s)
    ensures r.Ok? ==> Consistent(r.value)
  {
    var claim :=
      FirstClaim(GuessReverseSolidus(s, c),
      FirstClaim(GuessEscaped(s, c),
      FirstClaim(GuessSolidus(s, c),
      FirstClaim(GuessLeftParenthesis(s, c),
      FirstClaim(GuessRightParenthesis(s, c),
      FirstClaim(GuessLessThan(s, c),
      FirstClaim(GuessGreaterThan(s, c),
      FirstClaim(GuessEquals(s, c),
        GuessComma(s, c)))))))));
    match claim
    case Pass => Ok(s.(chunk := s.chunk + [c]))
    case Took(t) => Ok(t)
    case Fail(f) => Err(f)
  }

  /** The loop over the rest of the input. */
  function Run(s: Scan, src: string): (r: Result<Scan, Fault>)
    requires Consistent(s)
    ensures r.Ok? ==> Consistent(r.value)
    decreases |src|, 1
  {
    if src == [] then Ok(s) else RunFrom(s, src)
  }

  /** One turn of the loop, then the rest of it. */
  function RunFrom(s: Scan, src: string): (r: Result<Scan, Fault>)
    requires Consistent(s) && src != []
    ensures r.Ok? ==> Consistent(r.value)
    decreases |src|, 0
  {
    match Step(s, src[0])
    case Err(f) => Err(f)
    case Ok(t) => Run(t, src[1..])
  }

  /** The checks after the loop and the final flush. */
  function Finish(s: Scan): Result<seq<Part>, Fault> {
    if s.nesting > 0 || s.isEscape || s.isParam || s.isValue then Err(Syntax)
    else if s.chunk != "" then
      match AddPartStatic(s)
      case Err(f) => Err(f)
      case Ok(t) => Ok(t.buf)
    else if s.buf == [] then Err(Syntax)
    else Ok(s.buf)
  }

  /** The errors the constructor throws: `new SyntaxError(pattern)`, or the URIError of the decoder. */
  datatype ParseError = SyntaxError(source: string) | UriError

  function Raise(src: string, f: Fault): ParseError {
    match f
    case Syntax => SyntaxError(src)
    case Malformed => UriError
  }

  /**
   * `new Parser(pattern).parts`, or the error the constructor throws: a
   * successful parse has at least one part, and a syntax error carries the
   * pattern text.
   */
  function Parse(src: string): (r: Result<seq<Part>, ParseError>)
    ensures r.Ok? ==> r.value != []
    ensures r.Err? && r.error.SyntaxError? ==> r.error.source == src
  {
    match Run(Start, src)
    case Err(f) => Err(Raise(src, f))
    case Ok(s) =>
      match Finish(s)
      case Err(f) => Err(Raise(src, f))
      case Ok(parts) => Ok(parts)
  }
}
