/**
 * The Pattern object of route/Pattern.js: the pattern text is split into
 * the route and trailing flag letters, the route is parsed, the letters
 * override the given params, and the matcher source is compiled. `build`
 * and `match` are the functions of modules Build and Captures applied to
 * the object's parts and compiled names.
 */
module PatternObject {
  import opened Wrappers
  import opened Parts
  import Scanner
  import ScanRules
  import RoundTrip
  import Flags
  import RegexSource

  /** The fields a Pattern holds once constructed. */
  datatype Pattern = Pattern(parts: seq<Part>, params: Flags.Params, compiled: RegexSource.Compiled)

  /**
   * `new Pattern(pattern, params)`, or the error it throws: the parser's
   * error, or URIError when compiling a Static body or an allowed value
   * decodes it a second time and fails, or meets a character above U+FFFF.
   */
  function NewPattern(text: string, params: Flags.Params): (r: Result<Pattern, Scanner.ParseError>)
    ensures var parsed := Scanner.Parse(Flags.SplitPattern(text).0);
      r.Ok? <==> parsed.Ok? && RegexSource.SeqRecompiles(parsed.value)
    ensures var parsed := Scanner.Parse(Flags.SplitPattern(text).0);
      parsed.Err? ==> r == Err(parsed.error)
    ensures var parsed := Scanner.Parse(Flags.SplitPattern(text).0);
      parsed.Ok? && !RegexSource.SeqRecompiles(parsed.value) ==> r == Err(Scanner.UriError)
    ensures r.Ok? ==> r.value.parts == Scanner.Parse(Flags.SplitPattern(text).0).value
    ensures r.Ok? ==> r.value.parts != [] && AllGood(r.value.parts)
    ensures r.Ok? ==> RegexSource.CompileRegExp(r.value.parts, r.value.params) == Some(r.value.compiled)
  {
    var (route, flags) := Flags.SplitPattern(text);
    match Scanner.Parse(route)
    case Err(e) => Err(e)
    case Ok(parts) =>
      ScanRules.ParseGood(route);
      var ps := Flags.ReduceFlags(params, flags);
      RegexSource.CompileRegExpShape(parts, ps);
      match RegexSource.CompileRegExp(parts, ps)
      case None => Err(Scanner.UriError)
      case Some(compiled) => Ok(Pattern(parts, ps, compiled))
  }

  /**
   * The params of a constructed Pattern: a flag letter in the text decides
   * its key (the last such letter wins); other keys keep the given value.
   */
  lemma NewPatternParams(text: string, params: Flags.Params, key: string)
    requires NewPattern(text, params).Ok?
    ensures var setting := Flags.LastSetting(Flags.SplitPattern(text).1, key);
      Flags.Get(NewPattern(text, params).value.params, key) ==
        if setting.Some? then setting else Flags.Get(params, key)
  {
    Flags.ReduceFlagsOverride(params, Flags.SplitPattern(text).1, key);
  }

  /**
   * The compiled matcher of a constructed Pattern: anchors unless disabled,
   * the direct rendering of the parts between them (each Static decoded a
   * second time, as the code does), and one name per Param.
   */
  lemma NewPatternRegExp(text: string, params: Flags.Params)
    requires NewPattern(text, params).Ok?
    ensures var p := NewPattern(text, params).value;
      p.compiled.source ==
        (if RegexSource.IsSet(p.params, "doNotMatchStart") then "" else "^")
        + RegexSource.SeqSource(RegexSource.IsSet(p.params, "ignoreCase"), p.parts)
        + (if RegexSource.IsSet(p.params, "doNotMatchEnd") then "" else "$")
      && p.compiled.names == RegexSource.SeqParamNames(p.parts)
  {
    var p := NewPattern(text, params).value;
    RegexSource.CompileRegExpShape(p.parts, p.params);
  }

  /** Pattern `toString`: the route text, then a space and the flag letters when there are any. */
  function PatternToString(p: Pattern): string {
    Flags.WithFlags(ToString(p.parts), p.params)
  }

  /**
   * Constructing a Pattern from the text of another gives back its parts,
   * and the recognised flags it had; other keys come from the params given
   * to the new one. The parts must be spelled canonically, their text
   * must not itself look like a route followed by flags, and compiling them
   * must not throw, since the constructor would throw on the new text too.
   */
  lemma PatternRoundTrip(p: Pattern, base: Flags.Params, key: string)
    requires CanonicalSeq(p.parts) && Flags.DistinctKeys(p.params)
    requires Flags.PlainText(ToString(p.parts))
    requires RegexSource.SeqRecompiles(p.parts)
    ensures NewPattern(PatternToString(p), base).Ok?
    ensures NewPattern(PatternToString(p), base).value.parts == p.parts
    ensures Flags.Get(NewPattern(PatternToString(p), base).value.params, key) ==
      if Flags.Recognised(key) && Flags.Get(p.params, key).Some? then Flags.Get(p.params, key) else Flags.Get(base, key)
  {
    var text := ToString(p.parts);
    RoundTrip.ParseToString(p.parts);
    assert text != [] by {
      ScanRules.ParseEmpty();
    }
    Flags.SplitToString(text, p.params);
    Flags.FlagsRoundTrip(p.params, base, key);
    Flags.ReduceFlagsOverride(base, Flags.FlagString(p.params), key);
  }
}
