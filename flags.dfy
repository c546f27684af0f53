/**
 * The flag suffix of a pattern in route/Pattern.js: splitting
 * `"<pattern> <flags>"` (the `R_PATTERN` regular expression), folding the flag
 * letters into the params object (`reduceFlag`), and writing the recognised
 * params back as letters (`__reduceParam2Flag`).
 *
 * A params object is an association list in insertion order: assigning an
 * existing key keeps its place, a new key goes last, as with the own keys
 * of a JavaScript object whose keys are not array indices. Values are
 * their truthiness.
 */
module Flags {
  import opened Wrappers

  type Params = seq<(string, bool)>

  /** `\s`, restricted to the ASCII white-space characters. */
  const Spaces: set<char> := {' ', '\t', '\n', '\r', '\U{B}', '\U{C}'}

  predicate IsSpace(c: char) {
    c in Spaces
  }

  /** `\w`. */
  predicate IsWord(c: char) {
    'a' <= c <= 'z' || 'A' <= c <= 'Z' || '0' <= c <= '9' || c == '_'
  }

  function TrimStart(s: string): (r: string)
    ensures |r| <= |s|
  {
    if s != [] && IsSpace(s[0]) then TrimStart(s[1..]) else s
  }

  lemma {:induction false} TrimStartFacts(s: string)
    ensures TrimStart(s) != [] ==> !IsSpace(TrimStart(s)[0])
    ensures s == [] || !IsSpace(s[0]) ==> TrimStart(s) == s
    decreases |s|
  {
    if s != [] && IsSpace(s[0]) {
      TrimStartFacts(s[1..]);
    }
  }

  function TrimEnd(s: string): (r: string)
    ensures |r| <= |s|
  {
    if s != [] && IsSpace(s[|s| - 1]) then TrimEnd(s[..|s| - 1]) else s
  }

  lemma {:induction false} TrimEndFacts(s: string)
    ensures TrimEnd(s) != [] ==> !IsSpace(TrimEnd(s)[|TrimEnd(s)| - 1]) && TrimEnd(s)[0] == s[0]
    ensures s == [] || !IsSpace(s[|s| - 1]) ==> TrimEnd(s) == s
    decreases |s|
  {
    if s != [] && IsSpace(s[|s| - 1]) {
      TrimEndFacts(s[..|s| - 1]);
    }
  }

  /** Trimming leaves no white space at either end, and changes nothing when there is none. */
  lemma Trimmed(s: string)
    ensures var t := TrimEnd(TrimStart(s)); t == [] || (!IsSpace(t[0]) && !IsSpace(t[|t| - 1]))
    ensures s == [] || (!IsSpace(s[0]) && !IsSpace(s[|s| - 1])) ==> TrimEnd(TrimStart(s)) == s
  {
    TrimStartFacts(s);
    TrimEndFacts(TrimStart(s));
  }

  /** The length of the longest suffix of `s` made of word characters. */
  function WordSuffix(s: string): (n: nat)
    ensures n <= |s|
  {
    if s != [] && IsWord(s[|s| - 1]) then WordSuffix(s[..|s| - 1]) + 1 else 0
  }

  /** The word suffix is made of word characters and cannot be extended. */
  lemma {:induction false} WordSuffixWords(s: string)
    ensures forall i | |s| - WordSuffix(s) <= i < |s| :: IsWord(s[i])
    ensures WordSuffix(s) < |s| ==> !IsWord(s[|s| - WordSuffix(s) - 1])
    decreases |s|
  {
    if s != [] && IsWord(s[|s| - 1]) {
      var init := s[..|s| - 1];
      WordSuffixWords(init);
      forall i | |s| - WordSuffix(s) <= i < |s| - 1 ensures IsWord(s[i]) {
        assert s[i] == init[i];
      }
      if WordSuffix(s) < |s| {
        assert s[|s| - WordSuffix(s) - 1] == init[|init| - WordSuffix(init) - 1];
      }
    }
  }

  /** The length of the longest suffix of `s` made of white space. */
  function SpaceSuffix(s: string): (n: nat)
    ensures n <= |s|
  {
    if s != [] && IsSpace(s[|s| - 1]) then SpaceSuffix(s[..|s| - 1]) + 1 else 0
  }

  /** The white-space suffix is made of white space and cannot be extended. */
  lemma {:induction false} SpaceSuffixSpaces(s: string)
    ensures forall i | |s| - SpaceSuffix(s) <= i < |s| :: IsSpace(s[i])
    ensures SpaceSuffix(s) < |s| ==> !IsSpace(s[|s| - SpaceSuffix(s) - 1])
    decreases |s|
  {
    if s != [] && IsSpace(s[|s| - 1]) {
      var init := s[..|s| - 1];
      SpaceSuffixSpaces(init);
      forall i | |s| - SpaceSuffix(s) <= i < |s| - 1 ensures IsSpace(s[i]) {
        assert s[i] == init[i];
      }
      if SpaceSuffix(s) < |s| {
        assert s[|s| - SpaceSuffix(s) - 1] == init[|init| - SpaceSuffix(init) - 1];
      }
    }
  }

  /**
   * `R_PATTERN.exec(pattern)`: surrounding white space is dropped; a run of
   * word characters at the end, separated from the rest by white space,
   * is the flag string; the rest is the pattern text.
   */
  function SplitPattern(s: string): (r: (string, string))
    ensures AllWord(r.1)
    ensures r.0 == [] || (!IsSpace(r.0[0]) && !IsSpace(r.0[|r.0| - 1]))
    ensures r.1 != "" <==> HasFlagRun(TrimEnd(TrimStart(s)))
    ensures r.1 == "" ==> r.0 == TrimEnd(TrimStart(s))
    ensures r.1 != "" ==> r.0 != [] && FlagCut(TrimEnd(TrimStart(s)), r.0, r.1)
  {
    var t := TrimEnd(TrimStart(s));
    Trimmed(s);
    var w := WordSuffix(t);
    var sp := SpaceSuffix(t[..|t| - w]);
    assert HasFlagRun(t) <==> w > 0 && sp > 0 by { FlagRunIff(t); }
    if w > 0 && sp > 0 then
      SplitFlagsCase(t, w, sp);
      (t[..|t| - w - sp], t[|t| - w..])
    else (t, "")
  }

  /** The trimmed text ends in a word run with white space before it: the optional group of `R_PATTERN` can match. */
  predicate HasFlagRun(t: string) {
    exists k | 0 < k < |t| :: RunAfterSpace(t, k)
  }

  /** From `k` on, `t` is word characters, and white space comes just before. */
  predicate RunAfterSpace(t: string, k: nat)
    requires 0 < k < |t|
  {
    IsSpace(t[k - 1]) && AllWord(t[k..])
  }

  /** The optional group can match exactly when the word suffix is non-empty and white space precedes it. */
  lemma FlagRunIff(t: string)
    ensures HasFlagRun(t) <==> WordSuffix(t) > 0 && SpaceSuffix(t[..|t| - WordSuffix(t)]) > 0
  {
    FlagRunIsSuffix(t);
    var w := WordSuffix(t);
    var rest := t[..|t| - w];
    if w > 0 && SpaceSuffix(rest) > 0 {
      var k := |t| - w;
      WordSuffixWords(t);
      assert rest[|rest| - 1] == t[k - 1];
      assert AllWord(t[k..]) by {
        forall i | 0 <= i < |t[k..]| ensures IsWord(t[k..][i]) {
          assert t[k..][i] == t[k + i];
        }
      }
      assert RunAfterSpace(t, k);
    }
  }

  /** A word run after white space at the end is exactly the word suffix, and white space precedes it. */
  lemma FlagRunIsSuffix(t: string)
    ensures HasFlagRun(t) ==> WordSuffix(t) > 0 && SpaceSuffix(t[..|t| - WordSuffix(t)]) > 0
  {
    if HasFlagRun(t) {
      var k :| 0 < k < |t| && RunAfterSpace(t, k);
      FlagRunAt(t, k);
    }
  }

  lemma FlagRunAt(t: string, k: nat)
    requires 0 < k < |t| && IsSpace(t[k - 1]) && AllWord(t[k..])
    ensures WordSuffix(t) == |t| - k && SpaceSuffix(t[..k]) > 0
  {
    WordSuffixCovers(t, k);
    assert WordSuffix(t) <= |t| - k by {
      SpaceNotWord(t[k - 1]);
      WordSuffixWords(t);
    }
    var rest := t[..k];
    assert rest[|rest| - 1] == t[k - 1];
  }

  lemma SpaceNotWord(c: char)
    requires IsSpace(c)
    ensures !IsWord(c)
  {
  }

  /** A suffix made of word characters is no longer than the word suffix. */
  lemma {:induction false} WordSuffixCovers(t: string, k: nat)
    requires k <= |t| && AllWord(t[k..])
    ensures |t| - k <= WordSuffix(t)
    decreases |t|
  {
    if k < |t| {
      var init := t[..|t| - 1];
      assert IsWord(t[k..][|t| - 1 - k]);
      assert init[k..] == t[k..][..|t| - 1 - k];
      WordSuffixCovers(init, k);
    }
  }

  /** `toLowerCase`, restricted to ASCII letters. */
  function ToLower(c: char): char {
    if 'A' <= c <= 'Z' then (c as int + 32) as char else c
  }

  /** `toUpperCase`, restricted to ASCII letters. */
  function ToUpper(c: char): char {
    if 'a' <= c <= 'z' then (c as int - 32) as char else c
  }

  /** `flag2ParamMap`, falling back to the lower-cased letter itself. */
  function FlagKey(c: char): string {
    var lower := ToLower(c);
    if lower == 's' then "doNotMatchStart"
    else if lower == 'e' then "doNotMatchEnd"
    else if lower == 'i' then "ignoreCase"
    else [lower]
  }

  function Get(ps: Params, key: string): Option<bool> {
    if ps == [] then None
    else if ps[0].0 == key then Some(ps[0].1)
    else Get(ps[1..], key)
  }

  /**
   * `params[key] = value`: an existing key keeps its place and takes the
   * value; a new key is added last.
   */
  function Set(ps: Params, key: string, value: bool): (r: Params)
    ensures |r| == |ps| || |r| == |ps| + 1
    ensures forall i | 0 <= i < |ps| :: r[i].0 == ps[i].0
    ensures |r| == |ps| + 1 <==> Get(ps, key) == None
    ensures |r| == |ps| + 1 ==> r[|ps|] == (key, value)
    ensures Get(r, key) == Some(value)
    ensures forall k | k != key :: Get(r, k) == Get(ps, k)
  {
    if ps == [] then [(key, value)]
    else if ps[0].0 == key then [(key, value)] + ps[1..]
    else [ps[0]] + Set(ps[1..], key, value)
  }

  predicate DistinctKeys(ps: Params) {
    forall i, j | 0 <= i < j < |ps| :: ps[i].0 != ps[j].0
  }

  lemma {:induction false} GetNoneAbsent(ps: Params, key: string)
    requires Get(ps, key) == None
    ensures forall i | 0 <= i < |ps| :: ps[i].0 != key
    decreases |ps|
  {
    if ps != [] {
      GetNoneAbsent(ps[1..], key);
      assert forall i | 1 <= i < |ps| :: ps[i] == ps[1..][i - 1];
    }
  }

  /** Assignment keeps the keys distinct. */
  lemma SetDistinct(ps: Params, key: string, value: bool)
    requires DistinctKeys(ps)
    ensures DistinctKeys(Set(ps, key, value))
  {
    var r := Set(ps, key, value);
    forall i, j | 0 <= i < j < |r| ensures r[i].0 != r[j].0 {
      if j < |ps| {
        assert r[i].0 == ps[i].0 && r[j].0 == ps[j].0;
      } else {
        GetNoneAbsent(ps, key);
        assert r[i].0 == ps[i].0 && r[j].0 == key;
      }
    }
  }

  /** `reduceFlag`: a letter sets its param to whether it was written in lower case. */
  function ReduceFlag(ps: Params, c: char): (r: Params)
    ensures Get(r, FlagKey(c)) == Some(c == ToLower(c))
    ensures forall k | k != FlagKey(c) :: Get(r, k) == Get(ps, k)
    ensures DistinctKeys(ps) ==> DistinctKeys(r)
  {
    if DistinctKeys(ps) then
      SetDistinct(ps, FlagKey(c), c == ToLower(c));
      Set(ps, FlagKey(c), c == ToLower(c))
    else
      Set(ps, FlagKey(c), c == ToLower(c))
  }

  /** `_.reduce(flags, reduceFlag, params)`: the letters applied left to right. */
  function ReduceFlags(ps: Params, flags: string): Params
    decreases |flags|
  {
    if flags == [] then ps else ReduceFlag(ReduceFlags(ps, flags[..|flags| - 1]), flags[|flags| - 1])
  }

  /** What the last letter of `flags` that maps to `key` sets it to, if any does. */
  function LastSetting(flags: string, key: string): Option<bool>
    decreases |flags|
  {
    if flags == [] then None
    else if FlagKey(flags[|flags| - 1]) == key then Some(flags[|flags| - 1] == ToLower(flags[|flags| - 1]))
    else LastSetting(flags[..|flags| - 1], key)
  }

  /**
   * Letters in the pattern text override the params passed in: a key some
   * letter maps to ends up as the last such letter sets it; every other key
   * keeps its passed value.
   */
  lemma {:induction false} ReduceFlagsOverride(ps: Params, flags: string, key: string)
    ensures Get(ReduceFlags(ps, flags), key) ==
      if LastSetting(flags, key).Some? then LastSetting(flags, key) else Get(ps, key)
    decreases |flags|
  {
    if flags != [] {
      ReduceFlagsOverride(ps, flags[..|flags| - 1], key);
    }
  }

  /** The flag letter `__reduceParam2Flag` writes for one entry, if its key is recognised. */
  function Letter(entry: (string, bool)): string {
    var (key, value) := entry;
    if key == "doNotMatchStart" then (if value then "s" else "S")
    else if key == "doNotMatchEnd" then (if value then "e" else "E")
    else if key == "ignoreCase" then (if value then "i" else "I")
    else ""
  }

  /** `_.reduce(params, __reduceParam2Flag, '')`. */
  function FlagString(ps: Params): string {
    if ps == [] then "" else Letter(ps[0]) + FlagString(ps[1..])
  }

  predicate Recognised(key: string) {
    key == "doNotMatchStart" || key == "doNotMatchEnd" || key == "ignoreCase"
  }

  lemma LastSettingAppend(a: string, b: string, key: string)
    ensures LastSetting(a + b, key) == if LastSetting(b, key).Some? then LastSetting(b, key) else LastSetting(a, key)
    decreases |b|
  {
    if b == [] {
      assert a + b == a;
    } else {
      assert (a + b)[..|a + b| - 1] == a + b[..|b| - 1];
      LastSettingAppend(a, b[..|b| - 1], key);
    }
  }

  lemma LetterSetting(entry: (string, bool), key: string)
    ensures LastSetting(Letter(entry), key) ==
      if entry.0 == key && Recognised(key) then Some(entry.1) else None
  {
    var l := Letter(entry);
    if l != "" {
      assert l[..0] == "";
    }
  }

  /**
   * Reading back the letters of `toString`: for a recognised key the last
   * letter for it carries the param's value, and a key that is absent or
   * not recognised gets no letter.
   */
  lemma {:induction false} FlagStringSetting(ps: Params, key: string)
    requires DistinctKeys(ps)
    ensures LastSetting(FlagString(ps), key) == if Recognised(key) then Get(ps, key) else None
    decreases |ps|
  {
    if ps != [] {
      assert DistinctKeys(ps[1..]) by {
        forall i, j | 0 <= i < j < |ps[1..]| ensures ps[1..][i].0 != ps[1..][j].0 {
          assert ps[1..][i] == ps[i + 1] && ps[1..][j] == ps[j + 1];
        }
      }
      FlagStringSetting(ps[1..], key);
      LastSettingAppend(Letter(ps[0]), FlagString(ps[1..]), key);
      LetterSetting(ps[0], key);
      if ps[0].0 == key {
        AbsentAfterFirst(ps);
      }
    }
  }

  lemma AbsentAfterFirst(ps: Params)
    requires ps != [] && DistinctKeys(ps)
    ensures Get(ps[1..], ps[0].0) == None
  {
    var k := ps[0].0;
    var i := 1;
    while i < |ps|
      invariant 1 <= i <= |ps|
      invariant Get(ps[1..], k) == Get(ps[i..], k)
    {
      assert ps[i..][0] == ps[i] && ps[i..][1..] == ps[i + 1..];
      i := i + 1;
    }
    assert ps[i..] == [];
  }

  /**
   * The flags `toString` writes, read back by `reduceFlag` over any params,
   * restore every recognised param that was set and change nothing else.
   */
  lemma FlagsRoundTrip(ps: Params, base: Params, key: string)
    requires DistinctKeys(ps)
    ensures Get(ReduceFlags(base, FlagString(ps)), key) ==
      if Recognised(key) && Get(ps, key).Some? then Get(ps, key) else Get(base, key)
  {
    ReduceFlagsOverride(base, FlagString(ps), key);
    FlagStringSetting(ps, key);
  }

  /** The flag string uses only the six letters and is empty exactly when no recognised key is set. */
  lemma {:induction false} FlagStringLetters(ps: Params)
    ensures forall i | 0 <= i < |FlagString(ps)| :: FlagString(ps)[i] in "sSeEiI"
    ensures FlagString(ps) == "" <==> forall i | 0 <= i < |ps| :: !Recognised(ps[i].0)
    decreases |ps|
  {
    if ps != [] {
      FlagStringLetters(ps[1..]);
      assert forall i | 1 <= i < |ps| :: ps[i] == ps[1..][i - 1];
    }
  }

  /** Pattern `toString`: the pattern text, then a space and the flags if there are any. */
  function WithFlags(text: string, ps: Params): string {
    var flags := FlagString(ps);
    if flags == "" then text else text + " " + flags
  }

  predicate AllWord(s: string) {
    forall i | 0 <= i < |s| :: IsWord(s[i])
  }

  lemma SplitWithFlagsValue(s: string, t: string, w: nat, sp: nat)
    requires t == TrimEnd(TrimStart(s)) && w == WordSuffix(t) && sp == SpaceSuffix(t[..|t| - w])
    requires w > 0 && sp > 0
    ensures SplitPattern(s) == (t[..|t| - w - sp], t[|t| - w..])
  {
  }

  lemma SplitWithoutFlagsValue(s: string, t: string, w: nat, sp: nat)
    requires t == TrimEnd(TrimStart(s)) && w == WordSuffix(t) && sp == SpaceSuffix(t[..|t| - w])
    requires !(w > 0 && sp > 0)
    ensures SplitPattern(s) == (t, "")
  {
  }

  /** With flags, the trimmed text is cut at the white space before its word run. */
  lemma SplitFlagsCase(t: string, w: nat, sp: nat)
    requires w == WordSuffix(t) && sp == SpaceSuffix(t[..|t| - w])
    requires w > 0 && sp > 0
    requires t == [] || (!IsSpace(t[0]) && !IsSpace(t[|t| - 1]))
    ensures var text := t[..|t| - w - sp]; var flags := t[|t| - w..];
      AllWord(flags) && text != [] && !IsSpace(text[0]) && !IsSpace(text[|text| - 1])
      && FlagCut(t, text, flags)
  {
    var rest := t[..|t| - w];
    WordSuffixWords(t);
    SpaceSuffixSpaces(rest);
    forall i | |t| - w - sp <= i < |t| - w ensures IsSpace(t[i]) {
      assert t[i] == rest[i];
    }
    if sp < |t| - w {
      assert t[|t| - w - sp - 1] == rest[|rest| - sp - 1];
    }
    SplitPieces(t, w, sp);
  }

  /** `t` is `text`, then a run of white space, then `flags`. */
  predicate FlagCut(t: string, text: string, flags: string) {
    |text| + |flags| < |t| && t[..|text|] == text && t[|t| - |flags|..] == flags
    && forall i | |text| <= i < |t| - |flags| :: IsSpace(t[i])
  }

  /** A trimmed text cut into the text, a run of white space and a word run. */
  lemma SplitPieces(t: string, w: nat, sp: nat)
    requires t != [] && !IsSpace(t[0]) && !IsSpace(t[|t| - 1])
    requires 0 < w && 0 < sp && w + sp <= |t|
    requires forall i | |t| - w <= i < |t| :: IsWord(t[i])
    requires forall i | |t| - w - sp <= i < |t| - w :: IsSpace(t[i])
    requires sp < |t| - w ==> !IsSpace(t[|t| - w - sp - 1])
    ensures var text := t[..|t| - w - sp]; var flags := t[|t| - w..];
      AllWord(flags) && text != [] && !IsSpace(text[0]) && !IsSpace(text[|text| - 1])
      && FlagCut(t, text, flags)
  {
    var flags := t[|t| - w..];
    forall i | 0 <= i < |flags| ensures IsWord(flags[i]) {
      assert flags[i] == t[|t| - w + i];
    }
  }

  /** Text with no surrounding white space and no word run set off by white space at its end. */
  predicate PlainText(s: string) {
    (s == [] || (!IsSpace(s[0]) && !IsSpace(s[|s| - 1])))
    && (WordSuffix(s) == 0 || SpaceSuffix(s[..|s| - WordSuffix(s)]) == 0)
  }

  /** Plain text on its own splits into itself and no flags. */
  lemma SplitPlain(s: string)
    requires PlainText(s)
    ensures SplitPattern(s) == (s, "")
  {
    Trimmed(s);
    var w := WordSuffix(s);
    assert w == 0 || SpaceSuffix(s[..|s| - w]) == 0;
  }

  /**
   * A pattern text and a flag string, written as `toString` writes them,
   * split back into the same two. The text must not itself end in a word
   * run set off by white space; nothing else is asked of it.
   */
  lemma SplitWithFlags(text: string, flags: string)
    requires text != [] && !IsSpace(text[0]) && !IsSpace(text[|text| - 1])
    requires flags != [] && AllWord(flags)
    ensures SplitPattern(text + " " + flags) == (text, flags)
  {
    var s := text + " " + flags;
    assert s[0] == text[0] && s[|s| - 1] == flags[|flags| - 1];
    Trimmed(s);
    WordSuffixOf(text + " ", flags);
    var rest := s[..|s| - |flags|];
    assert rest == text + " ";
    SpaceSuffixOfSingle(text);
    assert s[..|s| - |flags| - 1] == text;
    assert s[|s| - |flags|..] == flags;
    SplitWithFlagsValue(s, s, |flags|, 1);
  }

  lemma {:induction false} WordSuffixOf(a: string, w: string)
    requires a != [] && !IsWord(a[|a| - 1]) && AllWord(w)
    ensures WordSuffix(a + w) == |w|
    decreases |w|
  {
    if w == [] {
      assert a + w == a;
    } else {
      assert (a + w)[..|a + w| - 1] == a + w[..|w| - 1];
      WordSuffixOf(a, w[..|w| - 1]);
    }
  }

  lemma SpaceSuffixOfSingle(text: string)
    requires text != [] && !IsSpace(text[|text| - 1])
    ensures SpaceSuffix(text + " ") == 1
  {
    assert (text + " ")[..|text|] == text;
  }

  /** `toString` followed by the split gives the parser text and flags back for plain pattern text. */
  lemma SplitToString(text: string, ps: Params)
    requires text != [] && PlainText(text)
    ensures SplitPattern(WithFlags(text, ps)) == (text, FlagString(ps))
  {
    var flags := FlagString(ps);
    if flags == "" {
      SplitPlain(text);
    } else {
      FlagStringLetters(ps);
      assert forall i | 0 <= i < |flags| :: flags[i] in "sSeEiI";
      SplitWithFlags(text, flags);
    }
  }
}
