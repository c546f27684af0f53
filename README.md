# Route patterns and the rule registry, in Dafny

This project models the pattern language of the `finger` router and its rule registry:

- **The route parser** (`route/Parser.js`). A character-level state machine turns pattern text such as `/a(/<b=x,y>)` into a tree of parts:
  - Static, holding decoded text and its encoding;
  - Delimiter;
  - Param, holding a name and optional allowed Static values;
  - Option, holding nested parts.

  It also provides a depth-aware reducer over that tree (`__compileParts`/`compile`) and a serialiser back to pattern text (`toString`).
- **The pattern object** (`route/Pattern.js`). A pattern may carry trailing flag letters, which fold into a params object. A pattern compiles to a regular-expression source text plus the list of capture names. It builds a path from arguments (`build`), and it collects the captured groups of a match into an arguments object (`match`/`push2Result`).
- **The rule registry** (`core/matcher.js`). It is an ordered list of rule names (`order`) and a map from name to rule (`index`), with `addRule`, `getRule` and `match`.

## Modules

Each `.dfy` file is one module.

- **`Wrappers`**: `Option` and `Result`.
- **`Percent`**: `encodeURIComponent` and `decodeURIComponent`, as sections 15.1.3.2 and 15.1.3.4 of ECMA-262 5.1 define them. It works over UTF-8 octets, and a URIError is `None`. Its main theorem is `Decode(Encode(s)) == Some(s)`.
- **`Parts`**: the part tree, the reducer `CompileFrom`/`Compile`, `escape`, `part2Pattern` and `toString`.
  - A JavaScript visitor closure that updates captured variables becomes a function that takes the visitor state and returns it. The reducer threads that state in call order.
- **`Scanner`**: the parser's state machine as pure functions.
  - Each `__guess*` handler is a function returning a claim: pass, took, or fail.
  - `Step` is one iteration of the constructor's loop, `Run` is the loop, and `Finish` is the checks after it.
  - The JavaScript keeps aliases to enclosing arrays on `__stack`. Here the stack holds zipper frames instead: a frame is the enclosing buffer plus the part being filled.
- **`Parsing`**: the `Parser` class. Its fields are those of the source object, and it has one method per `__guess*` handler, each updating the fields in place. Each method is proved to do exactly what the matching `Scanner` function describes. `ScanAll` is the constructor's `while` loop, proved equal to `Scanner.Parse`.
- **`ScanRules`**: when each reserved character is legal, the end-of-input errors, and the proof that every successful parse is a well-formed tree.
- **`RoundTrip`**: parsing the `toString` of a canonical tree gives the tree back.
- **`Flags`**: the `R_PATTERN` split, `reduceFlag`, `__reduceParam2Flag` and Pattern `toString`.
- **`RegexSource`**: the source text and the name list of `__compileRegExp`, `__compileStaticPart` and `__reduceChar`. It also has a small acceptance relation that says what the per-character fragments match.
- **`DoubleDecode`**: the double-decode finding below.
- **`Build`**: `build` and `buildParamPart`, with the `using` counter as the reducer's state.
- **`Captures`**: `push2Result` and the `match` loop over the captured groups.
- **`PatternObject`**: the Pattern constructor and the round trip through Pattern `toString`.
- **`Registry`**: the `Matcher` class.

## Model

| member | source | states |
|---|---|---|
| Scanner.Plug | route/Parser.js:409-413 | Popping a frame appends to its enclosing buffer exactly one part: an Option or a named Param that holds the finished buffer. |
| Scanner.AddPartStatic | route/Parser.js:224-234 | It succeeds exactly when the pending run decodes, and otherwise fails with the URIError. On success it appends Static(decode(run), encode(decode(run))), clears the run and leaves every other field alone. A non-empty run gives a well-formed Static. |
| Scanner.FlushChunk | route/Parser.js:405-407 | An empty run leaves the state as it is. Otherwise the run is added, and the run ends empty with the stack, nesting and flags unchanged. |
| Scanner.GuessReverseSolidus | route/Parser.js:457-466 | It passes exactly on a character other than `\` or while an escape is pending. Taking a `\` sets the escape flag and leaves the run and the buffer alone. |
| Scanner.GuessEscaped | route/Parser.js:339-349 | It passes exactly when no escape is pending. Otherwise the character joins the run and the escape ends. |
| Scanner.GuessSolidus | route/Parser.js:508-529 | It passes exactly on a character other than `/`. Inside `<...>` a `/` is a syntax error. Taking it leaves the run empty and a Delimiter last in the buffer. |
| Scanner.GuessLeftParenthesis | route/Parser.js:396-420 | It passes exactly on a character other than `(`. Inside `<...>` a `(` is a syntax error. Taking it increments nesting, pushes one frame and starts an empty buffer. |
| Scanner.GuessRightParenthesis | route/Parser.js:475-499 | It passes exactly on a character other than `)`. A `)` with nesting 0, or with an empty run and an empty buffer, is a syntax error. Taking it decrements nesting and pops one frame. |
| Scanner.GuessLessThan | route/Parser.js:429-448 | It passes exactly on a character other than `<`. Inside `<...>` a `<` is a syntax error. Taking it opens a param with an empty run. |
| Scanner.GuessGreaterThan | route/Parser.js:358-387 | It passes exactly on a character other than `>`. A `>` outside a param, or after an empty run, is a syntax error. Taking it closes the param and any value list and leaves the run empty. |
| Scanner.GuessEquals | route/Parser.js:307-330 | It passes exactly on a character other than `=`. A `=` after an empty name, outside a param, or inside a value list is a syntax error. Taking it opens the value list with one more frame, an empty buffer and an empty run. |
| Scanner.GuessComma | route/Parser.js:283-298 | It passes exactly on a character other than `,`. A `,` after an empty run or outside a value list is a syntax error. Taking it adds one value to the buffer and leaves the list open with an empty run. |
| Scanner.Step | route/Parser.js:108-118 | One loop iteration keeps the scan invariant: stack depth is nesting plus one while a value list is open, and an open value list implies an open param. |
| Scanner.Run | route/Parser.js:108-118 | The loop keeps the same scan invariant over any input. |
| Scanner.RunFrom | route/Parser.js:108-118 | One iteration followed by the rest of the loop keeps the scan invariant. |
| Scanner.Parse | route/Parser.js:22-141 | A successful parse is never empty, and a SyntaxError carries the pattern text. |
| Parsing.Parser.constructor | route/Parser.js:22-106 | The fields start as an empty run, an empty buffer, an empty stack, nesting 0 and all flags false, with the source stored. |
| Parsing.Parser.AddPartStatic | route/Parser.js:224-234 | Updates the object exactly as Scanner.AddPartStatic does, and reports the URIError without changing anything. |
| Parsing.Parser.GuessReverseSolidus | route/Parser.js:457-466 | An unescaped backslash sets the escape flag. The outcome and new fields agree with the handler function. |
| Parsing.Parser.GuessEscaped | route/Parser.js:339-349 | While escaping, the character joins the run and the escape ends. The outcome and new fields agree with the handler function. |
| Parsing.Parser.GuessSolidus | route/Parser.js:508-529 | `/` is a syntax error inside `<...>`. Otherwise the run is flushed and a Delimiter appended. The outcome and fields agree with the handler function. |
| Parsing.Parser.GuessLeftParenthesis | route/Parser.js:396-420 | `(` is a syntax error inside `<...>`. Otherwise the run is flushed, a frame pushed, and nesting incremented. The outcome and fields agree with the handler function. |
| Parsing.Parser.GuessRightParenthesis | route/Parser.js:475-499 | `)` fails with nesting 0, or with an empty run and an empty buffer. Otherwise it flushes and closes the innermost frame. The outcome and fields agree with the handler function. |
| Parsing.Parser.GuessLessThan | route/Parser.js:429-448 | `<` is a syntax error inside `<...>`. Otherwise the run is flushed and a param opened. The outcome and fields agree with the handler function. |
| Parsing.Parser.GuessGreaterThan | route/Parser.js:358-387 | `>` needs an open param and a non-empty run. It closes the value list or appends Param(run). The outcome and fields agree with the handler function. |
| Parsing.Parser.GuessEquals | route/Parser.js:307-330 | `=` needs a non-empty name, an open param and no value list. It pushes the Param frame and opens the list. The outcome and fields agree with the handler function. |
| Parsing.Parser.GuessComma | route/Parser.js:283-298 | `,` needs an open value list and a non-empty run, which is added as a value. The outcome and fields agree with the handler function. |
| Parsing.Parser.PopFrame | route/Parser.js:492 | The current buffer goes into the part that owns it, and the frame is removed. |
| Parsing.Parser.Step | route/Parser.js:108-118 | The handlers are tried in the `matchers` order, and an unclaimed character joins the run. The new fields, or the fault, equal Scanner.Step. |
| Parsing.Parser.ScanAll | route/Parser.js:108-141 | The loop and the end checks. `parts` is set exactly when the parse succeeds, and is then equal to Scanner.Parse. Otherwise the error thrown is the one Scanner.Parse gives. |
| Parsing.NewParser | route/Parser.js:22-141 | `new Parser(p)` gives a fresh object whose `parts` is the parse of `p`, or the error of the parse. |
| ScanRules.EscapedCharIsLiteral | route/Parser.js:339-349 | After a backslash, any character, reserved or another backslash, joins the run literally. |
| ScanRules.BackslashStartsEscape | route/Parser.js:457-466 | An unescaped backslash only sets the escape flag. |
| ScanRules.OrdinaryCharJoinsRun | route/Parser.js:108-118 | A character no handler claims is appended to the run. |
| ScanRules.OpenersRejectedInParam | route/Parser.js:396-403 | `/`, `(` and `<` are syntax errors inside an open param. |
| ScanRules.SolidusRule | route/Parser.js:508-529 | `/` succeeds exactly outside a param when the run decodes. The result is the flushed state plus a Delimiter. |
| ScanRules.LeftParenthesisRule | route/Parser.js:396-420 | `(` succeeds exactly outside a param when the run decodes. It pushes a frame for an Option and increments nesting. |
| ScanRules.LessThanRule | route/Parser.js:429-448 | `<` succeeds exactly outside a param when the run decodes, and it opens a param. |
| ScanRules.RightParenthesisRule | route/Parser.js:475-499 | `)` succeeds exactly with nesting > 0 and a non-empty run or buffer, whatever the param flags say. It closes one group. |
| ScanRules.GreaterThanRule | route/Parser.js:358-387 | `>` succeeds exactly inside a param after a non-empty run. It closes the param and any open value list. |
| ScanRules.EqualsRule | route/Parser.js:307-330 | `=` succeeds exactly after a non-empty name inside a param with no value list. It opens the list. |
| ScanRules.CommaRule | route/Parser.js:283-298 | `,` succeeds exactly inside a value list after a non-empty run that decodes. It adds that run as a value. |
| ScanRules.RunOrdinary | route/Parser.js:108-118 | A stretch of unreserved characters only extends the pending run. |
| ScanRules.ParsePlain | route/Parser.js:126-141 | A pattern without reserved characters parses to the single Static(decode(text), encode(decode(text))), or to the URIError. |
| ScanRules.ParseRejectsOpen | route/Parser.js:120-124 | A pending escape, an open param, an open value list or nesting > 0 at the end is a SyntaxError. |
| ScanRules.ParseRejectsNothing | route/Parser.js:126-132 | No pending run and no parts at the end is a SyntaxError. |
| ScanRules.ParseEmpty | route/Parser.js:126-132 | The empty pattern is rejected with a SyntaxError. |
| ScanRules.StepGood | route/Parser.js:283-529 | Every handler keeps a well-formed state well-formed. |
| ScanRules.RunGood | route/Parser.js:108-118 | The loop keeps a well-formed state well-formed. |
| ScanRules.ParseGood | route/Parser.js:22-141 | Every successful parse is non-empty and well-formed, with these conditions: <ul><li>each Static holds a non-empty decoded run and its encoding;</li><li>each Param has a non-empty name and only Static values;</li><li>each Option is non-empty.</li></ul> |
| Parts.CompilePatternIsSerialize | route/Parser.js:154-191 | On a well-formed tree the reducer with `part2Pattern` omits nothing, at any depth: it equals the direct rendering of each part. |
| Parts.ToStringIsSerialize | route/Parser.js:214-216 | Parser `toString` of a well-formed tree is the concatenation of the parts' texts: escaped bodies, `<name>` or `<name=v1,...>`, `(`…`)` and `/`. |
| Parts.CompileFrom | route/Parser.js:154-191 | The reducer only ever extends the text it has built, except that below the top level a Param writing nothing abandons the sequence, which then yields "". |
| Parts.Escape | route/Parser.js:606-609 | Escaping never shortens the text. Its inverse property is RoundTrip.EscapeRun. |
| RoundTrip.EscapeRun | route/Parser.js:339-349 | Reading `escape(t)` outside an escape adds exactly `t` to the pending run, so the backslashes `escape` inserts are undone by the scanner. |
| RoundTrip.RunConcat | route/Parser.js:108-118 | Reading `a + b` is reading `a`, then reading `b` from where `a` stopped. |
| RoundTrip.AbsorbPart | route/Parser.js:622-651 | The text `part2Pattern` writes for one canonical part, read back, adds exactly that part. |
| RoundTrip.AbsorbValuedParam | route/Parser.js:641-642 | `<name=v1,...,vn>` read back is Param(name, [v1..vn]). |
| RoundTrip.ValuesRun | route/Parser.js:283-298 | Inside a value list, the joined escaped values add all but the last as Statics and leave the last one pending. |
| RoundTrip.AbsorbSeq | route/Parser.js:154-191 | The text of a canonical sequence is read back part by part. |
| RoundTrip.ParseSerialize | route/Parser.js:22-141 | Parsing the direct rendering of a canonical tree gives the tree back. |
| RoundTrip.ParseToString | route/Parser.js:214-216 | parse(toString(t)) == t for every canonical tree: well-formed, no two adjacent Statics, and no `%` in Static text. |
| Percent.Encode | route/Parser.js:231 | encodeURIComponent never shortens its input. It is empty exactly on empty input, and writes only unreserved characters, `%` and hexadecimal digits. |
| Percent.Decode | route/Parser.js:226 | A successful decodeURIComponent is never longer than its input, and is empty exactly on empty input. |
| Percent.DecodeOne | route/Parser.js:226 | Decoding one character consumes between 1 and the whole input. A character other than `%` decodes to itself. |
| Percent.DecodeOneEncodeChar | route/Parser.js:226-231 | The escapes of one encoded character decode back to exactly that character, whatever follows. |
| Percent.DecodeEncode | route/Parser.js:226-231 | decodeURIComponent(encodeURIComponent(s)) == s for every string of scalar values. |
| Percent.DecodeWithoutPercent | route/Pattern.js:360 | Text without `%` decodes to itself. |
| Percent.EncodeAppend | route/Parser.js:231 | Encoding distributes over concatenation. |
| Percent.EncodeChar | route/Pattern.js:328 | A character is its own encoding exactly when it is unreserved. |
| Flags.Trimmed | route/Pattern.js:15 | Trimming leaves no white space at either end, and leaves text without surrounding white space unchanged. |
| Flags.WordSuffixWords | route/Pattern.js:15 | The flag candidate is the longest run of `\w` characters at the end. |
| Flags.SpaceSuffixSpaces | route/Pattern.js:15 | The separator is the longest run of `\s` before the word run. |
| Flags.SplitPattern | route/Pattern.js:15 | `R_PATTERN` splits text into a route and a flag string:<ul><li>flags are split off exactly when the trimmed input ends in a run of word characters with white space just before it;</li><li>the flags are word characters;</li><li>the route has no surrounding white space;</li><li>without flags, the route is the trimmed input;</li><li>with flags, the trimmed input is the route, white space and the flags.</li></ul> |
| Flags.SplitPlain | route/Pattern.js:15 | Text with no trailing word run set off by white space splits into itself and no flags. |
| Flags.SplitWithFlags | route/Pattern.js:15 | `text + " " + flags` splits back into `text` and `flags`. |
| Flags.Set | route/Pattern.js:403 | `params[key] = value`: an existing key keeps its place, a new key goes last. The key reads back as the value and every other key is unchanged. |
| Flags.SetDistinct | route/Pattern.js:403 | Assignment keeps keys distinct. |
| Flags.ReduceFlag | route/Pattern.js:392-406 | A letter sets its mapped param (`s`, `e`, `i`, or else the lower-cased letter) to whether it was written in lower case. Nothing else changes, and keys stay distinct. |
| Flags.ReduceFlagsOverride | route/Pattern.js:63-78 | After folding the letters, a key that some letter maps to holds what the last such letter set. Every other key keeps its passed value. |
| Flags.FlagStringSetting | route/Pattern.js:225-238 | In the flag string, the last letter for a recognised key carries that param's value, and unrecognised keys get no letter. |
| Flags.FlagsRoundTrip | route/Pattern.js:201-238 | The flags `toString` writes, read back by `reduceFlag` over any params, restore every recognised param that was set and change nothing else. |
| Flags.FlagStringLetters | route/Pattern.js:225-238 | Only the letters `sSeEiI` are written. The flag string is empty exactly when no recognised key is present. |
| Flags.SplitToString | route/Pattern.js:201-212 | Pattern `toString` (a space before the flags only when they are non-empty), split again, gives back the route text and the flag string. |
| RegexSource.RegexEscape | route/Pattern.js:23 | A character is written as itself or with one backslash before it. |
| RegexSource.CompileStaticPartAsWritten | route/Pattern.js:310-314 | The body is decoded a second time. A result exists exactly when that decode succeeds and every decoded character is a single UTF-16 unit (at most U+FFFF). It is then the rendering of one fragment per decoded character. |
| RegexSource.AsWrittenAgrees | route/Pattern.js:310-314 | On a body without `%` and without characters above U+FFFF, the code as written gives the same expression as the single-decode compiler `RegexSource.CompileStaticPart`. |
| RegexSource.ReduceCharRenders | route/Pattern.js:326-342 | Each character adds its fragment. That is the escaped character alone when it is its own encoding, otherwise a non-capturing group offering the escaped character or enc(c), or with ignoreCase the escaped character, enc(lower c) or enc(upper c). |
| RegexSource.StaticSourceRenders | route/Pattern.js:310-314 | The source text of a Static body is the rendering of one fragment per character, in order. |
| RegexSource.FragmentsAcceptText | route/Pattern.js:326-342 | The fragments of a text match the text itself. |
| RegexSource.FragmentsAcceptEncoding | route/Pattern.js:326-342 | The fragments of a text match its percent-encoding, which is the text `build` writes. |
| RegexSource.LiteralsAcceptOnly | route/Pattern.js:326-330 | Fragments that are all literals match exactly the characters they spell. |
| RegexSource.RegexVisit | route/Pattern.js:251-284 | The visitor keeps ignoreCase and appends the name of a Param. Its failure flag becomes set exactly when it was set already, or this Static body or an allowed value of this Param fails to compile again. Only a Static that is empty or fails writes nothing. |
| RegexSource.CompileRegExp | route/Pattern.js:247-299 | The `i` flag follows ignoreCase. A compiled source starts with `^` unless doNotMatchStart is set, and ends with `$` unless doNotMatchEnd is set. |
| RegexSource.CompileRegexIsDirect | route/Pattern.js:247-285 | On a well-formed tree the reducer omits nothing. Its final state has every param name appended in tree order, and its failure flag is set exactly when some Static body or allowed value fails to compile again. When none fails, the source is the direct rendering. |
| RegexSource.CompileRegExpShape | route/Pattern.js:247-314 | On a well-formed tree, compiling throws URIError exactly when some Static body or allowed value, decoded a second time, fails to decode or holds a character above U+FFFF. Otherwise the source has these properties:<ul><li>`^` unless doNotMatchStart is set, and `$` unless doNotMatchEnd is set;</li><li>`([^/]+?)` for a Param without values, and `(?:`…`)?` for an Option;</li><li>the `i` flag exactly when ignoreCase is set;</li><li>`names` holds every param name in tree order, repeats included, and `using` holds exactly those names.</li></ul> |
| DoubleDecode.PercentBodyThrows | route/Pattern.js:310-314 | As written, `%25` parses to Static("%", "%25"), and compiling that body decodes `%` again, which throws. |
| DoubleDecode.PercentPatternThrows | route/Pattern.js:63-88 | As written, `new Pattern('%25')` throws URIError, whatever the params. |
| DoubleDecode.EscapedPercentMismatch | route/Pattern.js:310-314 | As written, `a%2541` parses to body `a%41`, but its expression is compiled from `aA` and does not match the path `a%2541` that `build` writes. |
| DoubleDecode.AstralBodyThrows | route/Pattern.js:310-342 | As written, a pattern holding U+1F600 parses to one Static, but compiling its body throws: `_.reduce` walks UTF-16 code units, and encoding a lone surrogate throws URIError. |
| DoubleDecode.StaticPartAcceptsBoth | route/Pattern.js:310-342 | With one decode, a Static's expression matches both its body and its encoding. |
| Build.Occurrence | route/Pattern.js:144-150 | Occurrence N of a name takes element N of a list argument (undefined past its end). A scalar argument serves only occurrence 0. |
| Build.ValueText | route/Pattern.js:152-157 | A falsy value (null, undefined, `''`) writes nothing. Any other value writes its percent-encoding, which decodes back to it. |
| Build.BuildParamPart | route/Pattern.js:125-158 | An absent name writes nothing and is not counted. Otherwise the name's counter becomes 0 or its old value plus 1, other counters stay, and the text is empty exactly when that occurrence's value is falsy, else it decodes to the value. |
| Build.Build | route/Pattern.js:99-161 | When every Param occurrence met gets a truthy value, `build` leaves nothing out. It writes the tree with every Option opened, and the k-th Param of a name (from 0, in visiting order) takes occurrence k of its argument. |
| Build.TracksStep | route/Pattern.js:103-123 | Visiting a part that is not an Option writes its flat text (`/`, `encoded`, or the param value) and keeps the counter equal to each name's count of visited Params. |
| Build.BuildFlat | route/Pattern.js:99-161 | Without Options, `build` writes every part in order, and the k-th Param of a name takes occurrence k of its argument. |
| Build.BuildParamFree | route/Pattern.js:99-161 | A well-formed tree without Params builds to all of its text, every Option included, whatever the arguments. |
| Build.DroppedOptional | route/Parser.js:165-186 | Take an Option whose Params all write, up to one at its own level that writes nothing. That Option adds nothing and the enclosing sequence goes on after it. The counter has counted the Params up to and including that one, and none after it. |
| Build.AbandonedFrom | route/Parser.js:179-185 | Below the top level, a sequence whose Params all write up to one that does not yields "". The counter has counted every Param up to and including that one. |
| Build.ListArgumentExample | route/Pattern.js:144-146 | `/<id>/<id>` with id = [7, 8] builds `/7/8`. |
| Build.ScalarArgumentExample | route/Pattern.js:147-150 | `/<id>/<id>` with id = 7 builds `/7/`. |
| Build.OptionalExamples | route/Parser.js:165-171 | `/a(/<b>)` builds `/a` when b is absent or empty, and `/a/x` when b = x. |
| Build.NestedOptionalExample | route/Parser.js:165-186 | In `/x(/a(/<b>))` without b, only the innermost Option is omitted, and the path is `/x/a`. |
| Build.AbandonedSequenceExample | route/Parser.js:180-184 | In `x(a<b>c)` without b, the empty Param abandons its whole sequence, including the `a` before it. |
| Captures.DecodeCapture | route/Pattern.js:359-361 | A capture containing `%` is decoded, one without `%` is kept, and an undefined group stays undefined. It throws exactly when decoding fails. |
| Captures.Push2Result | route/Pattern.js:357-379 | It throws exactly when the capture does not decode. |
| Captures.Push2ResultShape | route/Pattern.js:363-378 | The name joins the keys and its captures grow by the decoded value. The entry is a single value exactly when the name is new, and nothing else changes. |
| Captures.Match | route/Pattern.js:172-192 | No match gives null. Otherwise the result is `push2Result` of name i with group i + 1, folded in order, or the URIError. |
| Captures.CollectFails | route/Pattern.js:187-189 | `match` throws exactly when some capture does not decode. |
| Captures.CollectValue | route/Pattern.js:187-189 | Under each collected name: its captures in order, decoded. |
| Captures.CollectFirst | route/Pattern.js:185-191 | When no capture throws, the keys collected after k names are exactly the first k names. |
| Captures.MatchShape | route/Pattern.js:185-191 | A successful match has every listed name as a key, including those whose group did not take part. Under each name are its captures in order, and an entry is a single value exactly when the name is listed once. |
| PatternObject.NewPattern | route/Pattern.js:63-88 | `new Pattern(text)` succeeds exactly when the route text parses and every Static body and allowed value decodes a second time with no character above U+FFFF. A parse error is thrown as it is; otherwise the failure is URIError. On success the parts are the parse, non-empty and well-formed, and the matcher is `__compileRegExp` of those parts and the folded params. |
| PatternObject.NewPatternParams | route/Pattern.js:69-78 | A constructed pattern's params: a flag letter in the text decides its key (the last one wins), and other keys keep the passed value. |
| PatternObject.NewPatternRegExp | route/Pattern.js:87 | A constructed pattern's source is the anchors around the direct rendering of its parts, with each Static body and allowed value decoded a second time as the code does. Its names are the param names in order. |
| PatternObject.PatternRoundTrip | route/Pattern.js:201-212 | Constructing a pattern from another's `toString` gives back its parts and its recognised flags. Other keys come from the new params. |
| Registry.Without | core/matcher.js:64-68 | Removing a name never lengthens the list. |
| Registry.WithoutMembers | core/matcher.js:64-68 | Removing a name removes that name and nothing else. |
| Registry.WithoutIsSubsequence | core/matcher.js:64-68 | The remaining names keep their relative order. |
| Registry.WithoutNoDuplicates | core/matcher.js:64-68 | Removal keeps the list free of duplicates. |
| Registry.RuleName | core/matcher.js:51-62 | The name is `ruleData.name` when present, and otherwise the generated id. |
| Registry.Matcher.constructor | core/matcher.js:12-37 | A new matcher has an empty `order` and an empty `index`, and is valid. |
| Registry.Matcher.AddRule | core/matcher.js:49-74 | The rule's data is `{name: id}` overridden by the own fields of ruleData. Earlier occurrences of the name leave `order` and the name is appended. `index[name]` becomes the new rule. The matcher stays valid (no duplicates; `order` and `index` hold the same names) and the same matcher is returned. |
| Registry.AddRuleOrder | core/matcher.js:64-71 | After `addRule` the name is last and occurs once. Every earlier name stays registered, and the others keep their relative order. |
| Registry.AddedValid | core/matcher.js:64-71 | Appending a removed name keeps `order` free of duplicates, and it names exactly the keys of the updated `index`. |
| Registry.Matcher.GetRule | core/matcher.js:85-87 | The rule under a registered name, or absent for an unknown name. |
| Registry.Hits | core/matcher.js:118-130 | There are never more hits than listed names, and every hit names a rule in the list. |
| Registry.CollectHits | core/matcher.js:118-130 | The loop yields one hit for every rule in the list whose test is non-null, in list order. |
| Registry.Matcher.Match | core/matcher.js:111-133 | `match` equals the hits over `order` and `index`. |
| Registry.HitsShape | core/matcher.js:111-133 | The hit names are a subsequence of `order`, each hit carries its rule's arguments, and every matching rule gives a hit: the loop does not stop at the first one. |
| Registry.ReAddExample | core/matcher.js:49-74 | Registering A, then B, then A again leaves `order` = [B, A] with A's new rule. |

## Left out

- The regular-expression engine. `RegExp` construction and `exec` are not modelled, so a SyntaxError that `new RegExp` might raise on a compiled source is not modelled either. `match` takes the captured groups (or no match) as an input, and `RegexSource.Accepts` states only what a per-character fragment is meant to match.
- `regesc`, a foreign library: `RegexSource.RegexEscape` puts a backslash before the characters `-/\^$*+?.()|[]{}`, a stand-in for it.
- lodash and `inherit`: `_.some`, `_.reduce`, `_.extend` and the like are written out as the recursion they perform.
- Strings are sequences of Unicode scalar values, not UTF-16 code units. A lone surrogate in the input, which makes encodeURIComponent throw, cannot be represented. The one place where the code splits a character into UTF-16 units, `_.reduce` over a decoded Static body, is modelled by its outcome: a character above U+FFFF there makes the compile throw URIError (`RegexSource.Recompiles`).
- `Flags.ToLower` / `Flags.ToUpper`: case mapping is restricted to ASCII letters, so full Unicode case mapping is not modelled.
- `Flags.SplitPattern`: `\s` and `\w` are the ASCII classes, not the full Unicode white-space set.
- The `Rule` class (`./rule`) and `_createRule` are not part of this model. A rule is its source string and its data, and testing a rule against a URL is a function the caller supplies.
- The `unique-id` generator is a `freshId` parameter of `Registry.Matcher.AddRule`.
- `Registry.Matcher.constructor` does not keep the `params` field of the JavaScript Matcher, which nothing in the core reads.
- Registry.Rule: `ruleData` values are strings, so the other value types of a JavaScript object are not modelled.
- Build.Opts: an argument is null or undefined, a string, or an array of those. Numbers and other values, which `encodeURIComponent` would convert to strings first, are left out. A value in `opts` is taken as is, so a present key holding undefined is the same as `Nil`.
- Flags.Params: a params object is an association list in insertion order. That matches the order JavaScript enumerates non-index keys. Values are kept only as their truthiness, which is all `__compileRegExp` and `__reduceParam2Flag` read.
- Scanner.Scan: the aliasing between `__buf` and the arrays held on `__stack` is replaced by the zipper of frames. The tree produced is the same because a buffer is never written after its frame is popped. The in-place pushes into shared arrays are not modelled as such.
- Parts.CompileFrom: the visitor's captured mutable variables become explicit state threaded through the reducer.
- Parts.CompileFrom: the reducer drops only the innermost Option whose content reduces to "". An empty Param at depth > 0 abandons only the sequence it is in. An enclosing Option whose other parts are non-empty is kept, as `Build.NestedOptionalExample` shows. This follows the code at route/Parser.js:165-186; a description of the omission as cascading through all enclosing Options does not match it.
- PatternObject.PatternRoundTrip: it requires the route text to be canonical, meaning no `%` in Static text and no two adjacent Statics. It also requires that the text not itself end in a word run set off by white space, since `R_PATTERN` would then read that run as flags. It also requires `RegexSource.SeqRecompiles` of the parts: as written, a pattern whose bodies do not survive a second decode cannot be constructed at all.
- Build.BuildParamPart: `using` in `build` is a plain JavaScript object, and the model keeps it as a map. Two Param names behave differently in the code and are not modelled. A Param named `hasOwnProperty` shadows the method once it is counted, so the next `using.hasOwnProperty(name)` throws TypeError. Assigning a number to `using.__proto__` is ignored, so a Param named `__proto__` is never counted and every occurrence of it takes element 0 of a list argument.
- Captures.Push2Result: `result` in `match` is a plain JavaScript object, and the model keeps it as a map. After a capture named `hasOwnProperty` is stored, the next `result.hasOwnProperty(name)` throws TypeError. Assigning a string or undefined to `result.__proto__` is ignored, so that key is missing from the result. `Captures.Match`, `Captures.CollectFails` and `Captures.MatchShape` do not hold for patterns with Params of those two names.
- RegexSource.RegexVisit: `using` in `__compileRegExp` is a plain JavaScript object, and the model keeps it as a set. `using['__proto__'] = true` is ignored, so for a Param named `__proto__` the model's set holds a name the object does not, and `RegexSource.CompileRegExpShape` states `using` as all the names.
- Captures.Push2Result: its own contract states only when it throws. What it stores is stated by `Captures.Push2ResultShape`.
- The test file for `core/parser/rule-arg` is not part of this model.

## Findings

The pattern object (`PatternObject.NewPattern`, `RegexSource.CompileRegExp`) models the code as written: both rows below make its constructor throw URIError. The corrected compiler, `RegexSource.CompileStaticPart`, is kept beside it with its properties proved.

| source | as written | input that shows it | evidently intended | confidence | as-written member | corrected member |
|---|---|---|---|---|---|---|
| route/Pattern.js:310-314 | `__compileStaticPart` calls `decodeURIComponent` on `part.body`, which the parser already decoded (route/Parser.js:226). | Pattern `%25`: the body is `%`, and decoding it again throws URIError in the constructor. Pattern `a%2541`: the body is `a%41` and `build` writes `a%2541`, but the expression is compiled from `aA` and does not match that path. | Compile the body as it is, so that the expression matches both the body and its encoding. | not executed | RegexSource.CompileStaticPartAsWritten, DoubleDecode.PercentBodyThrows, DoubleDecode.PercentPatternThrows, DoubleDecode.EscapedPercentMismatch | RegexSource.CompileStaticPart, with DoubleDecode.StaticPartAcceptsBoth and RegexSource.AsWrittenAgrees |
| route/Pattern.js:313 | `_.reduce` walks the decoded body by UTF-16 code unit, so a character above U+FFFF reaches `__reduceChar` as two lone surrogates, and `encodeURIComponent` throws on the first. | A pattern holding U+1F600 alone: it parses to one Static, but compiling its body throws URIError. | Reduce the body by code point. | not executed | DoubleDecode.AstralBodyThrows | RegexSource.CompileStaticPart, with DoubleDecode.StaticPartAcceptsBoth |
