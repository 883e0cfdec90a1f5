# sv-extractor, modelled in Dafny

sv-extractor reads SystemVerilog modules and writes Chisel `BlackBox` stubs
for them. This project models its three sequential cores and proves what
they promise:

- **Port extraction** (`src/sv_parse.rs`). `parse_module` walks the syntax
  tree and collects the module name, its ports and the text macros it
  defines. Packed ranges such as `[WIDTH-1:0]` are turned into a width:
  - `parse_expression` rebuilds the range text from the tree's tokens;
  - `parse_sv_number` normalises based literals (`8'hFF` becomes `255`);
  - `preprocess_for_rhai` rewrites `**` and `$clog2` for the expression
    evaluator;
  - `eval_int_expr` evaluates the bounds, with the macros defined so far
    in scope;
  - `compute_packed_range_width_bits` computes `|msb - lsb| + 1`.
- **The symbol table** (`src/hdl_info.rs`). `HdlInfo` holds append-only
  lists of definitions and modules. Each method updates them in place.
- **The Chisel emitter** (`src/converter.rs`). It renders each module as
  Scala text, with its IO bundle either inline or as a separate
  `<name>_Bundle` class.

Files, one Dafny module each:

| file | module | models |
|---|---|---|
| `text.dfy` | `Text` | the Rust string operations the code relies on: `to_string` of integers, `str::replace`, `join`, `str::lines`, `str::trim` |
| `sv_number.dfy` | `SvNumber` | `parse_sv_number`, with its regex as a left-to-right scanner |
| `sv_eval.dfy` | `SvEval` | `preprocess_for_rhai` and `eval_int_expr`'s scope loop around an uninterpreted evaluator; separately, the `clog2` and `pow` functions the source registers with that evaluator |
| `sv_width.dfy` | `SvWidth` | `parse_expression`, `compute_packed_range_width_bits`, `parse_packed_dimension_range` |
| `hdl_info.dfy` | `Hdl` | the `Port`, `Define` and `Module` records and the `HdlInfo` class |
| `sv_parse.dfy` | `SvParse` | `parse_module`, as a loop over the tree's nodes classified as events |
| `converter.dfy` | `Converter` | `ChiselConverter`, `port_to_chisel`, `indent_block`, `module_to_chisel`, `emit_chisel_string` |

How the model is built:
- **The syntax tree.** The walk is given the tree's nodes as a sequence
  of events. Each event carries the texts `parse_module` reads from its
  node: a macro definition, a module declaration, a grouped (non-ANSI)
  port declaration, an ANSI port, or any other node.
- **Range widths.** The walk is stated for any resolver from a macro map
  and range tokens to a width and range text. `parse_module` uses
  `DimensionResolver`, which is `parse_packed_dimension_range`.
- **The walk.** Each part of the walk's state is a fold over the nodes:
  - `LastModuleName`: the module name;
  - `PortsOf`: the ports;
  - `MacroDefines`: the definitions;
  - `LastAnsiDirection`: the last ANSI direction;
  - `MacroMap`: the macro map.

  `ParseModule` is proved against these folds. Lemmas then describe each
  fold without unfolding it:
  - the name: `ModuleNamed`;
  - the ports: `PortsCounted`, `GroupedPorts` and `AnsiPortPlaced`;
  - the definitions: `DefinesCounted` and `DefinesPlaced`;
  - the direction: `DirectionInherited` and `NoDirectionYet`;
  - the macro map: `MacrosLatest`.
- **The expression evaluator.** `Engine` is a pair of functions. One is
  the evaluator, which maps bindings and text to a value or an error. The
  other gives a macro map's iteration order.

Behaviour of the code that the model reproduces:
- A signed literal such as `8'sd12` is read with base `s` and digits
  `d12`. It normalises to `unknown` (`SvNumber.SignedLiteralExample`).
- An ANSI port that spells no direction, before any port has spelt one,
  gets the empty direction (`SvParse.NoDirectionYet`).
- A grouped declaration adds one port per `PortIdentifier` in its
  `ListOfPortIdentifiers`, and none when the tree holds no such list
  (src/sv_parse.rs:97-113). The event then carries no names. Which
  declarations the parser gives such a list is not modelled.

## Model

| member | source | states |
|---|---|---|
| Text.DecimalText | src/sv_parse.rs:276-278 | the decimal text of a width is non-empty digits with no leading zero; a single digit exactly below ten |
| Text.DecimalRoundTrip | src/sv_parse.rs:371 | reading back the decimal text of a value gives the value |
| Text.DecimalTextInjective | src/sv_parse.rs:371 | distinct values have distinct decimal texts |
| Text.ReplaceAll | src/sv_parse.rs:326-327 | definition of `str::replace`: non-overlapping matches, left to right; characterised by `ReplaceAllAbsent`, `ReplaceAllPrefix` and `ReplaceAllOnce` |
| Text.ReplaceAllPrefix | src/sv_parse.rs:326-327 | a prefix holding no first character of the pattern is copied and the replacement goes on after it |
| Text.ReplaceAllShort | src/sv_parse.rs:326-327 | text shorter than the pattern is unchanged |
| Text.ReplaceAllOnce | src/sv_parse.rs:326-327 | a single occurrence between texts that cannot start the pattern is replaced, and only it |
| Text.ReplaceAllWithoutFirst | src/sv_parse.rs:326-327 | text holding no first character of the pattern is unchanged |
| Text.Join | src/converter.rs:55 | definition of `join`; `SplitJoin` and `JoinSplit` prove it inverse to `Split` |
| Text.Lines | src/converter.rs:46 | definition of `str::lines`; characterised by `LinesFromPieces` and `LinesOfJoin` |
| Text.Trim | src/sv_parse.rs:287 | definition of `str::trim`; characterised by `TrimSpec` and `TrimUntouched` |
| Text.ReplaceAllAbsent | src/sv_parse.rs:326-327 | `str::replace` of a pattern that does not occur leaves the text unchanged |
| Text.ReplaceAllHead | src/sv_parse.rs:326-327 | a replacement keeps the first character when the text does not start with the pattern's first character |
| Text.Split | src/converter.rs:46 | splitting at a separator always yields at least one piece |
| Text.SplitNoSep | src/converter.rs:46 | a text without the separator splits into itself |
| Text.SplitAfterPiece | src/converter.rs:46 | a piece before a separator is split off as the first piece |
| Text.SplitJoin | src/converter.rs:55 | splitting a join of separator-free parts gives the parts back |
| Text.JoinSplit | src/converter.rs:55 | joining the pieces of a split gives the text back |
| Text.MapStripCr | src/converter.rs:46 | every line ended by a line feed loses one trailing carriage return, index by index |
| Text.MapStripCrUnchanged | src/converter.rs:46 | lines without a trailing carriage return are left as they are |
| Text.LinesFromPieces | src/converter.rs:46 | `str::lines` of a text whose pieces have no carriage return and whose last piece is not empty is those pieces |
| Text.LinesOfJoin | src/converter.rs:46 | `str::lines` of a join of lines gives the lines back |
| Text.TrimStart | src/sv_parse.rs:287 | `trim_start` never lengthens the text |
| Text.TrimEnd | src/sv_parse.rs:287 | `trim_end` never lengthens the text |
| Text.TrimStartSpec | src/sv_parse.rs:287 | `trim_start` yields a suffix, cuts only whitespace and stops at the first non-whitespace character |
| Text.TrimEndSpec | src/sv_parse.rs:287 | `trim_end` yields a prefix, cuts only whitespace and stops at the last non-whitespace character |
| Text.TrimSpec | src/sv_parse.rs:287 | `trim` yields a slice with only whitespace cut on either side, and neither end of it is whitespace |
| Text.CutWindow | src/sv_parse.rs:287 | cutting whitespace from the front and then the back leaves a slice with only whitespace around it |
| Text.TrimUntouched | src/sv_parse.rs:294-295 | text that neither starts nor ends with whitespace is its own trim |
| Text.StripCr | src/converter.rs:46 | definition of the carriage-return handling of `str::lines`: one trailing `\r` is dropped; `MapStripCr`, `MapStripCrUnchanged` and `LinesFromPieces` state its use |
| Text.IsWhitespace | src/sv_parse.rs:287 | definition of `char::is_whitespace`, the Unicode White_Space set that `trim` cuts; `TrimStartSpec`, `TrimEndSpec` and `TrimSpec` state the cut in its terms |
| Text.Spaces | src/converter.rs:45 | the indent is exactly `n` spaces |
| SvNumber.IsBaseChar | src/sv_parse.rs:356 | definition of the class `[sdhbo]` under `(?i)`: the five letters in either case and long s; `LiteralAt` and `LiteralAtIsPrefix` state the match in its terms |
| SvNumber.IsLiteralDigit | src/sv_parse.rs:356 | definition of the class `[0-9a-f_xz]` under `(?i)`; `LiteralDigitRun` and `LiteralDigitRunDigits` state the run in its terms |
| SvNumber.DigitValue | src/sv_parse.rs:364-367 | definition of the digit value behind `from_str_radix`; `HexValue`, `BinaryValue`, `RadixTenIsDecimal` and `InvalidDigitUnknown` state it on digits |
| SvNumber.ValidDigits | src/sv_parse.rs:364-367 | definition of digits that the radix accepts; `FromStrRadix` and `InvalidDigitUnknown` state that other digits fail |
| SvNumber.RadixValue | src/sv_parse.rs:364-367 | definition of the value of digits in a radix, most significant first; `RadixTenIsDecimal` ties it to the independent `DecimalValue`, and `HexValue` and `BinaryValue` to examples |
| SvNumber.Radix | src/sv_parse.rs:360-368 | `h` or `H` selects exactly radix 16, `b`/`B` 2, `o`/`O` 8, `d`/`D`/`s`/`S` 10; any other base character, long s included, selects none |
| SvNumber.RemoveUnderscores | src/sv_parse.rs:361 | the cleaned digits hold no underscore and are no longer than the digits |
| SvNumber.RemoveUnderscoresChar | src/sv_parse.rs:361 | a single character is dropped exactly when it is an underscore |
| SvNumber.RemoveUnderscoresConcat | src/sv_parse.rs:361 | cleaning works piecewise: the cleaning of `a + b` is that of `a` followed by that of `b`, so the other characters keep their order |
| SvNumber.RemoveUnderscoresKeeps | src/sv_parse.rs:361 | every character other than an underscore survives the cleaning |
| SvNumber.RemoveUnderscoresNone | src/sv_parse.rs:361 | digits without underscores are left as they are |
| SvNumber.FromStrRadix | src/sv_parse.rs:364-367 | parsing succeeds exactly for non-empty digits that the radix accepts and whose value fits in an i64, and then gives that value |
| SvNumber.RadixTenIsDecimal | src/sv_parse.rs:367 | decimal digits read in radix 10 have their decimal value |
| SvNumber.FromStrRadixDecimal | src/sv_parse.rs:367-371 | parsing the decimal text of an i64 value in radix 10 gives that value back |
| SvNumber.ParseSvNumber | src/sv_parse.rs:354-373 | definition of the left-to-right scan; `NoQuoteUnchanged`, `PrefixUntouched` and `LiteralReplaced` state what it keeps and what it replaces |
| SvNumber.ReplacementText | src/sv_parse.rs:359-371 | definition of one replacement; `ReplacementRoundTrip`, `ValidDigitsText`, `InvalidDigitUnknown` and `DontCareIsUnknown` state its cases |
| SvNumber.DigitRun | src/sv_parse.rs:356 | the size prefix takes the longest run of leading digits |
| SvNumber.DigitRunDigits | src/sv_parse.rs:356 | every character of that run is a digit |
| SvNumber.LiteralDigitRun | src/sv_parse.rs:356 | the digit run takes the longest run of `[0-9a-f_xz]` characters, in either case |
| SvNumber.LiteralDigitRunDigits | src/sv_parse.rs:356 | every character of that run is a literal digit |
| SvNumber.LiteralAt | src/sv_parse.rs:356 | a match at the front of the text is at least three characters long and fits in the text |
| SvNumber.LiteralAtIsPrefix | src/sv_parse.rs:356 | a match is a prefix of the text: digits, a quote, a base character and a non-empty digit run |
| SvNumber.NoQuoteUnchanged | src/sv_parse.rs:354-373 | text with no quote passes through the normaliser unchanged |
| SvNumber.DigitRunStops | src/sv_parse.rs:356 | the size prefix stops at or before any non-digit |
| SvNumber.NoLiteralBeforeQuoteFree | src/sv_parse.rs:356 | no match starts inside a quote-free piece that does not end in a digit |
| SvNumber.ScanCopiesFirst | src/sv_parse.rs:359 | where no match starts, the scan copies one character and moves on |
| SvNumber.PrefixUntouchedStep | src/sv_parse.rs:359 | one step of copying a quote-free piece |
| SvNumber.PrefixUntouched | src/sv_parse.rs:359 | a quote-free piece not ending in a digit is copied verbatim whatever follows it |
| SvNumber.LiteralReplaced | src/sv_parse.rs:359-372 | a whole literal, not followed by another literal digit, is replaced by its replacement text and the scan resumes after it |
| SvNumber.LiteralAtLiteral | src/sv_parse.rs:356 | the match at the front of such a literal is that literal, size prefix included |
| SvNumber.DigitRunPrefix | src/sv_parse.rs:356 | the size prefix of a literal is its whole run of digits |
| SvNumber.LiteralDigitRunPrefix | src/sv_parse.rs:356 | the digit run of a literal is its whole run of literal digits |
| SvNumber.InvalidDigitUnknown | src/sv_parse.rs:363-371 | a digit the radix rejects, or a base without a radix, gives `unknown` |
| SvNumber.DontCareIsUnknown | src/sv_parse.rs:363-371 | digits holding `x` or `z` give `unknown` |
| SvNumber.ReplacementRoundTrip | src/sv_parse.rs:363-371 | a replacement other than `unknown` is decimal text whose value is the value of the cleaned digits, which fits in an i64 |
| SvNumber.ValidDigitsText | src/sv_parse.rs:360-371 | digits that, once cleaned of underscores, the radix accepts and whose value fits in an i64 are replaced by the decimal text of that value |
| SvNumber.UnderscoreIgnored | src/sv_parse.rs:361 | an underscore anywhere among the digits does not change the replacement |
| SvNumber.SeparatedHexValue | src/sv_parse.rs:361-364 | hex digits `F_F` are replaced by `255` |
| SvNumber.HexDigitsValue | src/sv_parse.rs:364 | hex digits `FF` are replaced by `255` |
| SvNumber.HexValue | src/sv_parse.rs:364 | `FF` is valid in radix 16 with value 255 |
| SvNumber.BinaryDigitsValue | src/sv_parse.rs:365 | binary digits `1010` are replaced by `10` |
| SvNumber.BinaryValue | src/sv_parse.rs:365 | `1010` is valid in radix 2 with value 10 |
| SvNumber.SignedDigitsValue | src/sv_parse.rs:367 | base `s` with digits `d12` gives `unknown` |
| SvNumber.HexLiteralExample | src/sv_parse.rs:354-373 | `8'hFF` normalises to `255` |
| SvNumber.BinaryLiteralExample | src/sv_parse.rs:354-373 | `4'b1010` normalises to `10` |
| SvNumber.DontCareLiteralExample | src/sv_parse.rs:354-373 | `4'bxxz0` normalises to `unknown` |
| SvNumber.SignedLiteralExample | src/sv_parse.rs:354-373 | `8'sd12` normalises to `unknown` |
| SvEval.Preprocess | src/sv_parse.rs:324-329 | definition of the rewriting; `PreprocessNoStarPair`, `PreprocessPlain`, `PreprocessPow` and `PreprocessClog` state what it does |
| SvEval.Inject | src/sv_parse.rs:334-341 | definition of the scope the loop builds; `InjectExtends`, `MacroBoundIff` and `ScopeNamesDistinct` state its contents |
| SvEval.EvalInt | src/sv_parse.rs:331-352 | definition of the result of `eval_int_expr`, which `EvalIntExpr` computes |
| SvEval.AbsentWithoutFirst | src/sv_parse.rs:326-327 | a pattern whose first character is absent from the text does not occur |
| SvEval.ReplaceAllFirst | src/sv_parse.rs:326-327 | a replacement result starts with the text's or the replacement's first character |
| SvEval.ConcatNoStarPair | src/sv_parse.rs:326 | two texts without `**` that do not meet in a star pair concatenate without one |
| SvEval.PowRewriteNoStarPair | src/sv_parse.rs:326 | after rewriting `**` no two consecutive stars remain |
| SvEval.SuffixNoStarPair | src/sv_parse.rs:326 | a suffix of a text without `**` has none |
| SvEval.ClogRewriteNoStarPair | src/sv_parse.rs:327 | rewriting `$clog2` creates no `**` |
| SvEval.PreprocessNoStarPair | src/sv_parse.rs:324-329 | the evaluator never sees `**` after preprocessing |
| SvEval.PreprocessPlain | src/sv_parse.rs:324-329 | text without quote, star or dollar sign reaches the evaluator unchanged |
| SvEval.PreprocessPow | src/sv_parse.rs:326 | `a**b`, with `a` and `b` free of quote, star and dollar sign, becomes ``a `pow` b`` and nothing else changes |
| SvEval.PreprocessClog | src/sv_parse.rs:327 | `a$clog2b`, with `a` and `b` free of quote, star and dollar sign, becomes `aclog2b` and nothing else changes |
| SvEval.Pow2 | src/sv_parse.rs:312 | powers of two are positive |
| SvEval.Pow2Increasing | src/sv_parse.rs:312 | powers of two strictly increase |
| SvEval.Clog2 | src/sv_parse.rs:308-314 | `clog2` is 0 up to 1, otherwise the least `r` with `2^(r-1) < n <= 2^r` |
| SvEval.Clog2OfPow2 | src/sv_parse.rs:308-314 | `clog2` of a power of two is its exponent |
| SvEval.Pow2Bound | src/sv_parse.rs:312 | powers of two up to the 31st are at most 2^31 |
| SvEval.Pow | src/sv_parse.rs:316-319 | `pow` is 0 for a negative exponent, and otherwise the power for exponents below 2^32 |
| SvEval.PowWraps | src/sv_parse.rs:318 | the exponent is cast to u32, so adding 2^32 to it changes nothing |
| SvEval.PowerOfTwo | src/sv_parse.rs:318 | the power of 2 is the power of two |
| SvEval.Clog2InvertsPow | src/sv_parse.rs:308-319 | `clog2(pow(2, k))` is `k` for `k <= 31` |
| SvEval.Bind | src/sv_parse.rs:336-341 | one turn of the scope loop either keeps the scope or appends exactly one binding, named by a macro of the map |
| SvEval.EvalIntExpr | src/sv_parse.rs:331-352 | the loop builds the scope of `Inject` over the macros in iteration order and evaluates the preprocessed input against it |
| SvEval.InjectExtends | src/sv_parse.rs:336-341 | the scope only grows, by at most one binding per visited key, each named by a visited key of the map |
| SvEval.InjectSplit | src/sv_parse.rs:336-341 | visiting two runs of keys in turn is visiting them together |
| SvEval.MacroBoundIff | src/sv_parse.rs:336-341 | a macro is bound exactly when its value evaluates against the scope built before it, and then to that value; a macro that fails is skipped |
| SvEval.ScopeFromMacros | src/sv_parse.rs:336-341 | only macros of the map are bound, and there are no more bindings than keys visited |
| SvEval.InjectDistinct | src/sv_parse.rs:336-341 | visiting distinct keys that are not yet bound keeps every name bound at most once |
| SvEval.ScopeNamesDistinct | src/sv_parse.rs:334-341 | when the iteration order lists each key once, no two bindings of the scope share a name |
| SvEval.MacroBoundInOrder | src/sv_parse.rs:334-341 | when the iteration order lists each key once, every macro of the map is visited at some turn, and it is bound exactly when its value evaluates against the scope built before that turn, and then to that value |
| SvWidth.Accepted | src/sv_parse.rs:192-257 | definition of the tokens kept; `AcceptedDeduplicated`, `AcceptedAll` and `AcceptedSnoc` state which ones |
| SvWidth.ExpressionOf | src/sv_parse.rs:185-264 | definition of the returned expression; `ExpressionSpan` and `StutterExpression` state its properties |
| SvWidth.ParseExpression | src/sv_parse.rs:185-264 | the loop builds `ExpressionOf` the tokens: the accepted texts concatenated, with the last accepted span, or `unknown` with no span |
| SvWidth.AcceptedDeduplicated | src/sv_parse.rs:196-198 | accepted tokens never repeat a span back to back |
| SvWidth.AcceptedAll | src/sv_parse.rs:196-198 | all tokens are accepted exactly when they never repeat a span back to back |
| SvWidth.AcceptedLength | src/sv_parse.rs:196-198 | at most every token is accepted |
| SvWidth.Stutter | src/sv_parse.rs:192 | visiting each leaf twice doubles the tokens |
| SvWidth.AcceptedSnoc | src/sv_parse.rs:196-198 | one more token is accepted exactly when its span differs from the last accepted one |
| SvWidth.StutterAccepted | src/sv_parse.rs:192-257 | visiting each leaf twice in a row accepts the same tokens as visiting it once |
| SvWidth.StutterExpression | src/sv_parse.rs:185-264 | and builds the same expression |
| SvWidth.ExpressionSpan | src/sv_parse.rs:258-263 | the result is `unknown` without span exactly when the text is empty, and otherwise carries the last accepted span |
| SvWidth.SplitOnce | src/sv_parse.rs:293-295 | `splitn(2, ':')` gives the text before the first colon and, exactly when a colon occurs, the text after it |
| SvWidth.SplitOnceAt | src/sv_parse.rs:293-295 | a text is split at its first colon |
| SvWidth.RangeBounds | src/sv_parse.rs:287-298 | there are bounds exactly when the trimmed text is bracketed and its inside holds a colon |
| SvWidth.BoundsWidth | src/sv_parse.rs:299-302 | there is a width exactly when both bounds evaluate, and it is `|msb - lsb| + 1`, at least 1 |
| SvWidth.BoundsWidthSymmetric | src/sv_parse.rs:302 | the width does not depend on which bound comes first |
| SvWidth.PackedRangeWidth | src/sv_parse.rs:283-303 | there is a width, at least 1, exactly when the text has bounds and both evaluate |
| SvWidth.Evaluator | src/sv_parse.rs:299-300 | definition of the bound evaluator: `eval_int_expr` against the macro map; `DecimalBound` and `ParsePackedDimensionRange` state it |
| SvWidth.Abs | src/sv_parse.rs:302 | the absolute value is the value or its negation |
| SvWidth.RangeBoundsOf | src/sv_parse.rs:287-298 | the bounds of `[a:b]` are `a` and `b` |
| SvWidth.BracketedRange | src/sv_parse.rs:287-291 | `[a:b]` is bracketed, already trimmed, with `a:b` inside |
| SvWidth.RangeWidth | src/sv_parse.rs:283-303 | `[a:b]` has the width of its evaluated bounds, and none when one fails |
| SvWidth.RangeWidthSymmetric | src/sv_parse.rs:283-303 | `[a:b]` and `[b:a]` have the same width |
| SvWidth.NoWidthWithoutColon | src/sv_parse.rs:288-298 | text that is not bracketed or has no colon inside has no width |
| SvWidth.DecimalBound | src/sv_parse.rs:331-352 | for an evaluator that reads decimal text as its value, a decimal bound evaluates to itself whatever the macros |
| SvWidth.DecimalRangeWidth | src/sv_parse.rs:283-303 | `[m:l]` in decimal has width `|m - l| + 1` |
| SvWidth.RangeWidthOfValues | src/sv_parse.rs:283-303 | `[a:b]` whose bounds evaluate to `msb` and `lsb` has width `|msb - lsb| + 1` |
| SvWidth.DigitsPlain | src/sv_parse.rs:283-303 | decimal text holds no colon, quote, star or dollar sign and is unpadded |
| SvWidth.DimensionRange | src/sv_parse.rs:266-281 | `unknown` exactly when there is no range text; otherwise the range text is kept and the width is the decimal text of the computed width, or the range text when none is computed |
| SvWidth.ParsePackedDimensionRange | src/sv_parse.rs:266-281 | the method returns `DimensionRange` of the expression built from the range's tokens |
| Hdl.WithPortOnLast | src/hdl_info.rs:46-56 | adding a port changes only the last module, appending the port; other modules are equal; an empty list stays empty |
| Hdl.HdlInfo.constructor | src/hdl_info.rs:31-36 | a new table has no definitions and no modules |
| Hdl.HdlInfo.AddModule | src/hdl_info.rs:38-40 | one module with the name and no ports is appended; definitions are unchanged |
| Hdl.HdlInfo.AddDefine | src/hdl_info.rs:42-44 | one definition is appended even for a name already defined; modules are unchanged |
| Hdl.HdlInfo.AddPorts | src/hdl_info.rs:46-56 | the port goes on the last module only, nothing happens without a module, and definitions are unchanged |
| Hdl.HdlInfo.GetModules | src/hdl_info.rs:58-60 | the module list, read without change |
| Hdl.HdlInfo.MergeInfo | src/hdl_info.rs:62-65 | definitions and modules become the old ones followed by those of `info`, which is unchanged |
| Hdl.AllPortsWithPortOnLast | src/hdl_info.rs:46-56 | adding a port to the last module appends it to the list of all ports, and adds nothing without a module |
| Hdl.AllPortsConcat | src/hdl_info.rs:62-65 | the ports of a merged module list are those of the first list followed by those of the second |
| SvParse.TypeName | src/sv_parse.rs:77-88 | definition of the port type: the data type's keyword, `unknown` without one, `wire` for an implicit type, otherwise `unknown`, the same rule for ANSI ports at src/sv_parse.rs:131-142; `GroupedPorts` and `AnsiPortPlaced` state it on the returned ports |
| SvParse.AnsiDirection | src/sv_parse.rs:121-126 | definition of an ANSI port's direction: its own, or else the last one spelt, which is pushed at src/sv_parse.rs:154; `AnsiPortPlaced`, `DirectionInherited` and `NoDirectionYet` state it on the returned ports |
| SvParse.DimensionResolver | src/sv_parse.rs:90-95 | definition of the width resolver `parse_module` uses: `parse_packed_dimension_range` against the macros so far, called again for ANSI ports at src/sv_parse.rs:145-150; `DeclarationWidth` and `ParseModule` state it |
| SvParse.Added | src/sv_parse.rs:72-160 | definition of the ports one node adds; `AddedGroup`, `AddedCount` and `AnsiPortPlaced` state them |
| SvParse.LastModuleName | src/sv_parse.rs:65-71 | definition of the module name after a prefix of the walk; `ModuleNamed` states it |
| SvParse.LastAnsiDirection | src/sv_parse.rs:121-126 | definition of the direction in force; `DirectionInherited` and `NoDirectionYet` state it |
| SvParse.MacroDefines | src/sv_parse.rs:61 | definition of the collected defines; `DefinesCounted` and `DefinesPlaced` state them |
| SvParse.MacroMap | src/sv_parse.rs:62 | definition of the macro map; `MacrosLatest` states it |
| SvParse.PortsOf | src/sv_parse.rs:72-160 | definition of the collected ports; `PortsCounted`, `GroupedPorts` and `AnsiPortPlaced` state them |
| SvParse.WidthOf | src/sv_parse.rs:90-95 | a declaration without a packed range has width `1` and no range text |
| SvParse.GroupPorts | src/sv_parse.rs:97-113 | one port per identifier, in list order, each with the declaration's direction, type and width |
| SvParse.ScalarPortWidth | src/sv_parse.rs:90-95 | every port of a grouped or ANSI declaration without a packed range has width `1` and no range text |
| SvParse.DeclarationWidth | src/sv_parse.rs:90-95 | the width of a declaration is `1` without a range and the dimension range otherwise |
| SvParse.PushGroup | src/sv_parse.rs:97-113 | the identifier loop appends the declaration's ports to the port list, in order |
| SvParse.WalkNode | src/sv_parse.rs:44-163 | one node turns the module, direction and macro map of the nodes before it into those of the nodes up to it |
| SvParse.ParseModule | src/sv_parse.rs:33-167 | the module is named after the last module declaration and holds the ports of every declaration and the definition of every macro, in walk order |
| SvParse.PortsPrefix | src/sv_parse.rs:104-110 | later nodes never change ports already extracted: earlier port lists are prefixes of later ones |
| SvParse.PortsCounted | src/sv_parse.rs:65-160 | the port count is the number of identifiers of grouped declarations plus one per ANSI port; module declarations and macros remove none |
| SvParse.AddedCount | src/sv_parse.rs:97-158 | a node adds as many ports as it declares |
| SvParse.DefinesCounted | src/sv_parse.rs:45-64 | every macro definition adds exactly one define and nothing else adds any, so a redefinition is kept beside the earlier one |
| SvParse.DefinesPrefix | src/sv_parse.rs:61 | later nodes never change defines already collected |
| SvParse.DefinesPlaced | src/sv_parse.rs:45-64 | each macro definition appears in the returned module at the position given by the definitions before it, with its name and value, or `unknown` for a missing one |
| SvParse.MacrosLatest | src/sv_parse.rs:62 | the macro map holds exactly the macros defined so far, each with the value of its latest definition |
| SvParse.PortsPlaced | src/sv_parse.rs:104-110 | the ports a node adds stay in place in the returned module |
| SvParse.PrefixElements | src/sv_parse.rs:104-110 | ports of a prefix are found at their positions in the whole list |
| SvParse.GroupedPorts | src/sv_parse.rs:72-115 | a grouped declaration's ports appear in the returned module in identifier order, sharing direction, type and the width evaluated against the macros defined before it |
| SvParse.PlacedGroup | src/sv_parse.rs:104-110 | for any way of adding ports, a node that adds a group has the group's ports, one per name in order, right after the ports of the nodes before it |
| SvParse.AddedGroup | src/sv_parse.rs:97-113 | a grouped declaration adds its group of ports |
| SvParse.AnsiPortPlaced | src/sv_parse.rs:116-160 | an ANSI port appears in the returned module with its own direction or else the last one spelt, type `wire` for a variable port, and the width evaluated against the macros defined before it |
| SvParse.DirectionInherited | src/sv_parse.rs:121-126 | the direction spelt by an ANSI port stays in force until the next ANSI port that spells one; other nodes leave it |
| SvParse.NoDirectionYet | src/sv_parse.rs:40 | before any ANSI port spells a direction, the direction in force is empty |
| SvParse.ModuleNamed | src/sv_parse.rs:65-71 | the module takes the name of the last module declaration |
| SvParse.MacrosBefore | src/sv_parse.rs:92 | the macros a width sees depend only on the nodes before the declaration |
| Converter.Builder | src/converter.rs:13-15 | the default converter keeps the bundle inline |
| Converter.SplitBundle | src/converter.rs:17-20 | `split_bundle` turns the split layout on |
| Converter.PortToChisel | src/converter.rs:58-60 | definition of one field declaration; `FieldRoundTrip` reads the port back from it |
| Converter.FirstIndex | src/converter.rs:59 | the first index of a character, if it occurs |
| Converter.FirstIndexAt | src/converter.rs:59 | an occurrence with none before it is the first |
| Converter.ParseTypedOf | src/converter.rs:59 | the typed part of a field reads back as its direction and width |
| Converter.ParseNamedOf | src/converter.rs:59 | the name of a field reads back when it holds no space |
| Converter.FieldRoundTrip | src/converter.rs:58-60 | a field declaration reads back as its port's name, direction and width, copied verbatim |
| Converter.IndentBlock | src/converter.rs:44-56 | definition of `indent_block`; `IndentBlockPieces` states its result |
| Converter.IndentLines | src/converter.rs:47-53 | each non-empty line is prefixed by exactly `n` spaces and empty lines stay empty, one line for one |
| Converter.SplitPiecesFree | src/converter.rs:46 | no piece of a split holds the separator |
| Converter.LinesFree | src/converter.rs:46 | no line holds a line feed |
| Converter.IndentBlockPieces | src/converter.rs:44-56 | the indented block consists of the text's lines, indented, joined without a trailing line feed; one empty piece when there are no lines |
| Converter.PortLines | src/converter.rs:63 | one field declaration per port, in port order |
| Converter.PortLineFree | src/converter.rs:58-60 | a field declaration of a port without line feeds is one non-empty line |
| Converter.FieldBlock | src/converter.rs:63-64 | definition of the field block; `FieldBlockLines` states its lines |
| Converter.FieldBlockLines | src/converter.rs:63-64 | the field block is one line per port, in port order, indented by eight spaces, or one empty line without ports |
| Converter.NoPortsBlock | src/converter.rs:63-64 | a module without ports has a single empty field line |
| Converter.PortLinesClean | src/converter.rs:63 | field declarations hold no line feed and end in no carriage return |
| Converter.IndentPortLines | src/converter.rs:63-64 | indenting the field declarations gives the field lines |
| Converter.JoinAppend | src/converter.rs:55 | joining two lists puts one separator between their joins |
| Converter.SplitJoinAround | src/converter.rs:67-87 | a template's lines around an inserted block split into the template lines and the block's own lines |
| Converter.JoinMiddle | src/converter.rs:67-87 | an inserted block may be replaced by its lines |
| Converter.JoinAround | src/converter.rs:67-87 | joining head, middle and tail puts one separator between each |
| Converter.FeedFreeConcat | src/converter.rs:67-87 | lists of single lines concatenate into a list of single lines |
| Converter.ClassLineFree | src/converter.rs:70-82 | a class line of a single-line name is one line |
| Converter.InlineFrameFree | src/converter.rs:79-87 | the inline template's lines are single lines |
| Converter.SplitFrameFree | src/converter.rs:67-77 | the split template's lines are single lines |
| Converter.InlineHead | src/converter.rs:79-84 | definition of the inline template's lines before the field block; `InlineLines` states the whole output |
| Converter.InlineTail | src/converter.rs:84-87 | definition of the inline template's lines after the field block; `InlineLines` states the whole output |
| Converter.SplitHead | src/converter.rs:67-71 | definition of the split template's lines before the field block; `SplitLines` states the whole output |
| Converter.SplitTail | src/converter.rs:71-77 | definition of the split template's lines after the field block; `SplitLines` states the whole output |
| Converter.InlineLayout | src/converter.rs:78-87 | definition of the inline template; `InlineLines` states its lines |
| Converter.SplitLayout | src/converter.rs:65-77 | definition of the split template; `SplitLines` states its lines |
| Converter.ModuleToChisel | src/converter.rs:62-89 | definition of `module_to_chisel`; `InlineLines`, `SplitLines` and `LayoutsShareFields` state its output |
| Converter.InlineLines | src/converter.rs:78-87 | the inline source is the import, a blank line, the black box opening an anonymous bundle, one line per port and the closing lines |
| Converter.SplitLines | src/converter.rs:65-77 | the split source is the import, a blank line, the `<name>_Bundle` class with one line per port, a blank line, and the black box instantiating `<name>_Bundle` |
| Converter.LayoutsShareFields | src/converter.rs:63-88 | both layouts carry the same field lines |
| Converter.EmitModules | src/converter.rs:23-25 | one source per module, in module order, each rendered with the converter's layout |
| Converter.EmitChiselString | src/converter.rs:22-26 | `emit_chisel_string` renders the table's module list |
| Converter.EmitConcat | src/converter.rs:22-26 | emitting a merged module list emits each part in turn |

## Left out

- The SystemVerilog parser, `parse_file` and the tree queries (`unwrap_node!`, `get_identifier`, `Iter`, `get_str`): the walk and the expression builder take their results as events and tokens.
- Which syntax yields which event: a node is classified once, by the tree queries the code performs, and that classification is not modelled.
- The rhai engine: `SvEval.Engine.eval` is an uninterpreted function from bindings and text to a value or an error.
- The iteration order of the macro `HashMap`: `SvEval.Engine.order` is a parameter. Lemmas that need Rust's promise assume `SvEval.ListsKeys`, which says the order lists every key of the map exactly once. The other lemmas hold for any order: keys it lists that the map lacks are skipped.
- SvEval.Clog2: stated for `n <= 2^31` only, as the integer ceiling of the base-2 logarithm; the `f64` computation for larger `n` is not modelled.
- SvEval.Pow: does not model i64 overflow, which panics in the source; the power is an unbounded integer.
- SvWidth.BoundsWidth: does not model i64 overflow of `msb - lsb`, its absolute value or the `+ 1`.
- In `parse_sv_number` the regex class `\d` is taken as the ASCII digits, while the regex crate matches any Unicode decimal digit there.
- `emit_chisel` and `write_to_file`: directory creation, file writes and their `eprintln!` diagnostics.
- The `eprintln!` of a failed evaluation in `eval_int_expr`, and the file-based test of `src/sv_parse.rs`.
- `src/main.rs`: command-line handling and file listing are not part of this model.
- The accessors `get_name`, `get_ports`, `get_direction` and `get_width` that `src/converter.rs` calls are not defined in the source; they are modelled as plain field reads.
- `parse_module` returns its module in `Ok` and never fails; the model returns the module directly.
- The `formatdoc!` templates are modelled as the literal lines they produce after unindenting, joined by line feeds; the unindent algorithm itself is not modelled.
- `Debug` printing and the `Clone` derives.
