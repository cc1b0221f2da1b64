# message-format in Dafny

A model of the core of `message-format`, a Rust crate that compiles
ICU-style MessageFormat patterns (`"{count, plural, one {# item} other {# items}}"`)
into a tree of blocks and renders that tree against named parameters.

The model follows the crate's own structure:

- `Compiler` (src/lib.rs): the `MessageFormat` object. `init` first protects
  literals. Every `''` becomes a token `_` U+FDDF `idx` `_`, and so does every
  quoted span `'{…'`, `'}…'` or `'#…'`. The original text of each goes into the
  `initial_literals` table. `init` then parses the protected pattern:
  - the brace scanner (`Tokenizer`) splits the pattern into text parts and block parts;
  - the header classifier (`Syntax`) decides each block's kind;
  - the choice parsers read `key {sub-pattern}` pairs into an option table that must hold `other`.
- `Format` (src/format.rs): the `Formatter` object. It walks the tree and pushes
  text onto a result list and parameter values onto a copy of the literal table.
  It then joins the result, checks for a stray `#`, and puts the table's entries
  back in place of their tokens, last entry first.
- `Param` (src/param.rs): `ParamValue`, the tagged union of integers and text
  used for runtime parameters and option keys.
- `StrExt` (src/util.rs): `replace_with`, a replace-all that calls back per match,
  and `replacen(…, 1)`, which replaces the first occurrence.
- `Literals`: protecting and restoring taken together. `Unescape` reads a
  pattern's escapes directly, without tokens or a table: each `''` is one `'`,
  and a span `'{…'`, `'}…'` or `'#…'` stands for its content. `ProtectRestore`
  proves that restoring the protected pattern against its table gives exactly
  `Unescape` of the pattern.

The mutable objects are classes: the compiler's methods update its
`initial_literals` field, and the renderer's methods thread the two
`&mut Vec<String>` as values. Each method is proved equal to a specification
function (`Protect`, `Tokenize`, `CompileBlock`, `RenderFrom`, `Restore`, …).
The properties the crate promises are proved about those functions as lemmas.
A Rust panic is the `Panic(message)` case of `Wrappers.Outcome`, with the
source's message.

## Model

| member | source | states |
|---|---|---|
| Compiler.MessageFormat.constructor | src/lib.rs:28-34 | a new compiler holds the pattern and an empty literal table, and has no parsed tree |
| Compiler.MessageFormat.BuildPlaceholder | src/lib.rs:77-83 | appends exactly the given text to the table and returns `_` U+FDDF idx `_`, idx being the table's length before the push; nothing else changes |
| Compiler.PlaceholderParts | src/lib.rs:78-82 | a token is `_`, U+FDDF, the decimal index, `_` |
| Compiler.PlaceholderInjective | src/lib.rs:78-82 | distinct indices give distinct tokens |
| Compiler.PlaceholderInert | src/lib.rs:78-82 | a token contains no `'`, `#`, `{` or `}`, so later passes and the `#` check never see into it |
| Compiler.MessageFormat.InsertPlaceholders | src/lib.rs:65-75 | the pattern and the table become `Protect` of the pattern and the old table: first the `''` pass, then the quoted-span pass |
| Compiler.MessageFormat.ReplaceDoubleApostrophes | src/lib.rs:66-70 | the `''` pass as a loop over the matches, equal to `QuotePass` |
| Compiler.QuotePassReplaces | src/lib.rs:66-70 | the `''` pass is `replace_with` with a token per match, and it appends one `'` entry per match |
| Compiler.QuotePassEntries | src/lib.rs:66-70 | the pass keeps the old entries and adds exactly one entry `'` per `''`, numbered after them |
| Compiler.MessageFormat.ReplaceQuotedSpans | src/lib.rs:67-72 | the quoted-span pass as a loop, equal to `SpanPass` |
| Compiler.ClosingQuote | src/lib.rs:67 | the lazy `.*?'`: a position found holds a `'` at or after the start |
| Compiler.ClosingQuoteSome | src/lib.rs:67 | the `'` found is the nearest one: no `'` and no line break comes before it |
| Compiler.ClosingQuoteNone | src/lib.rs:67 | nothing is found only when every `'` after the start has a line break before it |
| Compiler.LiteralAt | src/lib.rs:67 | a span starts at `'` followed by `{`, `}` or `#` and ends at a `'`; nothing else starts a span |
| Compiler.LiteralAtSome | src/lib.rs:67 | a span ends at the nearest `'` after its first two characters, with no line break inside |
| Compiler.LiteralAtNone | src/lib.rs:67 | an opening `'{`, `'}` or `'#` starts no span only when every later `'` has a line break before it |
| Compiler.SpanPassEntries | src/lib.rs:67-72 | the entries are appended in order after the old ones; each starts with `{`, `}` or `#` and holds no `'` or line break |
| Compiler.SpanPassNoQuote | src/lib.rs:71-72 | text without `'` passes through unchanged and adds no entry |
| Tokenizer.ExtractParts | src/lib.rs:109-153 | the brace scanner's loop (with the part start moved past each brace) equals `Tokenize` |
| Tokenizer.ExtractPartsAsWritten | src/lib.rs:109-153 | the loop as written (the part start reset by `next_char_index`) equals `TokenizeAsWritten` |
| Tokenizer.NextCharIndex | src/lib.rs:320-325 | the result is always 0: the first character's index for non-empty text, and the length of the empty text |
| Tokenizer.ScanOutcome | src/lib.rs:118-145 | from any consistent state, the scan succeeds iff the pattern is balanced; it panics with "No matching } for {" iff some prefix closes more than it opens, and with the mismatch message iff it ends inside a block |
| Tokenizer.TokenizeOutcome | src/lib.rs:118-145 | the same three cases for the whole pattern, and one block part per `}` that brings the depth back to 0 |
| Tokenizer.TokenizeParts | src/lib.rs:124-150 | the parts reassemble the pattern; text parts are non-empty and brace-free, never adjacent; block parts are balanced and shorter than the pattern |
| Tokenizer.TokenizeAsWrittenPrefixes | src/lib.rs:109-153 | as written, every emitted part is a prefix of the pattern, since the part start never leaves 0 |
| Tokenizer.TokenizeAsWrittenSameOutcome | src/lib.rs:109-153 | as written and as intended, the scanner succeeds and panics on the same patterns with the same message |
| Tokenizer.TokenizeNoBraces | src/lib.rs:147-150 | a non-empty brace-free pattern gives exactly one text part, itself, in both versions |
| Tokenizer.AsWrittenCounterexample | src/lib.rs:128-136 | as written, `"a{b}c"` splits into `"a"`, block `"a{b"` and `"a{b}c"`, which do not reassemble the input |
| Tokenizer.IntendedExample | src/lib.rs:109-153 | with the intended advance, `"a{b}c"` splits into `"a"`, block `"b"` and `"c"` |
| Tokenizer.BraceFirstAsWritten | src/lib.rs:128-136 | as written, `"{name}"` splits into block `"{name"` and text `"{name}"` |
| Tokenizer.BraceFirstIntended | src/lib.rs:109-153 | with the intended advance, `"{name}"` is the single block `"name"` |
| Compiler.AsWrittenSimplePanics | src/lib.rs:85-100 | as written, compiling `"{name}"` panics with "unknown block type for pattern {name" |
| Compiler.SimplePatternCompiles | src/lib.rs:85-107 | with the intended scanner, `"{name}"` compiles to one simple block `name` |
| Syntax.SkipWhitespace | src/lib.rs:9 | `\s*`: the longest run of whitespace from a position |
| Syntax.SkipWord | src/lib.rs:9 | `\w+` / `\w*`: the longest run of word characters from a position |
| Syntax.SkipDigits | src/lib.rs:9 | `\d+`: the longest run of ASCII digits from a position |
| Syntax.MatchChoiceHeader | src/lib.rs:10-13 | a header match yields a non-empty name of word characters and an end within the text |
| Syntax.MatchPluralHeader | src/lib.rs:8-9 | the plural header matches iff `name, plural,` does; the optional `offset:` digits are non-empty ASCII digits |
| Syntax.ParseBlockType | src/lib.rs:155-169 | the kind is plural, selectordinal or select iff that header matches, and Unknown iff the text does not start with `^\s*\w` |
| Syntax.StartsWithWordMeans | src/lib.rs:156 | `^\s*\w` matches iff some word character has only whitespace before it |
| Syntax.PluralExcludes | src/lib.rs:158-163 | a plural header is never also a selectordinal or select header |
| Syntax.OrdinalExcludesSelect | src/lib.rs:160-163 | a selectordinal header is never also a select header |
| Syntax.RemoveWhitespace | src/lib.rs:202 | select keys lose every whitespace character, and nothing else |
| Syntax.RemoveWhitespaceKeeps | src/lib.rs:202 | a key without whitespace is kept as it is |
| Syntax.RemoveWhitespaceChar | src/lib.rs:202 | one character is dropped iff it is whitespace |
| Syntax.RemoveWhitespaceAppend | src/lib.rs:202 | removal works character by character: it distributes over concatenation, so with the one-character case it fixes the result |
| Syntax.KvReplace | src/lib.rs:254 | the key rewrite never lengthens the key, and removing every whitespace character and every `=` from the result gives the same text as removing them from the key; the exact result is fixed only for the shape `KvReplaceStrips` covers |
| Syntax.KvReplaceStrips | src/lib.rs:254 | a key of whitespace, an optional `=`, word characters and whitespace becomes exactly its word |
| Compiler.MessageFormat.ParseBlock | src/lib.rs:85-107 | the part loop equals `CompileBlock`: text parts become text blocks and block parts are classified in order |
| Compiler.ClassifyUnknown | src/lib.rs:98-100 | a block part that does not start with a word panics with "unknown block type for pattern" and the part |
| Compiler.MessageFormat.ParseSelectBlock | src/lib.rs:171-214 | equals `ParseChoice` for select |
| Compiler.MessageFormat.ParsePluralBlock | src/lib.rs:216-266 | equals `ParseChoice` for plural |
| Compiler.MessageFormat.ParseOrdinalBlock | src/lib.rs:268-317 | equals `ParseChoice` for selectordinal |
| Compiler.MessageFormat.ReadOptions | src/lib.rs:189-206 | the `(key block)+` loop equals `ParseOptions` |
| Compiler.MessageFormat.ParseChoiceBody | src/lib.rs:185-211 | scanning the rest of the block, reading its pairs and requiring `other` equals `ChoiceBody` |
| Compiler.ParseOptionsNext | src/lib.rs:189-206 | a key with no value panics with the block's "missing or invalid" message; a text value panics with "expected block type"; a block value's panic propagates; otherwise the compiled value is inserted under the cleaned key and the loop goes on two parts later |
| Compiler.MatchHeaderCases | src/lib.rs:172-283 | select and ordinal headers carry the name and offset 0; a missing header panics ("logic error" for select, `unwrap` on None for the others); a plural offset is the header's digits, and one beyond the 32-bit range panics |
| Compiler.MatchHeader | src/lib.rs:172-283 | a header found ends inside the block, after its first character, and its offset fits in 32 bits |
| Compiler.Reserved | src/lib.rs:179-235 | the reserved entries: `argumentName` holds the name; for plural and selectordinal, `argumentOffset` holds the offset's decimal text, which reads back as the offset; there is no `other` |
| Compiler.RequireOther | src/lib.rs:208-211 | a table is accepted iff it has an `other` key; otherwise the panic names the block kind |
| Compiler.IndexOf | src/lib.rs:329-331 | the position of a key in an option table, or its absence |
| Compiler.Insert | src/lib.rs:203 | `HashMap::insert`: the key now maps to the body, every other entry stays, unique keys stay unique |
| Compiler.InsertLookup | src/lib.rs:180-203 | after an insert, the key looks up the new body and every other key its old one, so a user key `argumentName` overwrites the reserved entry |
| Compiler.KeyOfReadsNumbers | src/lib.rs:203 | a key that is an integer's text becomes that integer, and any other key stays text |
| Compiler.ParseChoiceComplete | src/lib.rs:171-317 | an accepted choice block has a header, `other`, unique keys, its reserved entries first and complete sub-trees |
| Compiler.ParseOptionsComplete | src/lib.rs:189-206 | reading pairs into a complete table keeps it complete |
| Compiler.CompileBlockComplete | src/lib.rs:85-107 | every choice node of a compiled tree, at every depth, has an `other` option |
| Compiler.MessageFormat.Init | src/lib.rs:56-63 | a pending pattern is taken, protected with a fresh table and compiled; a compile panic is reported with its message; with no pending pattern nothing changes |
| Format.Formatter.constructor | src/format.rs:20-34 | a formatter holds its locale, literal table, tree and `ignore_pound` flag |
| Format.Formatter.Format | src/format.rs:43-72 | equals `Render` of the parameters (none meaning empty) against the formatter's own table, which it never changes; an empty tree gives `""` |
| Format.Formatter.RestoreLiterals | src/format.rs:66-69 | the `pop` loop equals `Restore`: the last entry first, each replacing only the first occurrence of its token |
| Format.RestoreWithoutTokens | src/format.rs:66-69 | a message with no token marker comes back unchanged |
| Format.RestoreSingle | src/format.rs:66-69 | a lone token of a one-entry table is replaced by its entry |
| Format.RenderOutcome | src/format.rs:43-69 | a panic while walking the tree is the result; otherwise the result panics with "not all # were replaced" iff the pound check is on and the joined message holds a `#`, and else is the message with its literals restored |
| Format.RenderText | src/format.rs:60-64 | a lone text block with a `#` panics unless `#` is ignored; otherwise it comes back with its literals restored |
| Format.Formatter.FormatBlock | src/format.rs:74-112 | the block loop equals `RenderFrom`, stopping at the first panic |
| Format.RenderFromAppend | src/format.rs:81-111 | blocks are rendered in order: rendering `a + b` renders `a` and then `b` from where `a` left off |
| Format.RenderFromAppends | src/format.rs:81-111 | rendering only appends to the result list and never reads what is already there |
| Format.RenderFromKeepsLiterals | src/format.rs:74-129 | rendering only appends to the literal table |
| Format.Formatter.FormatSimplePlaceholder | src/format.rs:114-129 | a missing parameter pushes "Undefined parameter - NAME" and leaves the table alone; a present one pushes its formatted value onto the table and exactly one token for the old table length onto the result |
| Format.SimpleRoundTrip | src/format.rs:114-129 | a lone placeholder renders as the parameter's formatted value, whatever `#`, braces or quotes it holds |
| Format.Formatter.FormatSelectBlock | src/format.rs:131-158 | equals `SelectStep` |
| Format.SelectChooses | src/format.rs:145-157 | a missing parameter pushes the Undefined diagnostic; otherwise the branch keyed by the raw value is rendered, else `other`, else the select panic |
| Format.Formatter.FormatPluralOrdinalBlock | src/format.rs:160-230 | equals `PluralStep` with the selector it is given |
| Format.PluralDiagnostics | src/format.rs:181-194 | a missing parameter, a non-numeric one and a non-numeric offset each push their diagnostic and stop |
| Format.PluralChooses | src/format.rs:198-212 | the branch is the raw value's entry, else the category's, else `other` |
| Format.ExactMatchIgnoresRules | src/format.rs:198-199 | an exact match on the raw value wins: the plural rules are not consulted |
| Format.PoundReplaced | src/format.rs:216-229 | with `ignore_pound` the branch is pushed unchanged; otherwise no `#` is left (when the formatted difference has none) |
| Format.CompleteNeverMissing | src/format.rs:150-211 | a tree the compiler accepts never panics for a missing option |
| Param.ParseSignedDigits | src/param.rs:27 | the integer syntax of `str::parse`: succeeds iff the text is an optional `+` or `-` and at least one ASCII digit, and gives the digits' value with the sign applied |
| Param.ParseI64 | src/param.rs:27 | `parse::<i64>` succeeds iff the text is an integer within the 64-bit range, and gives its value |
| Param.ParseNumber | src/param.rs:26-34 | an `Int` exactly when the text parses as i64 |
| Param.FormatWithLocale | src/param.rs:36-55 | text is returned unchanged; an integer goes through the locale's decimal formatter |
| Param.AsDecimal | src/param.rs:57-63 | always a number for `Int`; for text, a number only when the text parses |
| Param.Display | src/param.rs:102-110 | text verbatim; an integer in decimal, which reads back as the integer |
| Param.ParseSignedDigitsOfIntToString | src/param.rs:105 | the decimal text of any integer parses back to it |
| Param.ParseNumberOfDisplay | src/param.rs:26-34 | `parse_number` reads back what `Display` writes for every i64 |
| Param.VariantsDiffer | src/param.rs:7-23 | values of different variants are never equal, even when they display alike (`Int(1)` and `"1"`) |
| Param.FromInteger | src/param.rs:72-88 | each listed integer type converts to an `Int` with the same value |
| Param.FromString | src/param.rs:90-100 | text converts to the text variant, displayed and formatted as itself |
| Digits.DigitsValueOfNatToString | src/param.rs:105 | the decimal text of a natural number reads back as it |
| StrExt.MatchIndicesOccur | src/util.rs:19 | every reported match is an occurrence of the pattern, left to right and without overlap |
| StrExt.MatchIndicesComplete | src/util.rs:19 | every occurrence that starts after the previous match ends is reported |
| StrExt.FindFromFirst | src/util.rs:19 | the match found is the first occurrence from the position |
| StrExt.ReplaceWith | src/util.rs:11-33 | the loop equals `ReplacedWith`: each match replaced by the callback's output for (idx, pos, matched text), idx counting up from 0; text between and after matches copied; no match gives the input back |
| StrExt.ReplacedWithIdentity | src/util.rs:20-29 | a callback that returns the matched text gives the input back |
| StrExt.ReplaceAllRemoves | src/format.rs:228 | replacing every `c` by text without `c` leaves no `c` |
| StrExt.ReplaceFirst | src/format.rs:68 | `replacen(pat, rep, 1)`: with no occurrence the text is unchanged; otherwise the first occurrence found is replaced |
| StrExt.ReplaceFirstLeftmost | src/format.rs:68 | the occurrence replaced is the leftmost one in the text |
| Literals.QuoteLex | src/lib.rs:66-70 | the `''` pass writes the pattern's pairs, read leftmost first without overlap, as tokens numbered from the table's length |
| Literals.LexTokens | src/lib.rs:66-70 | one token per `''` match, numbered consecutively |
| Literals.LexClean | src/lib.rs:78-82 | a pattern without U+FDDF gives pieces whose every marker belongs to a token |
| Literals.ClosingMatches | src/lib.rs:67 | on a text written out from pieces, the closing-quote search finds the quote the piece-level search finds; a `''` token is never taken for a quote |
| Literals.SpanMatches | src/lib.rs:67 | on such a text, a span starts exactly where one starts among the pieces, and ends at the same quote |
| Literals.SpanStepPass | src/lib.rs:71-72 | a span becomes one token for the next table index, and its entry is exactly the text between its quotes |
| Literals.SpanPassPops | src/lib.rs:71-72 | after the span pass, popping the span entries puts back each span's content in place of its token |
| Literals.ReplaceToken | src/format.rs:66-69 | replacing the first occurrence of a token hits that token itself when only smaller tokens come before it |
| Literals.PopToken | src/format.rs:66-69 | popping entry `a` replaces its token by the entry |
| Literals.UnquoteTokens | src/lib.rs:71-72 | dropping the span quotes keeps every `''` token, in order |
| Literals.QuotePassLexes | src/lib.rs:66-70 | the `''` pass from an empty table writes the pattern's pieces, and its table holds `'` for each of their tokens |
| Literals.QuotesPop | src/format.rs:66-69 | popping the `''` entries writes each token of the pieces as `'` |
| Literals.SpanPassRestores | src/format.rs:66-69 | restoring after the span pass equals restoring the unquoted pieces |
| Literals.QuotesRestore | src/format.rs:66-69 | restoring the unquoted pieces against the `''` table gives their text with each token as `'` |
| Literals.ProtectRestore | src/lib.rs:65-75 | for a pattern without U+FDDF, restoring the protected pattern against its table gives `Unescape` of the pattern: each `''` becomes `'`, each span its content |

## Left out

- The decimal (`f64`) variant of `ParamValue`, float parsing and float arithmetic: numbers are integers.
- Param.ParseNumber: has no decimal fallback, so text that only parses as a float gives None.
- Param.AsDecimal: reads text as an integer; text that parses only as a float (`"1.5"`, `"inf"`, `"1e3"`) gives None here.
- Format.Formatter.FormatPluralOrdinalBlock: reads the offset as an integer, not with `parse::<f64>`. Because the difference is an integer, the "Invalid parameter - {diff}" branch for a difference that does not print as a fixed decimal (src/format.rs:201-204) cannot happen and is not modelled.
- Format.PoundReplaced: the formatted difference is the locale formatter's output, so the `#`-free result holds only when that output has no `#`.
- The ICU plural rules and the locale's `FixedDecimalFormatter`, including the lazily filled `fdf` field, are foreign. They are function parameters (`PluralSelector`, `DecimalFormat`) of the `Setting`.
- The regex engine: each regex is a hand-written scanner. `\w` and `\d` are ASCII only, and `\s` is the Unicode White_Space list.
- `MessageFormat::format`, `format_ignoring_pound` and `format_impl` end in `todo!()` and are not modelled. `init` is modelled; the renderer takes its tree and table.
- The shown `lib.rs` and `format.rs` come from different revisions. Option tables are keyed by text in one and by `ParamValue` in the other. The compiler turns a key into a value with `KeyOf`: an integer's text becomes `Int`, anything else stays text. `format.rs` calls a `placeholder` function that `lib.rs` does not define; the model uses the token built by `build_placeholder`.
- A `HashMap` is an association list with unique keys. Its hashing and iteration order are never observed.
- `Cow` (borrowed or owned) is memory representation only; `replace_with` returns the text.
- An empty search pattern in `replace_with` is excluded by a precondition.
- Match positions passed to the replacer, and every other position, are character indices. Rust's `match_indices` reports byte offsets, which differ on non-ASCII text; the model never uses a position for anything but slicing its own text.
- Literals.ProtectRestore: assumes the pattern holds no U+FDDF. A pattern that already contains a token's text makes the restore loop replace the wrong occurrence, and this is not modelled.
- Compiler.MessageFormat.ParseBlock: compiles over the corrected scanner (`Tokenize`). As written, `extract_parts` cuts every part from the start of the pattern, so `"{name}"` gives block `"{name"` and panics with "unknown block type for pattern {name" (`AsWrittenSimplePanics`); the model gives `Simple("name")`.
- Compiler.MessageFormat.ParseChoiceBody: scans the rest of a choice block with the corrected scanner; as written every part `extract_parts` returns is a prefix of the block body (`TokenizeAsWrittenPrefixes`), so the keys and values it reads are those prefixes rather than the pairs.
- Compiler.MessageFormat.ParseSelectBlock: reads its options over the corrected scanner; as written it gets the prefix parts described for `ParseChoiceBody`.
- Compiler.MessageFormat.ParsePluralBlock: reads its options over the corrected scanner; as written it gets the prefix parts described for `ParseChoiceBody`.
- Compiler.MessageFormat.ParseOrdinalBlock: reads its options over the corrected scanner; as written it gets the prefix parts described for `ParseChoiceBody`.
- Compiler.MessageFormat.Init: compiles over the corrected scanner; as written, a pattern with a block, such as `"{name}"`, panics as for `ParseBlock`.
- Compiler.CompileBlockComplete: is stated about the compiler over the corrected scanner; as written, the trees it describes are not what the source produces.
- Compiler.ParseChoiceComplete: is stated about the compiler over the corrected scanner, as for `CompileBlockComplete`.

## Findings

| source | as written | input that shows it | evidently intended | confidence | as-written member | corrected member |
|---|---|---|---|---|---|---|
| src/lib.rs:128-136 | `prev_pos = next_char_index(&pattern[pos..])` is 0 for any non-empty rest, so every part is cut from the start of the pattern | `"a{b}c"` gives `"a"`, block `"a{b"`, `"a{b}c"` | the next part starts just past the brace, giving `"a"`, block `"b"`, `"c"`, whose rendering reassembles the input | not executed | Tokenizer.AsWrittenCounterexample | Tokenizer.TokenizeParts |
