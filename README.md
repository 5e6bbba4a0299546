# Route-pattern lexer

A Dafny model of `RoutePatternLexer`, the lexer behind the ASP.NET Core analyzers'
route-template language (`/products/{id:int?}`, `{ssn:regex(^\d{{3}}$)}`, ...). The
lexer holds the template text and a cursor. The parser calls purpose-built scans, and
each scan starts at the cursor, consumes characters under its own stopping rule and
may return a token. A token has a kind, a span `[start, end)`, the raw text of that
span and at most one diagnostic. The scans share four pieces of logic:

- `{{` and `}}` escape a brace. `IsUnescapedChar` looks one character ahead, and a
  scan consumes an escaped pair as a unit.
- a lookahead for a trailing optional `?`, a `?` followed by `}` but not by `}}`;
- a lookahead for a `)` that closes a policy's argument list before the parameter's
  own `}`;
- one backtrack: the escaped-policy scan puts the cursor back when the parameter ends
  before its argument list does.

Files:

- `route_text.dfy` (module `RouteText`) holds the character-level vocabulary. It
  states "unescaped" two ways. The lexer's local test is `UnescapedAt`. The
  declarative reading is `UnescapedFrom`: read from a scan's start, a brace is
  unescaped when it closes a run of that brace of odd length. Alignment lemmas tie the
  two together.
- `route_pattern_tokens.dfy` (module `RoutePatternTokens`) holds token kinds,
  diagnostics, `Token`, the `GetKind` classifier and the `}}`/`{{` collapsing used in
  the invalid-name message.
- `route_pattern_scans.dfy` (module `RoutePatternScans`) says what each scan computes,
  as functions of the text and the start position.
  - `Walk` and `Seen` step one shared brace-pairing walk, with the loop's own local
    tests.
  - The `Scanned*` functions assemble each scan's token.
  - The `*Meaning` lemmas characterise each token in declarative terms: where it ends,
    what it never contains, what stops it, and which diagnostic it carries.
- `route_pattern_lexer.dfy` (module `Lexer`) holds the class `RoutePatternLexer`, with
  `text` and a mutable `position`. Every scan is a method whose `while` loop mirrors
  the loop of the C# method. Its contract gives the new cursor and states that the token equals the
  corresponding `Scanned*` function at the old cursor. The tests at the top of the
  parameter-name and policy-fragment loops are separate methods,
  `ParameterNameCharacter` and `PolicyFragmentCharacter`. The loops themselves keep the
  flags and the `position++`.
- `route_pattern_examples.dfy` (module `RoutePatternExamples`) states, as lemmas, the
  tokens the scans return on templates from the parser tests. The stated tokens are
  derived from `RoutePatternLexer.cs`.

Three behaviours of the code that are easy to misread:

- Token values are the raw characters of the span. Escaped pairs stay doubled. Only
  the name quoted in an `InvalidParameterName` message has `{{` and then `}}`
  collapsed (`RoutePatternLexer.cs:220`).
- `TryScanDefaultValue` stops at every `}`, escaped or not.
- `TryScanEscapedPolicyFragment` has no zero-length check. When the cursor stands on
  `)` it returns an empty `PolicyFragmentToken`. When no `)` and no unescaped `}`
  follow, it returns a token running to the end of the text.

## Model

Source paths are relative to the repository root. The example rows cite the parser
tests that the templates come from.

| member | source | states |
|---|---|---|
| Lexer.RoutePatternLexer.constructor | src/Framework/AspNetCoreAnalyzers/src/Analyzers/RouteEmbeddedLanguage/RoutePattern/RoutePatternLexer.cs:19-23 | A new lexer holds the given text with the cursor at 0. |
| Lexer.RoutePatternLexer.ScanNextToken | src/Framework/AspNetCoreAnalyzers/src/Analyzers/RouteEmbeddedLanguage/RoutePattern/RoutePatternLexer.cs:33-44 | At the end of the text: an empty `EndOfFile` token, cursor unchanged. Otherwise the cursor moves exactly one character, and the token covers that character with the kind `GetKind` gives it. |
| RoutePatternTokens.GetKind | src/Framework/AspNetCoreAnalyzers/src/Analyzers/RouteEmbeddedLanguage/RoutePattern/RoutePatternLexer.cs:46-64 | Each of `/ ~ { } [ ] . = : * ( ) ? ,` gets the kind that stands for exactly that character. A character is `TextToken` iff it is none of them. |
| Lexer.RoutePatternLexer.TextAt | src/Framework/AspNetCoreAnalyzers/src/Analyzers/RouteEmbeddedLanguage/RoutePattern/RoutePatternLexer.cs:72-84 | True iff every character of `val` lies inside the text at its offset from `pos` and equals it. |
| Lexer.RoutePatternLexer.IsAt | src/Framework/AspNetCoreAnalyzers/src/Analyzers/RouteEmbeddedLanguage/RoutePattern/RoutePatternLexer.cs:69-70 | True iff `val` fits in the text at the cursor and equals that slice. |
| RouteText.MatchesIsSliceEquality | src/Framework/AspNetCoreAnalyzers/src/Analyzers/RouteEmbeddedLanguage/RoutePattern/RoutePatternLexer.cs:72-84 | For a position inside the text, the character-by-character comparison is slice equality, in both directions. |
| Lexer.RoutePatternLexer.IsUnescapedChar | src/Framework/AspNetCoreAnalyzers/src/Analyzers/RouteEmbeddedLanguage/RoutePattern/RoutePatternLexer.cs:293-307 | A different character: false, cursor kept. `c` with the next character absent or different: true, cursor kept. `cc`: false, cursor moved exactly one onto the second `c`. |
| RouteText.AlignedUnescaped | src/Framework/AspNetCoreAnalyzers/src/Analyzers/RouteEmbeddedLanguage/RoutePattern/RoutePatternLexer.cs:293-307 | At a cursor that is not the second half of a pair, the local one-character lookahead gives the same answer as the run-parity reading of "unescaped". |
| RouteText.StepKeepsAlignment | src/Framework/AspNetCoreAnalyzers/src/Analyzers/RouteEmbeddedLanguage/RoutePattern/RoutePatternLexer.cs:293-307 | Consuming a pair as a unit, and anything else one character at a time, never leaves the cursor on the second half of a pair. |
| RouteText.PairHalfNotUnescaped | src/Framework/AspNetCoreAnalyzers/src/Analyzers/RouteEmbeddedLanguage/RoutePattern/RoutePatternLexer.cs:293-307 | The second character of an escaped pair is never an unescaped brace, so a scan that skips it misses nothing. |
| Lexer.RoutePatternLexer.IsTrailingQuestionMark | src/Framework/AspNetCoreAnalyzers/src/Analyzers/RouteEmbeddedLanguage/RoutePattern/RoutePatternLexer.cs:237-240 | True iff the cursor's character is `?`, the next one is `}`, and the one after is absent or not `}`. |
| RouteText.TrailingQuestionMarkByMatches | src/Framework/AspNetCoreAnalyzers/src/Analyzers/RouteEmbeddedLanguage/RoutePattern/RoutePatternLexer.cs:237-240 | The two-lookahead test (`?}` present, `?}}` absent) is exactly "`?`, then `}`, then no further `}`". |
| Lexer.RoutePatternLexer.HasPolicyParenClose | src/Framework/AspNetCoreAnalyzers/src/Analyzers/RouteEmbeddedLanguage/RoutePattern/RoutePatternLexer.cs:395-419 | Leaves the cursor alone. True iff a `)` occurs at or after the cursor with no unescaped `}` before it. |
| RoutePatternScans.ParenCloseAheadMeaning | src/Framework/AspNetCoreAnalyzers/src/Analyzers/RouteEmbeddedLanguage/RoutePattern/RoutePatternLexer.cs:395-419 | The `}`-pairing lookahead loop agrees, both ways, with "some `)` comes before every unescaped `}`". |
| Lexer.RoutePatternLexer.TryScanLiteral | src/Framework/AspNetCoreAnalyzers/src/Analyzers/RouteEmbeddedLanguage/RoutePattern/RoutePatternLexer.cs:86-147 | The token is `ScannedLiteral` at the old cursor. The cursor ends at the token's end, or stays put when there is no token. |
| RoutePatternScans.ScannedLiteralMeaning | src/Framework/AspNetCoreAnalyzers/src/Analyzers/RouteEmbeddedLanguage/RoutePattern/RoutePatternLexer.cs:86-147 | No token iff at the end of the text or at `/` or an unescaped `{`. Otherwise the token is non-empty, holds the raw span, and contains no `/` and no unescaped `{`. It ends at the first of them or at the end of the text. The diagnostic is `MismatchedParameter` if the span has an unescaped `}`, else `InvalidLiteral(value)` if it has a `?`, else none. |
| Lexer.RoutePatternLexer.TryScanParameterName | src/Framework/AspNetCoreAnalyzers/src/Analyzers/RouteEmbeddedLanguage/RoutePattern/RoutePatternLexer.cs:164-235 | The token is `ScannedParameterName` at the old cursor. The cursor ends at the token's end, or stays put when there is no token. |
| RoutePatternScans.ScannedParameterNameMeaning | src/Framework/AspNetCoreAnalyzers/src/Analyzers/RouteEmbeddedLanguage/RoutePattern/RoutePatternLexer.cs:174-222 | No token iff at the end, at a trailing `?` or at an unescaped `}`. A `:` or `=` ends the name only after its first character. No trailing `?` and no unescaped `}` lies inside. The name ends exactly at the first stopper. The diagnostic is `UnescapedBrace` if there is an unescaped `{`, else `InvalidParameterName` with the collapsed name if any other `/ { } ? *` was consumed (escaped pairs included), else none. |
| Lexer.RoutePatternLexer.ParameterNameCharacter | src/Framework/AspNetCoreAnalyzers/src/Analyzers/RouteEmbeddedLanguage/RoutePattern/RoutePatternLexer.cs:176-202 | The parameter-name loop's tests at the cursor. It says stop exactly when the name must end before this character, and then leaves the cursor alone. Otherwise it moves the cursor onto the last character of the unit it consumes (the second of an escaped pair). It reports an unescaped `{`, or else a character a name may not hold, exactly as the declarative signs read them. |
| RouteText.IsInvalidNameChar | src/Framework/AspNetCoreAnalyzers/src/Analyzers/RouteEmbeddedLanguage/RoutePattern/RoutePatternLexer.cs:225-234 | The per-character test of the parameter-name scan refuses exactly the characters of the `InvalidParameterNameChars` array, `/ { } ? *` (:155-162). |
| RoutePatternTokens.Collapse | src/Framework/AspNetCoreAnalyzers/src/Analyzers/RouteEmbeddedLanguage/RoutePattern/RoutePatternLexer.cs:220 | One `Replace(cc, c)`. The result is never longer than the input, it drops only `c`s (every other character keeps its count), and it leaves a text without `c` unchanged. |
| RoutePatternTokens.CollapseUndoesEscape | src/Framework/AspNetCoreAnalyzers/src/Analyzers/RouteEmbeddedLanguage/RoutePattern/RoutePatternLexer.cs:220 | Collapsing doubled `c` undoes doubling every `c`, for any character `c` and so for either brace. |
| RoutePatternTokens.QuotedParameterName | src/Framework/AspNetCoreAnalyzers/src/Analyzers/RouteEmbeddedLanguage/RoutePattern/RoutePatternLexer.cs:220 | The name quoted in the `InvalidParameterName` message is `{{` collapsed, then `}}` collapsed. It is never longer than the raw name and keeps every non-brace character. |
| RoutePatternTokens.QuotedParameterNameUndoesEscape | src/Framework/AspNetCoreAnalyzers/src/Analyzers/RouteEmbeddedLanguage/RoutePattern/RoutePatternLexer.cs:220 | A name written with every brace escaped is quoted exactly as it was before escaping. |
| RoutePatternTokens.Token.AddDiagnosticIfNone | src/Framework/AspNetCoreAnalyzers/src/Analyzers/RouteEmbeddedLanguage/RoutePattern/RoutePatternLexer.cs:133-144 | Attaches the diagnostic only when the token has none yet, and changes nothing else about the token. The same call is made at :214, :219, :287 and :353. |
| RoutePatternTokens.FirstDiagnosticWins | src/Framework/AspNetCoreAnalyzers/src/Analyzers/RouteEmbeddedLanguage/RoutePattern/RoutePatternLexer.cs:212-221 | Of two diagnostics attached in turn to a token without one, the first stays and the second changes nothing. This is why `UnescapedBrace` takes precedence over `InvalidParameterName`, and `MismatchedParameter` over `InvalidLiteral`. |
| Lexer.RoutePatternLexer.TryScanUnescapedPolicyFragment | src/Framework/AspNetCoreAnalyzers/src/Analyzers/RouteEmbeddedLanguage/RoutePattern/RoutePatternLexer.cs:242-291 | The token is `ScannedUnescapedPolicyFragment` at the old cursor. The cursor ends at the token's end, or stays put when there is no token. |
| Lexer.RoutePatternLexer.PolicyFragmentCharacter | src/Framework/AspNetCoreAnalyzers/src/Analyzers/RouteEmbeddedLanguage/RoutePattern/RoutePatternLexer.cs:253-275 | The policy-fragment loop's tests at the cursor. It says stop exactly when the fragment must end before this character: `:`, `=`, `?`, an unescaped `}`, or a `(` whose `)` comes first. A stop leaves the cursor alone. Otherwise the cursor is on the last character of the unit consumed, and it reports whether that unit is an unescaped `{`. |
| RoutePatternScans.ScannedUnescapedPolicyFragmentMeaning | src/Framework/AspNetCoreAnalyzers/src/Analyzers/RouteEmbeddedLanguage/RoutePattern/RoutePatternLexer.cs:251-290 | The fragment stops before the first `:`, `=`, `?`, unescaped `}`, or `(` whose `)` comes before the parameter ends. None of these lies inside. It carries `UnescapedBrace` iff it contains an unescaped `{`, and no other diagnostic. |
| Lexer.RoutePatternLexer.TryScanEscapedPolicyFragment | src/Framework/AspNetCoreAnalyzers/src/Analyzers/RouteEmbeddedLanguage/RoutePattern/RoutePatternLexer.cs:309-357 | The token is `ScannedEscapedPolicyFragment` at the old cursor. With no token the cursor is back at its start (the backtrack); otherwise it is at the token's end. |
| RoutePatternScans.ScannedEscapedPolicyFragmentMeaning | src/Framework/AspNetCoreAnalyzers/src/Analyzers/RouteEmbeddedLanguage/RoutePattern/RoutePatternLexer.cs:316-356 | No token iff at the end of the text, or an unescaped `}` comes before any `)`. Otherwise the token runs to the first `)` or the end of the text, is empty exactly when `)` is at the start, and carries `UnescapedBrace` iff it contains an unescaped `{`. |
| Lexer.RoutePatternLexer.TryScanDefaultValue | src/Framework/AspNetCoreAnalyzers/src/Analyzers/RouteEmbeddedLanguage/RoutePattern/RoutePatternLexer.cs:359-393 | The token is `ScannedDefaultValue` at the old cursor. The cursor ends at the token's end, or stays put when there is no token. |
| RoutePatternScans.ScannedDefaultValueMeaning | src/Framework/AspNetCoreAnalyzers/src/Analyzers/RouteEmbeddedLanguage/RoutePattern/RoutePatternLexer.cs:366-392 | No token iff at the end, at `}` or at a trailing `?`. Otherwise the value contains neither, accepts every other character, ends at the first of them, and carries no diagnostic. |
| RoutePatternScans.DefaultValueStops | src/Framework/AspNetCoreAnalyzers/src/Analyzers/RouteEmbeddedLanguage/RoutePattern/RoutePatternLexer.cs:367-383 | The default-value loop passes no `}` and no trailing `?`, and it halts on one of them unless it reaches the end. |
| RoutePatternExamples.QuestionMarkBeforeEscapedClose | src/Framework/AspNetCoreAnalyzers/test/RouteEmbeddedLanguage/RoutePatternParserTests_BasicTests.cs:137 | In `{id?}}}` the name from 1 is `id?}}`, ending before the last `}`. It is flagged `InvalidParameterName("id?}")`. |
| RoutePatternExamples.DefaultValueAndOptional | src/Framework/AspNetCoreAnalyzers/test/RouteEmbeddedLanguage/RoutePatternParserTests_BasicTests.cs:131 | In `{id=Home?}` the name is `id` and the default value is `Home`, stopping at the trailing `?`. |
| RoutePatternExamples.LiteralBeforeParameter | src/Framework/AspNetCoreAnalyzers/test/RouteEmbeddedLanguage/RoutePatternParserTests_BasicTests.cs:143 | In `a{foob{bar}c` the literal from 0 is `a`. |
| RoutePatternExamples.EscapedPolicyArgument | src/Framework/AspNetCoreAnalyzers/test/RouteEmbeddedLanguage/RoutePatternParserTests_BasicTests.cs:221 | In `{ssn:regex(^\d{{3}}-\d{{2}}-\d{{4}}$)}` the name is `ssn`. The policy name is `regex`, which stops at `(` because the `)` is ahead. The escaped argument is `^\d{{3}}-\d{{2}}-\d{{4}}$`, with its pairs kept. |
| RoutePatternExamples.EscapedPolicyArgumentIncomplete | src/Framework/AspNetCoreAnalyzers/test/RouteEmbeddedLanguage/RoutePatternParserTests_BasicTests.cs:227 | In `{ssn:regex(^\d{{3}}-\d{{2}}-\d{{4}` there is no escaped argument (the last `}` comes first). The policy fragment from 5 takes `regex(^\d{{3}}-\d{{2}}-\d{{4`. |
| RoutePatternExamples.ColonStartsName | src/Framework/AspNetCoreAnalyzers/test/RouteEmbeddedLanguage/RoutePatternParserTests_BasicTests.cs:275 | In `{:hi}` the name from 1 is `:hi`. |
| RoutePatternExamples.CatchAllColonStartsName | src/Framework/AspNetCoreAnalyzers/test/RouteEmbeddedLanguage/RoutePatternParserTests_BasicTests.cs:281 | In `{**:hi}` the name from 3 is `:hi`. |

## Left out

- Host-document spans are not modelled. This covers `GetTextSpan` and the virtual-character sequence that maps each character back to the C# string it came from. Positions are indices into the template text.
- `CurrentChar`, `GetSubPattern` and `GetSubPatternToCurrentPos` are not separate members. They are indexing and slicing of `text`.
- Diagnostic messages are not modelled. A diagnostic is a tag plus the argument formatted into the localized message. Its span is always its token's span, so it is not stored.
- Token trivia and the rest of the syntax-token structure are not modelled, only kind, span, value and diagnostic.
- The lexer is a C# struct that callers copy by value. The model is a class, so value copying is not captured.
- `IsUnescapedChar` advances a `ref int`. The model returns the updated position as a second result instead of updating a caller's variable in place.
- The parser that sequences these scans, the highlighter and the rest of the analyzers are not part of this model.
