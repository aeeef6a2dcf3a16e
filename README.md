# MoZuku language server: the analysis core in Dafny

MoZuku is a language server for Japanese prose. Its C++ core does several jobs:

- It keeps the open documents of an editor.
- It finds the prose in them. For source code, that is the comments. For HTML and LaTeX, it is also the body text.
- It hands a masked copy of each document to a morphological analyser and a grammar checker.
- It caches their diagnostics, line by line.
- It answers semantic-token and hover requests.
- It sends highlight notifications for comments and body text.

This project models that core and proves properties of the model. It has one module per file:

- `ByteText` (bytes.dfy): bytes, ASCII constants, byte and substring search, and the UTF-8 spellings of the Japanese words the rules look for.
- `LspTypes` (lsp_types.dfy): the protocol records: `Position`, `Range`, `Diagnostic`, `TokenData` and `ByteRange`. Also the analyser's `DetailedPOS`, `SentenceBoundary`, the configuration defaults and the token legends.
- `Utf16` (utf16.dfy): the position codec. It maps byte offsets in UTF-8 text to and from the protocol's (line, UTF-16 column) positions, and measures UTF-16 lengths.
- `TextProcessor` (text_processor.dfy): the UTF-8 sanitiser and the sentence segmenter.
- `PosAnalyzer` (pos_analyzer.dfy): MeCab feature strings: field splitting, the part-of-speech to token-type map, and the token modifier bits.
- `GrammarChecker` (grammar_checker.dfy): the six grammar rules and the severity gate in front of them.
- `CommentExtractor` (comment_extractor.dfy): the language table, the in-place comment sanitisers, and the comment walk over a parse tree.
- `LatexScan` (latex_scan.dfy): the LaTeX scanners: escapes, `$`/`$$` math, `%` comments, and plain-text ranges.
- `HtmlContent` (html_content.dfy): the trimmed `text` nodes of an HTML parse tree.
- `AnalysisText` (analysis_text.dfy): how the analysis text is built for each language: mask, restore the body text, write back the comments.
- `SemanticTokens` (semantic_tokens.dfy): the five-integer delta encoding of semantic tokens.
- `LineDiff` (changed_lines.dfy): the changed-line set of an edit.
- `LspServer` (lsp_server.dfy): the server's document maps as a class `Server`, with its handlers.

## How the model is built

**Imperative code stays imperative.** Code that loops or updates in place is written as methods with loops, and arrays where the source overwrites a buffer. Each method is proved equal to a specification function, and the properties are proved about those functions. Examples:

- the line-start table, the sanitisers and the segmenter;
- the LaTeX scanners and the masking of the analysis text;
- the rule loops and the cache operations.

**The server is a class.** `Server` holds the six maps of `LSPServer`, each a Dafny `map`. Each handler modifies only the maps the source writes, and states the new value of each one.

**Three services are parameters.** Each is a function fixed when the server is constructed:

- the tree-sitter parser (`Parser`);
- the analyser's tokenizer (`Tokenizer`);
- its grammar check (`GrammarCheck`).

**Notifications are return values.** What the server would send after an analysis is returned as a `Published` value instead of being written to the client.

### Behaviours of the source that the model keeps

- **Edit order.** `onDidChange` applies the changes of one notification from the last to the first. Every change's positions are read against the text as the later changes left it. `LspServer.LastChangeFirstExample` works this through for two insertions into "ab": the result is "XaYb".
- **`computeByteOffset` has no body in the source.** Only its declaration is present. The model defines it as the inverse of `byteOffsetToPosition`: walk from the line's start, counting UTF-16 units, and stop at a newline or the end. `Utf16.PositionOfComputedOffset` and `Utf16.ComputedOffsetOfPosition` prove that the two functions invert each other.
- **Over-long decoding.** The code-point decoder takes every lead byte other than ASCII, `110xxxxx` and `1110xxxx` as the start of a four-byte sequence. It also reads past the end of the string; the model reads those bytes as 0.
- **Pruning has no effect.** `analyzeChangedLines` removes the cached diagnostics of the changed lines, and then re-analyses the whole document, which replaces the whole cache. The contract of `LspServer.Server.AnalyzeChangedLines` states that the final state is the same as a fresh analysis.
- **Modifier bits do not match the legend.** The modifier bits `computeModifiers` sets are not in the order of the legend the server announces. Bit 0 means kana, but the legend calls it "proper". `PosAnalyzer.ModifierBitsDisagreeWithLegend` shows this.
- **Segmenter quirks.** When no boundary appears within 10,000 bytes, the sentence runs to the end of the text. Sentence ids are used up by spans that trim to nothing.
- **Rule quirks.**
  - `particleKey` keeps only the first field of a feature that has exactly two fields.
  - `mapPosToType` names 助動詞 and 感動詞 "verb".
  - Adjacent-particle and conjunction reports span from the previous token to the current one.

## Model

| member | source | states |
|---|---|---|
| ByteText.FindSub | mozuku-lsp/src/grammar_checker.cpp:144-158 | The first occurrence of a pattern at or after a position, as `std::string::find` finds it; `None` means there is no occurrence from there on. |
| LspTypes.DefaultConfig | mozuku-lsp/include/analyzer.hpp:58-90 | By default all six rules are on, the comma limit is 3 and every other limit is 1. The default configuration passes the severity gate. |
| LspTypes.ModifierBitsAreDistinctSingleBits | mozuku-lsp/include/analyzer.hpp:106-111 | The four modifier constants are the single bits 1, 2, 4 and 8, pairwise disjoint. |
| Utf16.DecodeCodePoint | mozuku-lsp/src/utf16.cpp:4-38 | A decode step reads 1 to 4 bytes, and 1 exactly for an ASCII byte. Sequences shorter than four bytes decode to at most U+FFFF. |
| Utf16.ScanStep | mozuku-lsp/src/utf16.cpp:74-101 | Every step of the column walk advances at least one byte, so the walks end. It counts 2 UTF-16 units only for a four-byte sequence. |
| Utf16.DecodeEncode | mozuku-lsp/src/utf16.cpp:14-38 | Decoding the UTF-8 encoding of any Unicode scalar value gives back the value and its length, and counts 2 units exactly above U+FFFF. |
| Utf16.LineStarts | mozuku-lsp/src/utf16.cpp:41-49 | The table starts with 0, strictly increases, has one entry more than the text has newlines, and lists exactly the offsets just after each `\n`. |
| Utf16.ComputeLineStarts | mozuku-lsp/src/utf16.cpp:41-49 | The loop builds exactly `LineStarts` of the text. |
| Utf16.LineStartsOfPrefix | mozuku-lsp/src/utf16.cpp:41-49 | The table of a prefix is a prefix of the table; the entries after it lie beyond the prefix. |
| Utf16.LineOf | mozuku-lsp/src/utf16.cpp:57-68 | The binary search gives the last line whose start is at most the offset. |
| Utf16.PositionOf | mozuku-lsp/src/utf16.cpp:51-104 | The position of an offset has a line inside the table and a column of at least 0. |
| Utf16.ByteOffsetToPosition | mozuku-lsp/src/utf16.cpp:51-104 | The binary search and the walk compute `PositionOf`. |
| Utf16.PositionLineCountsNewlines | mozuku-lsp/src/utf16.cpp:51-104 | With the text's own table, the line of an offset is the number of `\n` bytes before it. |
| Utf16.AsciiColumn | mozuku-lsp/src/utf16.cpp:74-81 | On ASCII bytes without a newline, the column is the distance from the line start. |
| Utf16.ColumnMonotone | mozuku-lsp/src/utf16.cpp:74-101 | A larger offset never gives a smaller column. |
| Utf16.ColumnClamp | mozuku-lsp/src/utf16.cpp:55-56 | An offset past the end gives the column of the end. |
| Utf16.Utf8ToUtf16Length | mozuku-lsp/src/utf16.cpp:106-140 | The loop computes `Utf16Length`. |
| Utf16.AsciiLength | mozuku-lsp/src/utf16.cpp:106-140 | The UTF-16 length of ASCII text is its byte length. |
| Utf16.WellFormedLengthAtMostBytes | mozuku-lsp/src/utf16.cpp:106-140 | Well-formed UTF-8 never has more UTF-16 units than bytes. |
| Utf16.TruncatedLeadCountsTwo | mozuku-lsp/src/utf16.cpp:114-134 | A lone four-byte lead at the end still counts as two units. |
| Utf16.ComputeByteOffset | mozuku-lsp/include/analyzer.hpp:104 | The byte offset of a (line, column) pair never lies past the end of the text. |
| Utf16.PositionOfComputedOffset | mozuku-lsp/src/lsp.cpp:583-584 | For well-formed text and a column that can be reached on the line, the position of the computed offset is the pair itself. |
| Utf16.ComputedOffsetOfPosition | mozuku-lsp/src/lsp.cpp:677 | For well-formed text and an offset on a character boundary, the offset of its position is the offset itself. |
| TextProcessor.IsValidUtf8Sequence | mozuku-lsp/src/text_processor.cpp:227-238 | True exactly when the sequence fits in the input and its later bytes are all `10xxxxxx`. |
| TextProcessor.SanitizeUtf8 | mozuku-lsp/src/text_processor.cpp:19-71 | The scan computes `Sanitized`. |
| TextProcessor.SanitizedIsSubsequence | mozuku-lsp/src/text_processor.cpp:19-71 | The output is a subsequence of the input, so it is never longer. |
| TextProcessor.SanitizeAscii | mozuku-lsp/src/text_processor.cpp:30-35 | On ASCII input, the control bytes other than tab, LF and CR are dropped and every other byte is kept. |
| TextProcessor.SanitizeIdempotent | mozuku-lsp/src/text_processor.cpp:19-71 | The output is clean, and sanitising it again changes nothing. |
| TextProcessor.SanitizeKeepsWellFormed | mozuku-lsp/src/text_processor.cpp:39-67 | Well-formed UTF-8 without dropped control bytes passes through unchanged. |
| TextProcessor.SanitizeExamples | mozuku-lsp/src/text_processor.cpp:39-67 | A stray continuation byte is dropped, a truncated sequence at the end stops the scan, and an invalid lead is skipped. |
| TextProcessor.SkipWhitespace | mozuku-lsp/src/text_processor.cpp:217-225 | The loop skips a run of at most 100 spaces, tabs and carriage returns. |
| TextProcessor.SentenceEndWithoutBreak | mozuku-lsp/src/text_processor.cpp:127-130 | With no boundary in the 10,000-byte window, the sentence runs to the end of the text, not to the window's end. |
| TextProcessor.SentenceEndAtBreak | mozuku-lsp/src/text_processor.cpp:99-124 | The first newline, tab or 。？！ in the window ends the sentence just after it. |
| TextProcessor.FindSentenceEnd | mozuku-lsp/src/text_processor.cpp:93-130 | The boundary search computes `SentenceEnd`. |
| TextProcessor.TrimBounds | mozuku-lsp/src/text_processor.cpp:139-152 | The trim loops drop leading space, tab and CR and trailing space, tab, CR and LF. |
| TextProcessor.SplitIntoSentences | mozuku-lsp/src/text_processor.cpp:73-187 | The segmenter computes `Sentences`, with one id per span, including spans that trim to nothing. |
| TextProcessor.SentencesOrdered | mozuku-lsp/src/text_processor.cpp:92-179 | Every sentence satisfies `start < end <= size`, ends where the search cuts, and carries its non-empty trimmed text. Sentences do not overlap, and their ids strictly increase. |
| PosAnalyzer.SplitFeature | mozuku-lsp/src/pos_analyzer.cpp:137-152 | The loop computes `SplitFields`. |
| PosAnalyzer.JoinSplit | mozuku-lsp/src/pos_analyzer.cpp:137-152 | Joining the fields with commas gives back a feature string that does not end in a comma. |
| PosAnalyzer.SplitJoin | mozuku-lsp/src/pos_analyzer.cpp:137-152 | Splitting comma-free fields joined with commas gives the fields back, when the last field is not empty. |
| PosAnalyzer.TrailingCommaAddsNoField | mozuku-lsp/src/pos_analyzer.cpp:141-151 | A trailing comma adds no empty field. |
| PosAnalyzer.NoFieldsInEmptyFeature | mozuku-lsp/src/pos_analyzer.cpp:137-152 | The empty string has no fields. |
| PosAnalyzer.MapPosToType | mozuku-lsp/src/pos_analyzer.cpp:8-40 | The name is always one of the twelve legend names, and "unknown" for a missing feature. |
| PosAnalyzer.IpadicPartsOfSpeech | mozuku-lsp/src/pos_analyzer.cpp:16-33 | The first match in the list wins, so 助動詞 and 感動詞 give "verb". Every other part of speech gets its own name. |
| PosAnalyzer.MapPosToTypeOfField | mozuku-lsp/src/pos_analyzer.cpp:8-40 | For a clean feature string, only the first field decides the name. |
| PosAnalyzer.ParseDetailedPos | mozuku-lsp/src/pos_analyzer.cpp:72-106 | A missing feature gives the empty record. |
| PosAnalyzer.ParseNineFields | mozuku-lsp/src/pos_analyzer.cpp:72-106 | Fields 0 to 5 are copied by index, including a literal "*". The base form, reading and pronunciation are set only when they are not "*". |
| PosAnalyzer.ParseFeatureDetails | mozuku-lsp/src/pos_analyzer.cpp:42-70 | Each out-parameter is overwritten only by a present field other than "*". From empty arguments, they match `ParseDetailedPos`. |
| PosAnalyzer.AnalyzeCharacterTypes | mozuku-lsp/src/pos_analyzer.cpp:154-204 | The flags are reset and then computed by the scan `CharTypesOf`, over `[start, min(start + length, size))`. |
| PosAnalyzer.AsciiCharTypes | mozuku-lsp/src/pos_analyzer.cpp:163-170 | An ASCII token has no kana and no kanji, and has the number flag exactly when it holds a digit. |
| PosAnalyzer.CharTypesOfFirstCharacter | mozuku-lsp/src/pos_analyzer.cpp:171-200 | A complete kana or kanji character at the start sets its flag. |
| PosAnalyzer.TruncatedKanaIsIgnored | mozuku-lsp/src/pos_analyzer.cpp:171-200 | A character without two more bytes in range is not classified. |
| PosAnalyzer.ModifierBits | mozuku-lsp/src/pos_analyzer.cpp:108-135 | Each of the five bits is set exactly under its condition (kana, kanji, digit, 固有名詞, 動詞 with 自立), so the result is below 0x20. |
| PosAnalyzer.ComputeModifiers | mozuku-lsp/src/pos_analyzer.cpp:108-135 | The method computes `ModifierBits` of the token's character types. |
| PosAnalyzer.ModifierBitsDisagreeWithLegend | mozuku-lsp/src/pos_analyzer.cpp:117-131 | A kana token gets the bit of value 1, whose legend entry is "proper". A proper noun gets the bit of value 8, whose legend entry is "kanji". |
| GrammarChecker.AdversativeGaOfFields | mozuku-lsp/src/grammar_checker.cpp:21-50 | A feature of at least seven fields is an adversative が exactly when fields 0, 1 and 6 are 助詞, 接続助詞 and が. |
| GrammarChecker.ParticleKeyOfFields | mozuku-lsp/src/grammar_checker.cpp:66-77 | The key is the first two fields, but only the first when the feature has exactly two. |
| GrammarChecker.ToByteOffset | mozuku-lsp/src/grammar_checker.cpp:99-118 | The walk computes `TokenByteOffset`. |
| GrammarChecker.TokenByteOffsetBounds | mozuku-lsp/src/grammar_checker.cpp:99-118 | A line past the table gives the text size. Otherwise the offset is at least the line start, and equal to it for column 0. |
| GrammarChecker.TokenByteOffsetRoundTrip | mozuku-lsp/src/grammar_checker.cpp:99-118 | On well-formed text, the token offset is the codec's offset. For a reachable column, its position gives back the token's line and start column. |
| GrammarChecker.ComputeTokenBytePositions | mozuku-lsp/src/grammar_checker.cpp:120-130 | The loop gives each token's start byte, in order. |
| GrammarChecker.CountCommas | mozuku-lsp/src/grammar_checker.cpp:144-158 | The loop computes `CommaCount`. |
| GrammarChecker.CommaCountIsOccurrences | mozuku-lsp/src/grammar_checker.cpp:144-158 | The find-and-skip count equals the number of byte positions where 、 starts. |
| GrammarChecker.CommaCountAppend | mozuku-lsp/src/grammar_checker.cpp:144-158 | Appending 、 adds exactly one to the count. |
| GrammarChecker.MakeRange | mozuku-lsp/src/grammar_checker.cpp:132-137 | The range has the codec positions of its two byte offsets. |
| GrammarChecker.CheckCommaLimit | mozuku-lsp/src/grammar_checker.cpp:172-196 | The rule appends exactly `CommaLimitDiags` to the list. |
| GrammarChecker.CommaLimitOneSentence | mozuku-lsp/src/grammar_checker.cpp:172-196 | For one sentence there is exactly one diagnostic over the sentence's span when `0 < limit < n`, with n its count of 、; otherwise none. |
| GrammarChecker.GaCountIsIndices | mozuku-lsp/src/grammar_checker.cpp:198-233 | The loop's count equals the number of adversative が tokens that start inside the sentence. |
| GrammarChecker.CheckAdversativeGa | mozuku-lsp/src/grammar_checker.cpp:198-233 | The rule appends exactly `AdversativeGaDiags`. |
| GrammarChecker.AdversativeGaOneSentence | mozuku-lsp/src/grammar_checker.cpp:198-233 | For one sentence there is exactly one sentence-wide diagnostic when more than `maxCount` adversative が start in it; otherwise none. |
| GrammarChecker.CheckDuplicateParticleSurface | mozuku-lsp/src/grammar_checker.cpp:235-287 | The rule appends exactly `DuplicateParticleDiags`. |
| GrammarChecker.DuplicateReportsExactly | mozuku-lsp/src/grammar_checker.cpp:235-287 | Over the first `n` tokens, for every `n`, the scan of a sentence reports at token `j` exactly when two things hold. `j` is a particle of the sentence with the surface and key of the sentence's previous particle. The streak of such repeats ending at `j` is longer than `maxRepeat`. The report runs from the streak's first particle to the end of `j`. Tokens outside the sentence and non-particles are passed over. |
| GrammarChecker.DuplicateRun | mozuku-lsp/src/grammar_checker.cpp:235-287 | Take a run of particles of the sentence with one surface and key, starting at any particle `first` that does not repeat the sentence's previous particle, with other tokens allowed between them. With `m` particles in the run, the reports due at its tokens follow those due before it. They number `max(0, m - maxRepeat)`, and each starts at `first`. `DuplicateReportsExactly` equates the reports due with the scan's. |
| GrammarChecker.CheckAdjacentParticles | mozuku-lsp/src/grammar_checker.cpp:289-343 | The rule appends exactly `AdjacentParticleDiags`. |
| GrammarChecker.AdjacentReportsSpanPairs | mozuku-lsp/src/grammar_checker.cpp:289-343 | Each report spans one adjacent pair: two same-key particles of the sentence, byte-contiguous, with no token of the sentence between them. It runs from the previous particle to the current one. |
| GrammarChecker.AdjacentReportsExactly | mozuku-lsp/src/grammar_checker.cpp:289-343 | Over the first `n` tokens, for every `n`, the scan reports at token `j` exactly when two things hold. The previous token of the sentence is a byte-contiguous same-key particle. The chain of such pairs ending at `j` is longer than `maxRepeat`. A gap, a different key or a non-particle starts a new chain. |
| GrammarChecker.AdjacentRunReported | mozuku-lsp/src/grammar_checker.cpp:301-330 | A run of `m` byte-contiguous same-key particles at any tokens `a` to `a + m - 1` earns `m - maxRepeat` reports when `m > maxRepeat`, and none otherwise. The token of the sentence before the run must not continue it. These are counted among the reports due at the run's tokens, which `AdjacentReportsExactly` equates with the scan's. |
| GrammarChecker.CheckConjunctionRepeats | mozuku-lsp/src/grammar_checker.cpp:345-394 | The rule appends exactly `ConjunctionDiags`. |
| GrammarChecker.ConjStepSkips | mozuku-lsp/src/grammar_checker.cpp:356-360 | A token that is not a conjunction changes nothing. A step reports at most once, from the state's `lastStartByte`. By `ConjScanState` that is the previous conjunction's start. |
| GrammarChecker.ConjunctionPair | mozuku-lsp/src/grammar_checker.cpp:345-394 | With the limit 1, take a document of just two conjunctions with the same surface. It gets one report, from the first to the end of the second. It gets none when a newline lies between the first's end and the second's start. |
| GrammarChecker.LastConjIsLast | mozuku-lsp/src/grammar_checker.cpp:356-360 | `LastConj(n)` is the last conjunction before token `n`: no conjunction lies between it and `n`. When there is none, no token before `n` is a conjunction. |
| GrammarChecker.ConjunctionReportsExactly | mozuku-lsp/src/grammar_checker.cpp:345-394 | The scan runs over the whole document, whatever its sentences. Over the first `n` tokens, for every `n`, it reports at token `j` exactly when two things hold. `j` is a conjunction with the surface of the previous conjunction, with no newline from that one's end to `j`'s start. The streak of such repeats ending at `j` is longer than `maxRepeat`. The report runs from the previous conjunction's start to the end of `j`. `ConjunctionDiags` is that list over all tokens, or nothing when `maxRepeat <= 0`. |
| GrammarChecker.ConjScanState | mozuku-lsp/src/grammar_checker.cpp:350-354 | After `n` tokens the state has a last conjunction exactly when one precedes `n`. It then holds that conjunction's surface, start byte and end byte, and the streak ending there. |
| GrammarChecker.CheckRaDropping | mozuku-lsp/src/grammar_checker.cpp:396-449 | The rule appends exactly `RaDroppingDiags`. |
| GrammarChecker.RaWordIsNotSpecial | mozuku-lsp/src/grammar_checker.cpp:88-96 | The suffix れる is never one of the single-token forms. |
| GrammarChecker.RaSpecialAlone | mozuku-lsp/src/grammar_checker.cpp:400-424 | 来れる or 見れる on its own gives one report over that token. |
| GrammarChecker.RaPair | mozuku-lsp/src/grammar_checker.cpp:426-448 | An ichidan irrealis verb followed by the suffix れる gives exactly one report spanning both tokens. |
| GrammarChecker.RuleOutputFrom | mozuku-lsp/src/grammar_checker.cpp:172-449 | Every rule reports at the context's severity, and only its own kind of diagnostic. |
| GrammarChecker.CheckGrammar | mozuku-lsp/src/grammar_checker.cpp:451-499 | The check appends exactly `GrammarDiags` to the list. |
| GrammarChecker.GrammarReports | mozuku-lsp/src/grammar_checker.cpp:451-499 | Nothing is reported without a configuration that passes the gate. Otherwise the reports come from enabled rules only, at severity 2, in rule order. |
| CommentExtractor.ToLowerIdempotent | mozuku-lsp/src/comment_extractor.cpp:46-51 | Lower-casing twice is lower-casing once. |
| CommentExtractor.LanguageIdsIgnoreCase | mozuku-lsp/src/comment_extractor.cpp:227-230 | An id is supported exactly when its lower-cased form is. |
| CommentExtractor.PlainLanguages | mozuku-lsp/src/comment_extractor.cpp:29-44 | "japanese" and "markdown" are not comment languages. |
| CommentExtractor.MixedCaseLanguages | mozuku-lsp/src/comment_extractor.cpp:29-51 | "C++" and "LaTeX" are supported. |
| CommentExtractor.NoEightByteId | mozuku-lsp/src/comment_extractor.cpp:29-44 | No id of eight bytes is supported. |
| CommentExtractor.SetSpace | mozuku-lsp/src/comment_extractor.cpp:53-59 | A newline byte is kept; any other byte becomes a space. |
| CommentExtractor.SanitizeLineComment | mozuku-lsp/src/comment_extractor.cpp:61-102 | The in-place loops compute `LineSanitized` of the array's old contents. |
| CommentExtractor.LineSanitizedShape | mozuku-lsp/src/comment_extractor.cpp:61-102 | Only the marker and the spaces and tabs after it become spaces; every later byte is untouched. The length and the newlines are kept. |
| CommentExtractor.SlashLineExample | mozuku-lsp/src/comment_extractor.cpp:68-80 | "// hi" becomes three spaces followed by "hi". |
| CommentExtractor.UnmarkedLineExample | mozuku-lsp/src/comment_extractor.cpp:61-102 | A segment that does not open with a marker is left alone. |
| CommentExtractor.SanitizeBlockComment | mozuku-lsp/src/comment_extractor.cpp:104-191 | The in-place loops compute `BlockSanitized` of the array's old contents. |
| CommentExtractor.BlockSanitizedShape | mozuku-lsp/src/comment_extractor.cpp:104-191 | Only marker bytes become spaces. The length and the newlines are kept. |
| CommentExtractor.HtmlBlockExample | mozuku-lsp/src/comment_extractor.cpp:104-191 | "<!-- hi -->" becomes five spaces, "hi", and four spaces. |
| CommentExtractor.CBlockExample | mozuku-lsp/src/comment_extractor.cpp:104-191 | "/* a */" becomes three spaces, "a", and three spaces. |
| CommentExtractor.SanitizeComment | mozuku-lsp/src/comment_extractor.cpp:193-211 | The dispatch computes `CommentSanitized`: the block sanitiser runs only for a block-like segment that is not line-like. |
| CommentExtractor.CommentSanitizedShape | mozuku-lsp/src/comment_extractor.cpp:193-211 | Whichever sanitiser runs, the comment keeps its length and newlines, and only marks become spaces. |
| CommentExtractor.HashIsLineComment | mozuku-lsp/src/comment_extractor.cpp:193-211 | A `#` comment goes to the line sanitiser. |
| CommentExtractor.ExtractComments | mozuku-lsp/src/comment_extractor.cpp:232-307 | The stack walk computes `ExtractedComments`. |
| CommentExtractor.ExtractedCommentsShape | mozuku-lsp/src/comment_extractor.cpp:232-291 | An unsupported language gives no segments. Every segment has `start < end <= size`, a sanitized text of length `end - start`, and differs from the document only by blanked marks. |
| LatexScan.IsEscaped | mozuku-lsp/src/lsp.cpp:36-42 | True exactly when an odd number of backslashes immediately precede the position. |
| LatexScan.EscapeExamples | mozuku-lsp/src/lsp.cpp:36-42 | `\$` is escaped; `\\$` and a `$` at the start are not. |
| LatexScan.FindClosingDollar | mozuku-lsp/src/lsp.cpp:44-51 | The first unescaped `$` at or after the position, or none. |
| LatexScan.FindClosingDoubleDollar | mozuku-lsp/src/lsp.cpp:53-60 | The first unescaped `$$` at or after the position, or none. |
| LatexScan.SanitizeLatexCommentText | mozuku-lsp/src/lsp.cpp:78-95 | The loops compute `LatexCommentSanitized`. |
| LatexScan.LatexCommentSanitizedShape | mozuku-lsp/src/lsp.cpp:78-95 | The leading `%` run and the blanks after it become spaces, and the rest is kept. The length and newlines are kept. |
| LatexScan.CollectLatexComments | mozuku-lsp/src/lsp.cpp:97-132 | The line loop computes `LatexComments`. |
| LatexScan.LatexCommentsShape | mozuku-lsp/src/lsp.cpp:97-132 | At most one comment per line, in order. Each runs from the line's first unescaped `%` to the line's end. |
| LatexScan.LatexCommentsExample | mozuku-lsp/src/lsp.cpp:97-132 | An escaped `%` starts no comment. |
| LatexScan.Utf8CharLen | mozuku-lsp/src/lsp.cpp:134-144 | The length a lead byte announces, between 1 and 4. |
| LatexScan.CollectLatexContentRanges | mozuku-lsp/src/lsp.cpp:219-293 | The scan computes `LatexContentRanges`. |
| LatexScan.LatexContentRangesShape | mozuku-lsp/src/lsp.cpp:219-293 | The ranges are non-empty, strictly ordered and non-overlapping. Each starts inside the text and ends at most three bytes past it. When every multi-byte character is intact, no range covers an ASCII space or punctuation byte. |
| LatexScan.RangesAroundVisit | mozuku-lsp/src/lsp.cpp:219-293 | Every range the scan records from byte `i` on either ends by a later byte `j` the scan comes to, or is recorded from `j` on. |
| LatexScan.LatexSkipsUncovered | mozuku-lsp/src/lsp.cpp:219-293 | At any byte the scan comes to, no range meets the bytes it skips. Where it stops, no range reaches past that byte. |
| LatexScan.LatexMarkupUncovered | mozuku-lsp/src/lsp.cpp:224-256 | At a byte the scan comes to (so not inside math or a comment), no range meets any of these: an unescaped `%` through its line end, `$...$` or `$$...$$` math through the closing delimiter (or to the end when unclosed), a `\` with its command name and optional `*`. |
| LatexScan.InlineMathExample | mozuku-lsp/src/lsp.cpp:236-258 | In `a$x$b` the math is skipped: `a` and `b` are the ranges. |
| LatexScan.UnclosedMathExample | mozuku-lsp/src/lsp.cpp:236-258 | An unclosed `$` stops the scan. |
| LatexScan.FinalCommentExample | mozuku-lsp/src/lsp.cpp:227-234 | A comment on a last line without a newline stops the scan. |
| LatexScan.TruncatedCharacterExample | mozuku-lsp/src/lsp.cpp:279-292 | A text cut inside a character gives a range that runs past the text's end. |
| HtmlContent.TextNodeRange | mozuku-lsp/src/lsp.cpp:186-208 | A `text` node gives its span with the white space at both ends trimmed, or nothing. |
| HtmlContent.CollectHtmlContentRanges | mozuku-lsp/src/lsp.cpp:146-217 | The stack walk computes `TreeRanges`. |
| HtmlContent.NodeRangesShape | mozuku-lsp/src/lsp.cpp:186-208 | What is cut off is all white space, and the range starts and ends with visible bytes. A node of white space only gives nothing. |
| HtmlContent.HtmlContentRangesTrimmed | mozuku-lsp/src/lsp.cpp:146-217 | Every content range is a non-empty span of the document that starts and ends with a visible byte. |
| HtmlContent.TrimExample | mozuku-lsp/src/lsp.cpp:186-208 | " hi " gives the range [1, 3). |
| AnalysisText.MaskText | mozuku-lsp/src/lsp.cpp:887-893 | Every byte but `\n` and `\r` becomes a space, in place. |
| AnalysisText.RestoreRanges | mozuku-lsp/src/lsp.cpp:895-903 | Each content range is copied back from the document, clipped to the buffer. |
| AnalysisText.OverlaySegments | mozuku-lsp/src/lsp.cpp:905-913 | Each comment's sanitized text is written back, clipped to the buffer. |
| AnalysisText.BuildAnalysisText | mozuku-lsp/src/lsp.cpp:887-915 | The mask, restore and overlay loops compute `Analysed`. |
| AnalysisText.AnalysedShape | mozuku-lsp/src/lsp.cpp:887-915 | When comments only blank marks: every byte is the document's own or a space over a non-newline, and the newlines are unchanged. Outside the comments, a byte is the document's inside a content range and blanked otherwise. |
| AnalysisText.Spans | mozuku-lsp/src/lsp.cpp:881-884 | The spans of the comments, one per comment and in order. |
| AnalysisText.PrepareShape | mozuku-lsp/src/lsp.cpp:852-1003 | The analysis text keeps the document's length and newlines. No language, "japanese" or an unsupported id give the text unchanged and remember nothing. |
| AnalysisText.PrepareLatex | mozuku-lsp/src/lsp.cpp:919-965 | A LaTeX document remembers its `%` comments, and the content ranges followed by the comment spans. Outside the comments, a byte is kept exactly inside a content range. |
| AnalysisText.CommentOnlyExample | mozuku-lsp/src/lsp.cpp:979-1002 | In `x=1 /*a*/` only the `a` of the comment survives the mask. |
| SemanticTokens.TypeIndex | mozuku-lsp/src/lsp.cpp:1104-1110 | The first legend index naming the type, or 0 for a name not in the legend. |
| SemanticTokens.Encode | mozuku-lsp/src/lsp.cpp:1092-1121 | Exactly five integers per token. |
| SemanticTokens.BuildSemanticTokensFromTokens | mozuku-lsp/src/lsp.cpp:1092-1121 | The loop computes `Encode`. |
| SemanticTokens.EncodeRoundTrip | mozuku-lsp/src/lsp.cpp:1092-1121 | Summing the deltas gives back every token's line and start column, and the length, legend index and modifiers are stored as they are. |
| SemanticTokens.TypeIndexExamples | mozuku-lsp/src/lsp.cpp:310-312 | "particle" is index 4, "verb" index 1, and an unknown name is sent as 0. |
| SemanticTokens.EncodeExample | mozuku-lsp/src/lsp.cpp:1097-1118 | A second token on the same line is placed relative to the first. A token on a later line carries its own column. |
| LineDiff.SplitLines | mozuku-lsp/src/lsp.cpp:1162-1174 | The getline loop computes `Lines`. |
| LineDiff.LinesJoin | mozuku-lsp/src/lsp.cpp:1162-1174 | The lines hold no `\n`. Joined with `\n` they give back the text, less a final `\n`, so a trailing newline adds no line. |
| LineDiff.SameLines | mozuku-lsp/src/lsp.cpp:1162-1174 | Texts with the same lines are equal but for a final newline. |
| LineDiff.FindChangedLines | mozuku-lsp/src/lsp.cpp:1160-1186 | The comparison loop computes `ChangedLines`. |
| LineDiff.ChangedLinesSpec | mozuku-lsp/src/lsp.cpp:1160-1186 | A line is reported exactly when it is below the larger line count and the texts differ there; that includes every index past the shorter text. The set is symmetric, and empty exactly for texts with the same lines. |
| LineDiff.OneLineEdit | mozuku-lsp/src/lsp.cpp:1160-1186 | "ABCDEF" against "ABXYEF" gives {0}. |
| LineDiff.AppendedLine | mozuku-lsp/src/lsp.cpp:1160-1186 | "a\n" against "a\nb" gives {1}. |
| LspServer.Splice | mozuku-lsp/src/lsp.cpp:583-587 | The prefix is kept and the new text sits at the start offset. When `start <= end` the length is `len - (end - start) + |new|` and the suffix is kept. When `end < start` the text after `start` is dropped. |
| LspServer.ApplyChangesOrder | mozuku-lsp/src/lsp.cpp:573-593 | The last change is applied first, to the original text. A change without a range replaces everything before it. |
| LspServer.LastChangeFirstExample | mozuku-lsp/src/lsp.cpp:573-593 | Inserting "X" at column 0 and then "Y" at column 1 of "ab" gives "XaYb". |
| LspServer.ApplyContentChanges | mozuku-lsp/src/lsp.cpp:573-593 | The reverse loop computes `ApplyChanges`. |
| LspServer.OnLine | mozuku-lsp/src/lsp.cpp:1123-1131 | Every diagnostic it keeps comes from the list and starts on the line. |
| LspServer.ByLineGroups | mozuku-lsp/src/lsp.cpp:1123-1131 | The cache's keys are exactly the start lines of the diagnostics. Each line holds, in order, exactly the diagnostics that start on it. |
| LspServer.OnLineCount | mozuku-lsp/src/lsp.cpp:1123-1131 | A diagnostic occurs on its line's list as often as in the whole list, and on no other line's list. |
| LspServer.CacheRoundTrip | mozuku-lsp/src/lsp.cpp:1123-1158 | Caching and then flattening, in any order that lists each line once, gives back a permutation of the diagnostics. |
| LspServer.LspRanges | mozuku-lsp/src/lsp.cpp:1005-1040 | One protocol range per span. |
| LspServer.ToLspRanges | mozuku-lsp/src/lsp.cpp:1005-1040 | One line table, then the codec positions of both ends of each span. |
| LspServer.HighlightRoundTrip | mozuku-lsp/src/lsp.cpp:1005-1040 | For well-formed text and spans on character boundaries, the offsets of the published positions are the spans' bytes. |
| LspServer.NotificationsGating | mozuku-lsp/src/lsp.cpp:1042-1068 | A "japanese" document publishes only its diagnostics. Any other document publishes its tokens. Languages other than HTML and LaTeX publish no content highlights. |
| LspServer.FirstTokenAt | mozuku-lsp/src/lsp.cpp:709-712 | The first token covering the position, or none when no token does. |
| LspServer.InsideSomeComment | mozuku-lsp/src/lsp.cpp:681-687 | True exactly when the offset lies inside a remembered comment. |
| LspServer.InsideSomeRange | mozuku-lsp/src/lsp.cpp:690-701 | True exactly when the offset lies inside a remembered content range. |
| LspServer.FindTokenAt | mozuku-lsp/src/lsp.cpp:709-712 | The token loop returns the first covering token. |
| LspServer.HoverSpec | mozuku-lsp/src/lsp.cpp:655-784 | A token is shown exactly when the document has tokens, hover is allowed there and some token covers the position; it is the first such token. For a language other than japanese, HTML and LaTeX, hover shows only inside a comment. |
| LspServer.Server.constructor | mozuku-lsp/src/lsp.cpp:309-317 | No documents; the token-type and modifier legends; the three services. |
| LspServer.Server.OnDidOpen | mozuku-lsp/src/lsp.cpp:554-563 | Stores the text, and the language when one is sent. Then it analyses: tokens stored, cache rebuilt, comments and ranges remembered or forgotten, notifications built. |
| LspServer.Server.OnDidChange | mozuku-lsp/src/lsp.cpp:565-596 | The text becomes `ApplyChanges` of the old text, or of the empty text for a document never opened, and is analysed as on open. |
| LspServer.Server.OnDidSave | mozuku-lsp/src/lsp.cpp:598-603 | An open document is analysed again; otherwise nothing changes. |
| LspServer.Server.AnalyzeChangedLines | mozuku-lsp/src/lsp.cpp:838-850 | The pruned lines are overwritten by the full re-analysis. The final state is that of `analyzeAndPublish`. |
| LspServer.Server.AnalyzeAndPublish | mozuku-lsp/src/lsp.cpp:786-836 | The tokens and the line cache of the analysis text are stored, and the remembered comments and ranges updated. The published notifications are those `Notifications` gives. |
| LspServer.Server.PublishAnalysis | mozuku-lsp/src/lsp.cpp:800-835 | The diagnostics; the remembered comment spans and content ranges as protocol ranges, or none when not remembered; the tokens unless the document is japanese. |
| LspServer.Server.PrepareAnalysisText | mozuku-lsp/src/lsp.cpp:852-1003 | Returns the analysis text of `Prepare`. The comment and range maps remember or forget the document's entries. |
| LspServer.Server.CacheDiagnostics | mozuku-lsp/src/lsp.cpp:1123-1131 | The document's cache becomes `ByLine` of the diagnostics; other documents are untouched. |
| LspServer.Server.RemoveDiagnosticsForLines | mozuku-lsp/src/lsp.cpp:1133-1142 | The given lines are dropped from a cached document. An unknown document is left untouched. |
| LspServer.Server.GetAllDiagnostics | mozuku-lsp/src/lsp.cpp:1144-1158 | The cached lists concatenated in the map's iteration order, or nothing for an unknown document. |
| LspServer.Server.BuildSemanticTokens | mozuku-lsp/src/lsp.cpp:1070-1090 | Nothing for an unknown document; the encoding of cached tokens when there are some. Otherwise it prepares, analyses, stores the tokens and encodes them. |
| LspServer.Server.OnSemanticTokensFull | mozuku-lsp/src/lsp.cpp:605-618 | An answer exactly for an open "japanese" document: the encoding of its cached tokens, or of the tokens of its own text. Only that document's tokens may change, and only on a cache miss, where they are cached. On a cache miss the analysis also drops the document's comment segments and content ranges. Otherwise both maps are unchanged. |
| LspServer.Server.OnSemanticTokensRange | mozuku-lsp/src/lsp.cpp:620-633 | The same answer and the same map updates as for the whole document; the range is not used. |
| LspServer.Server.OnHover | mozuku-lsp/src/lsp.cpp:655-784 | The token `Hover` gives for the document's view. |

## Left out

- Transport: reading and writing messages, `handle` and `run`. The notifications are returned as `Published`.
- `onInitialize` and `onInitialized`: copying options out of JSON, and initialising the analyser.
- The Wikipedia lookup in hover, and its network calls and threads.
- The hover text. `LspServer.Server.OnHover` returns the token it would describe, without the markdown and without `isNoun`.
- The tree-sitter parser. The server gets it as a `Parser` function; `extractComments` and `collectHtmlContentRanges` walk the tree it returns.
- The MeCab tokenizer, CaboCha and the analyser behind `analyzeText` and `checkGrammar`. The server gets them as `Tokenizer` and `GrammarCheck` functions. The rule engine takes tokens and sentences as inputs.
- Charset conversion with iconv. Only the UTF-8 path is modelled.
- `minJapaneseRatio`: a floating-point setting, not used by the core.
- Debug logging, and the rendered diagnostic message texts. Messages are a datatype naming the rule and its counts.
- `findClosingCommand` and `processLatexMath`: never called.
- The editor client and the build scripts.
- `Utf16.ComputeByteOffset`: its body is not part of the source shown. It is defined as the inverse walk of `byteOffsetToPosition`.
- `LspServer.Server.GetAllDiagnostics`: the hash map's iteration order is unspecified, so the order of lines is an argument that lists each line once.
- `LspServer.Server.OnDidChange`: positions are `nat`, so negative lines and columns from a client are not modelled. The `int` to `size_t` conversions are not modelled either.
- `LspServer.Server.OnHover`: line and column are `nat`, so the negative values a client could send are not modelled.
- `LspTypes.TokenData`: the line and column fields are `nat`; the tokenizer never produces negatives.
- Integer widths: offsets and counts are unbounded, and `size_t` overflow is not modelled. The one wrap-around that matters, a splice whose end lies before its start, is written out in `LspServer.Splice`.
- Concurrency: the server handles one message at a time, so none is modelled.
