/**
 * The records the server passes around: the protocol types of `lsp.hpp`
 * (Position, Range, Diagnostic, TokenData, ByteRange) and the analysis
 * types and defaults of `analyzer.hpp` (DetailedPOS, SentenceBoundary, the
 * configuration with its rule toggles, and the modifier bits).
 */
module LspTypes {
  import opened ByteText

  /** A protocol position: zero-based line and UTF-16 column. */
  datatype Position = Position(line: int, character: int)

  datatype Range = Range(start: Position, end: Position)

  /**
   * What a grammar diagnostic says.  The server renders each of these as a
   * Japanese sentence; the model keeps the facts the sentence is built from.
   */
  datatype DiagMessage =
    | CommaLimitExceeded(limit: int, count: nat)
    | AdversativeGaExceeded(maxCount: int, count: nat)
    | DuplicateParticle(surface: Bytes)
    | AdjacentParticles
    | DuplicateConjunction(surface: Bytes)
    | RaDropping

  datatype Diagnostic = Diagnostic(range: Range, severity: int, message: DiagMessage)

  /**
   * One token from the tokenizer.  Positions are zero-based and never
   * negative (the tokenizer derives them from byte offsets).  `tokenType` is
   * one of the legend names; `feature` is the raw IPAdic feature string.
   */
  datatype TokenData = TokenData(
    line: nat,
    startChar: nat,
    endChar: nat,
    tokenType: string,
    tokenModifiers: bv32,
    surface: Bytes,
    feature: Bytes,
    baseForm: Bytes,
    reading: Bytes,
    pronunciation: Bytes)

  datatype ByteRange = ByteRange(startByte: nat, endByte: nat)

  /** The nine IPAdic feature fields of one token. */
  datatype DetailedPos = DetailedPos(
    mainPos: Bytes,
    subPos1: Bytes,
    subPos2: Bytes,
    subPos3: Bytes,
    inflection: Bytes,
    conjugation: Bytes,
    baseForm: Bytes,
    reading: Bytes,
    pronunciation: Bytes)
  {
    predicate IsParticle() { mainPos == Joshi }
    predicate IsVerb() { mainPos == Doushi }
    predicate IsNoun() { mainPos == Meishi }
  }

  const EmptyPos := DetailedPos([], [], [], [], [], [], [], [], [])

  /** A sentence span [start, end) in bytes, its id and its trimmed text. */
  datatype SentenceBoundary = SentenceBoundary(start: nat, end: nat, sentenceId: int, text: Bytes)

  datatype RuleToggles = RuleToggles(
    commaLimit: bool,
    adversativeGa: bool,
    duplicateParticleSurface: bool,
    adjacentParticles: bool,
    conjunctionRepeat: bool,
    raDropping: bool,
    commaLimitMax: int,
    adversativeGaMax: int,
    duplicateParticleSurfaceMaxRepeat: int,
    adjacentParticlesMaxRepeat: int,
    conjunctionRepeatMax: int)

  datatype AnalysisConfig = AnalysisConfig(
    enableCaboCha: bool,
    grammarCheck: bool,
    rules: RuleToggles,
    warningMinSeverity: int)

  const DefaultRules := RuleToggles(true, true, true, true, true, true, 3, 1, 1, 1, 1)

  const DefaultAnalysisConfig := AnalysisConfig(true, true, DefaultRules, 2)

  /** The one severity every grammar rule reports (2 = Warning). */
  const RuleSeverity := 2

  /** True when a configuration lets the grammar engine report anything. */
  predicate PassesSeverityGate(config: AnalysisConfig) {
    config.grammarCheck && RuleSeverity >= config.warningMinSeverity
  }

  lemma DefaultConfig()
    ensures var r := DefaultAnalysisConfig.rules;
      && r.commaLimit && r.adversativeGa && r.duplicateParticleSurface
      && r.adjacentParticles && r.conjunctionRepeat && r.raDropping
      && r.commaLimitMax == 3 && r.adversativeGaMax == 1
      && r.duplicateParticleSurfaceMaxRepeat == 1 && r.adjacentParticlesMaxRepeat == 1
      && r.conjunctionRepeatMax == 1
    ensures PassesSeverityGate(DefaultAnalysisConfig)
  {
  }

  // The advertised modifier bits, in legend order.
  const ModProper: bv32 := 1
  const ModNumeric: bv32 := 2
  const ModKana: bv32 := 4
  const ModKanji: bv32 := 8

  /** The legend of modifier names sent to the client, index i naming bit 1 << i. */
  const ModifierLegend: seq<string> := ["proper", "numeric", "kana", "kanji"]

  /** The legend of token types sent to the client. */
  const TokenTypeLegend: seq<string> :=
    ["noun", "verb", "adjective", "adverb", "particle", "aux",
     "conjunction", "symbol", "interj", "prefix", "suffix", "unknown"]

  lemma ModifierBitsAreDistinctSingleBits()
    ensures ModProper == 1 << 0 && ModNumeric == 1 << 1 && ModKana == 1 << 2 && ModKanji == 1 << 3
    ensures ModProper & ModNumeric == 0 && ModProper & ModKana == 0 && ModProper & ModKanji == 0
    ensures ModNumeric & ModKana == 0 && ModNumeric & ModKanji == 0 && ModKana & ModKanji == 0
  {
  }
}
