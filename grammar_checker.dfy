/**
 * The grammar rule engine of `grammar_checker.cpp`.  Six rules look at the
 * tokens and sentence spans of one document and append warnings to the
 * diagnostic list: too many ideographic commas in a sentence, a repeated
 * adversative が, a repeated particle, adjacent particles of the same kind, a
 * repeated conjunction, and ら-dropping (ら抜き言葉).
 *
 * Tokens and sentences are inputs: the tokenizer that produces them is not
 * part of this model.  Each rule is a method that appends to the list, proved
 * equal to a specification function built from a per-token step; the
 * properties of the rules are lemmas about those functions.
 */
module GrammarChecker {
  import opened ByteText
  import opened LspTypes
  import opened Utf16
  import PosAnalyzer
  import TextProcessor

  // ---------------------------------------------------------------------------
  // Feature predicates

  /**
   * Piece `k` of a feature string cut at every comma, reading from byte
   * `from`; the empty string when there are fewer pieces.  Unlike the field
   * splitter of the part-of-speech analyser, the text after a final comma is
   * a (possibly empty) piece.
   */
  function Piece(feature: Bytes, k: nat, from: nat): Bytes
    requires from <= |feature|
    decreases k
  {
    match FindByte(feature, COMMA, from)
    case None => if k == 0 then feature[from..] else []
    case Some(c) => if k == 0 then feature[from..c] else Piece(feature, k - 1, c + 1)
  }

  /**
   * `isAdversativeGa`: the adversative conjunctive particle が, that is
   * part of speech 助詞, first sub-category 接続助詞 and base form が.  The
   * scan stops early once it has the base form; the pieces after it are not
   * looked at, so stopping changes nothing.
   */
  predicate IsAdversativeGa(feature: Bytes) {
    Piece(feature, 0, 0) == Joshi && Piece(feature, 1, 0) == SetsuzokuJoshi && Piece(feature, 6, 0) == Ga
  }

  /** `isConjunction`: the part of speech before the first comma is 接続詞. */
  predicate IsConjunction(feature: Bytes) {
    PosAnalyzer.FirstField(feature) == Setsuzokushi
  }

  /** `isParticle`: the part of speech before the first comma is 助詞. */
  predicate IsParticle(feature: Bytes) {
    PosAnalyzer.FirstField(feature) == Joshi
  }

  /**
   * `particleKey`: the part of speech and first sub-category, up to the
   * second comma.  With exactly one comma only the part of speech is kept;
   * with none, the whole feature.
   */
  function ParticleKey(feature: Bytes): Bytes {
    match FindByte(feature, COMMA, 0)
    case None => feature
    case Some(first) =>
      match FindByte(feature, COMMA, first + 1)
      case None => feature[..first]
      case Some(second) => feature[..second]
  }

  /** `isTargetVerb`: an independent ichidan verb in its irrealis form (見, 来, 食べ...). */
  predicate IsTargetVerb(p: DetailedPos) {
    p.mainPos == Doushi && p.subPos1 == Jiritsu && p.inflection == Ichidan && p.conjugation == Mizenkei
  }

  /** `isRaWord`: the verb suffix れる. */
  predicate IsRaWord(p: DetailedPos) {
    p.mainPos == Doushi && p.subPos1 == Setsubi && p.baseForm == Reru
  }

  /** `isSpecialRaCase`: the single-token forms 来れる and 見れる. */
  predicate IsSpecialRaCase(p: DetailedPos) {
    p.mainPos == Doushi && (p.baseForm == Koreru || p.baseForm == Mireru)
  }

  /** `parsePos`: the detailed part of speech of a feature string. */
  function ParsePos(feature: Bytes): DetailedPos {
    PosAnalyzer.ParseDetailedPos(Some(feature))
  }

  /** `inSentence`: the byte lies in the half-open span of the sentence. */
  predicate InSentence(bytePos: nat, s: SentenceBoundary) {
    s.start <= bytePos < s.end
  }

  lemma PieceOfJoin(fields: seq<Bytes>, k: nat)
    requires 0 < |fields| && k < |fields|
    requires forall j :: 0 <= j < |fields| ==> COMMA !in fields[j]
    ensures Piece(PosAnalyzer.Join(fields), k, 0) == fields[k]
  {
    PieceOfJoinAt(PosAnalyzer.Join(fields), 0, fields, k);
  }

  lemma {:induction false} PieceOfJoinAt(s: Bytes, pos: nat, fields: seq<Bytes>, k: nat)
    requires pos <= |s| && s[pos..] == PosAnalyzer.Join(fields) && k < |fields|
    requires forall j :: 0 <= j < |fields| ==> COMMA !in fields[j]
    ensures Piece(s, k, pos) == fields[k]
    decreases k
  {
    PosAnalyzer.JoinFirstComma(s, pos, fields);
    if |fields| == 1 {
      PieceAfterLastComma(s, k, pos);
    } else {
      var c := pos + |fields[0]|;
      PieceBeforeComma(s, k, pos, c);
      if k > 0 {
        PieceOfJoinAt(s, c + 1, fields[1..], k - 1);
        assert fields[1..][k - 1] == fields[k];
      }
    }
  }

  /** With no comma from `from` on, piece 0 is the rest of the text. */
  lemma PieceAfterLastComma(s: Bytes, k: nat, from: nat)
    requires from <= |s| && FindByte(s, COMMA, from).None?
    ensures Piece(s, k, from) == if k == 0 then s[from..] else []
  {
  }

  /** A comma at `c` ends piece 0; later pieces are read after it. */
  lemma PieceBeforeComma(s: Bytes, k: nat, from: nat, c: nat)
    requires from <= |s| && FindByte(s, COMMA, from) == Some(c)
    ensures Piece(s, k, from) == if k == 0 then s[from..c] else Piece(s, k - 1, c + 1)
  {
  }

  /**
   * On a feature made of comma-free fields, the adversative が is recognised
   * exactly by fields 0, 1 and 6, whatever the other fields hold.
   */
  lemma AdversativeGaOfFields(fields: seq<Bytes>)
    requires 7 <= |fields|
    requires forall j :: 0 <= j < |fields| ==> COMMA !in fields[j]
    ensures IsAdversativeGa(PosAnalyzer.Join(fields))
        <==> fields[0] == Joshi && fields[1] == SetsuzokuJoshi && fields[6] == Ga
  {
    PieceOfJoin(fields, 0);
    PieceOfJoin(fields, 1);
    PieceOfJoin(fields, 6);
  }

  /** The particle key keeps two fields, but only one when the feature has exactly two. */
  lemma ParticleKeyOfFields(a: Bytes, b: Bytes, rest: Bytes)
    requires COMMA !in a && COMMA !in b
    ensures ParticleKey(a + [COMMA] + b) == a
    ensures ParticleKey(a + [COMMA] + b + [COMMA] + rest) == a + [COMMA] + b
  {
    var two := a + [COMMA] + b;
    assert forall i :: 0 <= i < |a| ==> two[i] == a[i];
    FindByteAt(two, COMMA, 0, |a|);
    assert two[..|a|] == a;
    var three := two + [COMMA] + rest;
    assert forall i :: 0 <= i < |two| ==> three[i] == two[i];
    FindByteAt(three, COMMA, 0, |a|);
    FindByteAt(three, COMMA, |a| + 1, |two|);
    assert three[..|two|] == two;
  }

  // ---------------------------------------------------------------------------
  // Token byte positions

  /** Bytes the token walk steps over for a lead byte; continuation bytes count as one. */
  function LeadWidth(c: Byte): (n: nat)
    ensures 1 <= n <= 4
  {
    if c >= 0xF0 then 4 else if c >= 0xE0 then 3 else if c >= 0xC0 then 2 else 1
  }

  /** UTF-16 units the token walk counts for a lead byte: two for a four-byte lead. */
  function LeadUnits(c: Byte): nat {
    if LeadWidth(c) == 4 then 2 else 1
  }

  /**
   * The byte the walk reaches from `i` after `units` UTF-16 units, stopping
   * at a newline or the end of the text.  A step may overshoot the end.
   */
  function WalkFrom(s: Bytes, i: nat, units: int): (r: nat)
    ensures r >= i
    decreases |s| - i
  {
    if i < |s| && units > 0 && s[i] != NL then WalkFrom(s, i + LeadWidth(s[i]), units - LeadUnits(s[i]))
    else i
  }

  /** `toByteOffset`: a line past the table gives the text size, otherwise the walk from the line's start. */
  function TokenByteOffset(token: TokenData, text: Bytes, lineStarts: seq<nat>): nat {
    if token.line >= |lineStarts| then |text|
    else WalkFrom(text, lineStarts[token.line], token.startChar)
  }

  method ToByteOffset(token: TokenData, text: Bytes, lineStarts: seq<nat>) returns (bytePos: nat)
    ensures bytePos == TokenByteOffset(token, text, lineStarts)
  {
    if token.line >= |lineStarts| {
      return |text|;
    }
    bytePos := lineStarts[token.line];
    var utf16Pos := 0;
    while bytePos < |text| && utf16Pos < token.startChar && text[bytePos] != NL
      invariant WalkFrom(text, bytePos, token.startChar - utf16Pos)
             == WalkFrom(text, lineStarts[token.line], token.startChar)
      decreases |text| - bytePos
    {
      var c := text[bytePos];
      var seqLen := if c >= 0xF0 then 4 else if c >= 0xE0 then 3 else if c >= 0xC0 then 2 else 1;
      bytePos := bytePos + seqLen;
      utf16Pos := utf16Pos + (if seqLen == 4 then 2 else 1);
    }
  }

  /** `computeTokenBytePositions`: the start byte of every token. */
  function TokenBytePositions(tokens: seq<TokenData>, text: Bytes, lineStarts: seq<nat>): (r: seq<nat>)
    ensures |r| == |tokens|
    ensures forall i :: 0 <= i < |tokens| ==> r[i] == TokenByteOffset(tokens[i], text, lineStarts)
  {
    seq(|tokens|, i requires 0 <= i < |tokens| => TokenByteOffset(tokens[i], text, lineStarts))
  }

  method ComputeTokenBytePositions(tokens: seq<TokenData>, text: Bytes, lineStarts: seq<nat>)
    returns (positions: seq<nat>)
    ensures positions == TokenBytePositions(tokens, text, lineStarts)
  {
    positions := [];
    for i := 0 to |tokens|
      invariant positions == TokenBytePositions(tokens[..i], text, lineStarts)
    {
      var p := ToByteOffset(tokens[i], text, lineStarts);
      positions := positions + [p];
    }
    assert tokens[..|tokens|] == tokens;
  }

  /** On well-formed text the token walk steps exactly like the position codec's walk. */
  lemma {:induction false} WalkIsOffsetFrom(s: Bytes, i: nat, units: int)
    requires WellFormedFrom(s, i)
    ensures WalkFrom(s, i, units) == OffsetFrom(s, i, units)
    decreases |s| - i
  {
    if i < |s| && units > 0 && s[i] != NL {
      ScanStepWellFormed(s, i);
      assert LeadWidth(s[i]) == WellFormedSeqLen(s, i);
      WalkIsOffsetFrom(s, i + LeadWidth(s[i]), units - LeadUnits(s[i]));
    }
  }

  /**
   * On well-formed text the token's byte offset is the offset the position
   * codec computes for (line, startChar), and a column that ends on a
   * character of the line maps back to the token's own position.
   */
  lemma TokenByteOffsetRoundTrip(token: TokenData, text: Bytes)
    requires WellFormedUtf8(text)
    requires token.line < |LineStarts(text)|
    ensures TokenByteOffset(token, text, LineStarts(text)) == ComputeByteOffset(text, token.line, token.startChar)
    ensures ColumnReachable(text, LineStarts(text)[token.line], token.startChar) ==>
      PositionOf(text, LineStarts(text), TokenByteOffset(token, text, LineStarts(text)))
        == Position(token.line, token.startChar)
  {
    var ls := LineStarts(text);
    LineStartIsBoundary(text, token.line);
    WalkIsOffsetFrom(text, ls[token.line], token.startChar);
    OffsetStaysInText(text, ls[token.line], token.startChar);
    if ColumnReachable(text, ls[token.line], token.startChar) {
      PositionOfComputedOffset(text, token.line, token.startChar);
    }
  }

  /** A line past the table gives the text size; otherwise the offset is at or after the line's start. */
  lemma TokenByteOffsetBounds(token: TokenData, text: Bytes, lineStarts: seq<nat>)
    ensures token.line >= |lineStarts| ==> TokenByteOffset(token, text, lineStarts) == |text|
    ensures token.line < |lineStarts| ==> TokenByteOffset(token, text, lineStarts) >= lineStarts[token.line]
    ensures token.line < |lineStarts| && token.startChar == 0 ==>
      TokenByteOffset(token, text, lineStarts) == lineStarts[token.line]
  {
  }

  // ---------------------------------------------------------------------------
  // Counting ideographic commas

  /** `countCommas` from byte `pos`: each find of 、 counts one and resumes after it. */
  function CommaCountFrom(text: Bytes, pos: nat): nat
    decreases |text| - pos
  {
    if pos >= |text| then 0
    else
      match FindSub(text, Touten, pos)
      case None => 0
      case Some(found) => 1 + CommaCountFrom(text, found + |Touten|)
  }

  function CommaCount(text: Bytes): nat {
    CommaCountFrom(text, 0)
  }

  method CountCommas(text: Bytes) returns (count: nat)
    ensures count == CommaCount(text)
  {
    count := 0;
    var pos := 0;
    while pos < |text|
      invariant count + CommaCountFrom(text, pos) == CommaCount(text)
      decreases |text| - pos
    {
      var found := FindSub(text, Touten, pos);
      if found.None? {
        break;
      }
      count := count + 1;
      pos := found.value + |Touten|;
    }
  }

  /** Reference count: the number of byte positions at or after `pos` where 、 starts. */
  function OccurrencesFrom(text: Bytes, pos: nat): nat
    decreases |text| - pos
  {
    if pos >= |text| then 0
    else (if OccursAt(text, Touten, pos) then 1 else 0) + OccurrencesFrom(text, pos + 1)
  }

  lemma {:induction false} NoOccurrencesBetween(text: Bytes, pos: nat, stop: nat)
    requires pos <= stop
    requires forall k :: pos <= k < stop ==> !OccursAt(text, Touten, k)
    ensures OccurrencesFrom(text, pos) == OccurrencesFrom(text, stop)
    decreases stop - pos
  {
    if pos < stop {
      NoOccurrencesBetween(text, pos + 1, stop);
    }
  }

  lemma {:induction false} NoOccurrencesAfter(text: Bytes, pos: nat)
    requires forall k :: pos <= k ==> !OccursAt(text, Touten, k)
    ensures OccurrencesFrom(text, pos) == 0
    decreases |text| - pos
  {
    if pos < |text| {
      NoOccurrencesAfter(text, pos + 1);
    }
  }

  /** 、 cannot overlap itself: its lead byte never appears inside it. */
  lemma ToutenDoesNotOverlap(text: Bytes, f: nat)
    requires OccursAt(text, Touten, f)
    ensures !OccursAt(text, Touten, f + 1) && !OccursAt(text, Touten, f + 2)
  {
    assert text[f..f + 3][1] == text[f + 1] && text[f..f + 3][2] == text[f + 2];
  }

  lemma {:induction false} CommaCountFromIsOccurrences(text: Bytes, pos: nat)
    ensures CommaCountFrom(text, pos) == OccurrencesFrom(text, pos)
    decreases |text| - pos, 1
  {
    if pos < |text| {
      match FindSub(text, Touten, pos)
      case None =>
        NoOccurrencesAfter(text, pos);
      case Some(f) =>
        NoOccurrencesBetween(text, pos, f);
        CommaCountFound(text, pos, f);
    }
  }

  /** The count from `pos` is one more than the count after the first 、 at `f`, which is the first occurrence. */
  lemma {:induction false} CommaCountFound(text: Bytes, pos: nat, f: nat)
    requires pos <= f && OccursAt(text, Touten, f)
    requires CommaCountFrom(text, pos) == 1 + CommaCountFrom(text, f + 3)
    requires OccurrencesFrom(text, pos) == OccurrencesFrom(text, f)
    ensures CommaCountFrom(text, pos) == OccurrencesFrom(text, pos)
    decreases |text| - pos, 0
  {
    OccurrenceSkips(text, f);
    CommaCountFromIsOccurrences(text, f + 3);
  }

  /** An occurrence counts one, and the next can start no earlier than three bytes on. */
  lemma OccurrenceSkips(text: Bytes, f: nat)
    requires OccursAt(text, Touten, f)
    ensures OccurrencesFrom(text, f) == 1 + OccurrencesFrom(text, f + 3)
  {
    ToutenDoesNotOverlap(text, f);
    assert OccurrencesFrom(text, f + 1) == OccurrencesFrom(text, f + 2);
    assert OccurrencesFrom(text, f + 2) == OccurrencesFrom(text, f + 3);
  }

  /** `countCommas` counts every 、 of the text: none of them overlap, so none is skipped. */
  lemma CommaCountIsOccurrences(text: Bytes)
    ensures CommaCount(text) == OccurrencesFrom(text, 0)
  {
    CommaCountFromIsOccurrences(text, 0);
  }

  /** Appending 、 adds one to the count. */
  lemma {:induction false} CommaCountAppend(text: Bytes)
    ensures CommaCount(text + Touten) == CommaCount(text) + 1
  {
    var t := text + Touten;
    CommaCountIsOccurrences(text);
    CommaCountIsOccurrences(t);
    OccurrencesPrefix(text, Touten, 0);
    assert OccursAt(t, Touten, |text|) by {
      assert t[|text|..|text| + 3] == Touten;
    }
    assert OccurrencesFrom(t, |text|) == 1 by {
      ToutenDoesNotOverlap(t, |text|);
      assert OccurrencesFrom(t, |text| + 2) == 0;
      assert OccurrencesFrom(t, |text| + 1) == 0;
    }
  }

  /** Occurrences that start inside `a` are counted the same in `a + 、`: none can cross the seam. */
  lemma {:induction false} OccurrencesPrefix(a: Bytes, b: Bytes, pos: nat)
    requires b == Touten
    requires pos <= |a|
    ensures OccurrencesFrom(a + b, pos) == OccurrencesFrom(a, pos) + OccurrencesFrom(a + b, |a|)
    decreases |a| - pos
  {
    if pos < |a| {
      SeamFree(a, pos);
      OccurrencesPrefix(a, b, pos + 1);
    }
  }

  /**
   * A window starting inside `a` holds 、 in `a + 、` exactly when it does in
   * `a`: a window crossing the seam would hold the lead byte 0xE3 of the
   * appended 、 at its second or third place, where 、 has no 0xE3.
   */
  lemma SeamFree(a: Bytes, pos: nat)
    requires pos < |a|
    ensures OccursAt(a + Touten, Touten, pos) == OccursAt(a, Touten, pos)
  {
    var t := a + Touten;
    if pos + 3 <= |a| {
      assert t[pos..pos + 3] == a[pos..pos + 3];
    } else {
      assert t[|a|] == 0xE3;
      assert t[pos..pos + 3][|a| - pos] == t[|a|];
    }
  }

  // ---------------------------------------------------------------------------
  // Rule context

  /** What every rule reads: the text, its tokens and sentences, the line table and each token's start byte. */
  datatype RuleContext = RuleContext(
    text: Bytes,
    tokens: seq<TokenData>,
    sentences: seq<SentenceBoundary>,
    lineStarts: seq<nat>,
    tokenBytePositions: seq<nat>,
    severity: int)

  predicate ValidContext(ctx: RuleContext) {
    ValidLineTable(ctx.lineStarts) && |ctx.tokenBytePositions| == |ctx.tokens|
  }

  /** `makeRange`: the protocol range between two byte offsets. */
  function RangeOf(ctx: RuleContext, startByte: nat, endByte: nat): Range
    requires ValidLineTable(ctx.lineStarts)
  {
    Range(PositionOf(ctx.text, ctx.lineStarts, startByte), PositionOf(ctx.text, ctx.lineStarts, endByte))
  }

  method MakeRange(ctx: RuleContext, startByte: nat, endByte: nat) returns (range: Range)
    requires ValidLineTable(ctx.lineStarts)
    ensures range == RangeOf(ctx, startByte, endByte)
  {
    var start := ByteOffsetToPosition(ctx.text, ctx.lineStarts, startByte);
    var end := ByteOffsetToPosition(ctx.text, ctx.lineStarts, endByte);
    range := Range(start, end);
  }

  /** Every diagnostic of the list has the given severity. */
  predicate AllAt(ds: seq<Diagnostic>, severity: int) {
    forall k :: 0 <= k < |ds| ==> ds[k].severity == severity
  }

  // ---------------------------------------------------------------------------
  // Rule 1: ideographic commas per sentence

  function CommaDiag(ctx: RuleContext, s: SentenceBoundary, limit: int): seq<Diagnostic>
    requires ValidContext(ctx)
  {
    var n := CommaCount(s.text);
    if n <= limit then []
    else [Diagnostic(RangeOf(ctx, s.start, s.end), ctx.severity, CommaLimitExceeded(limit, n))]
  }

  function CommaDiags(ctx: RuleContext, ss: seq<SentenceBoundary>, limit: int): (r: seq<Diagnostic>)
    requires ValidContext(ctx)
    ensures |r| <= |ss|
    ensures forall k :: 0 <= k < |r| ==>
      r[k].severity == ctx.severity && r[k].message.CommaLimitExceeded? && r[k].message.count > limit
  {
    if |ss| == 0 then []
    else CommaDiags(ctx, ss[..|ss| - 1], limit) + CommaDiag(ctx, ss[|ss| - 1], limit)
  }

  /** `checkCommaLimit`: one diagnostic over each sentence holding more than `limit` 、; none when `limit <= 0`. */
  function CommaLimitDiags(ctx: RuleContext, limit: int): seq<Diagnostic>
    requires ValidContext(ctx)
  {
    if limit <= 0 then [] else CommaDiags(ctx, ctx.sentences, limit)
  }

  method CheckCommaLimit(ctx: RuleContext, diags: seq<Diagnostic>, limit: int) returns (out: seq<Diagnostic>)
    requires ValidContext(ctx)
    ensures out == diags + CommaLimitDiags(ctx, limit)
  {
    out := diags;
    if limit <= 0 {
      return;
    }
    for j := 0 to |ctx.sentences|
      invariant out == diags + CommaDiags(ctx, ctx.sentences[..j], limit)
    {
      var sentence := ctx.sentences[j];
      assert ctx.sentences[..j + 1][..j] == ctx.sentences[..j];
      var commaCount := CountCommas(sentence.text);
      if commaCount <= limit {
        continue;
      }
      var range := MakeRange(ctx, sentence.start, sentence.end);
      var diag := Diagnostic(range, ctx.severity, CommaLimitExceeded(limit, commaCount));
      TextProcessor.AppendAssociative(diags, CommaDiags(ctx, ctx.sentences[..j], limit), [diag]);
      out := out + [diag];
    }
    assert ctx.sentences[..|ctx.sentences|] == ctx.sentences;
  }

  /**
   * For one sentence, the comma rule reports exactly when the sentence's text
   * holds more than `limit` occurrences of 、, with a range over the whole
   * sentence; `limit` commas give nothing and `limit + 1` give one report.
   */
  lemma CommaLimitOneSentence(ctx: RuleContext, limit: int)
    requires ValidContext(ctx) && |ctx.sentences| == 1
    ensures var s := ctx.sentences[0];
      var n := OccurrencesFrom(s.text, 0);
      CommaLimitDiags(ctx, limit)
        == if 0 < limit < n then [Diagnostic(RangeOf(ctx, s.start, s.end), ctx.severity, CommaLimitExceeded(limit, n))]
           else []
  {
    CommaCountIsOccurrences(ctx.sentences[0].text);
    assert ctx.sentences[..0] == [];
  }

  // ---------------------------------------------------------------------------
  // Rule 2: adversative が per sentence

  /** Token `i` is an adversative が starting inside the sentence. */
  predicate GaInSentence(ctx: RuleContext, s: SentenceBoundary, i: nat)
    requires ValidContext(ctx) && i < |ctx.tokens|
  {
    IsAdversativeGa(ctx.tokens[i].feature) && InSentence(ctx.tokenBytePositions[i], s)
  }

  /** Adversative が tokens among the first `n` whose start byte lies in the sentence. */
  function GaCount(ctx: RuleContext, s: SentenceBoundary, n: nat): nat
    requires ValidContext(ctx) && n <= |ctx.tokens|
  {
    if n == 0 then 0
    else
      var last := if GaInSentence(ctx, s, n - 1) then 1 else 0;
      GaCount(ctx, s, n - 1) + last
  }

  /** Number of `true` entries. */
  function CountTrue(b: seq<bool>): nat {
    if |b| == 0 then 0 else CountTrue(b[..|b| - 1]) + (if b[|b| - 1] then 1 else 0)
  }

  function TrueIndices(b: seq<bool>): set<nat> {
    set i: nat | i < |b| && b[i]
  }

  lemma {:induction false} CountTrueIsCard(b: seq<bool>)
    ensures CountTrue(b) == |TrueIndices(b)|
  {
    if |b| > 0 {
      var p := b[..|b| - 1];
      CountTrueIsCard(p);
      if b[|b| - 1] {
        assert TrueIndices(b) == TrueIndices(p) + {|b| - 1};
      } else {
        assert TrueIndices(b) == TrueIndices(p);
      }
    }
  }

  /** Reference set: the indices of the adversative が tokens that start inside the sentence. */
  function GaIndices(ctx: RuleContext, s: SentenceBoundary): set<nat>
    requires ValidContext(ctx)
  {
    TrueIndices(seq(|ctx.tokens|, i requires 0 <= i < |ctx.tokens| => GaInSentence(ctx, s, i)))
  }

  lemma {:induction false} GaCountIsCountTrue(ctx: RuleContext, s: SentenceBoundary, n: nat)
    requires ValidContext(ctx) && n <= |ctx.tokens|
    ensures GaCount(ctx, s, n)
         == CountTrue(seq(|ctx.tokens|, i requires 0 <= i < |ctx.tokens| => GaInSentence(ctx, s, i))[..n])
  {
    var flags := seq(|ctx.tokens|, i requires 0 <= i < |ctx.tokens| => GaInSentence(ctx, s, i));
    if n > 0 {
      GaCountIsCountTrue(ctx, s, n - 1);
      CountTruePrefix(flags, n);
    }
  }

  /** Counting a prefix one entry longer adds that entry. */
  lemma CountTruePrefix(b: seq<bool>, n: nat)
    requires 0 < n <= |b|
    ensures CountTrue(b[..n]) == CountTrue(b[..n - 1]) + (if b[n - 1] then 1 else 0)
  {
    assert b[..n][..n - 1] == b[..n - 1];
  }

  /** The count is the number of adversative が tokens that start inside the sentence. */
  lemma GaCountIsIndices(ctx: RuleContext, s: SentenceBoundary)
    requires ValidContext(ctx)
    ensures GaCount(ctx, s, |ctx.tokens|) == |GaIndices(ctx, s)|
  {
    var flags := seq(|ctx.tokens|, i requires 0 <= i < |ctx.tokens| => GaInSentence(ctx, s, i));
    GaCountIsCountTrue(ctx, s, |ctx.tokens|);
    assert flags[..|ctx.tokens|] == flags;
    CountTrueIsCard(flags);
  }

  function GaDiag(ctx: RuleContext, s: SentenceBoundary, maxCount: int): seq<Diagnostic>
    requires ValidContext(ctx)
  {
    var count := GaCount(ctx, s, |ctx.tokens|);
    if count <= maxCount then []
    else [Diagnostic(RangeOf(ctx, s.start, s.end), ctx.severity, AdversativeGaExceeded(maxCount, count))]
  }

  function GaDiags(ctx: RuleContext, ss: seq<SentenceBoundary>, maxCount: int): (r: seq<Diagnostic>)
    requires ValidContext(ctx)
    ensures |r| <= |ss|
    ensures forall k :: 0 <= k < |r| ==>
      r[k].severity == ctx.severity && r[k].message.AdversativeGaExceeded? && r[k].message.count > maxCount
  {
    if |ss| == 0 then []
    else GaDiags(ctx, ss[..|ss| - 1], maxCount) + GaDiag(ctx, ss[|ss| - 1], maxCount)
  }

  /** `checkAdversativeGa`: one diagnostic over each sentence with more than `maxCount` adversative が. */
  function AdversativeGaDiags(ctx: RuleContext, maxCount: int): seq<Diagnostic>
    requires ValidContext(ctx)
  {
    if maxCount <= 0 then [] else GaDiags(ctx, ctx.sentences, maxCount)
  }

  method CheckAdversativeGa(ctx: RuleContext, diags: seq<Diagnostic>, maxCount: int) returns (out: seq<Diagnostic>)
    requires ValidContext(ctx)
    ensures out == diags + AdversativeGaDiags(ctx, maxCount)
  {
    out := diags;
    if maxCount <= 0 {
      return;
    }
    for j := 0 to |ctx.sentences|
      invariant out == diags + GaDiags(ctx, ctx.sentences[..j], maxCount)
    {
      assert ctx.sentences[..j + 1][..j] == ctx.sentences[..j];
      var found := AdversativeGaSentence(ctx, ctx.sentences[j], maxCount);
      TextProcessor.AppendAssociative(diags, GaDiags(ctx, ctx.sentences[..j], maxCount), found);
      out := out + found;
    }
    assert ctx.sentences[..|ctx.sentences|] == ctx.sentences;
  }

  /** The body of the sentence loop: count the adversative が of the sentence and report past `maxCount`. */
  method AdversativeGaSentence(ctx: RuleContext, sentence: SentenceBoundary, maxCount: int)
    returns (found: seq<Diagnostic>)
    requires ValidContext(ctx)
    ensures found == GaDiag(ctx, sentence, maxCount)
  {
    var count := 0;
    for i := 0 to |ctx.tokens|
      invariant count == GaCount(ctx, sentence, i)
    {
      if !IsAdversativeGa(ctx.tokens[i].feature) {
        continue;
      }
      var bytePos := ctx.tokenBytePositions[i];
      if InSentence(bytePos, sentence) {
        count := count + 1;
      }
    }
    if count <= maxCount {
      return [];
    }
    var range := MakeRange(ctx, sentence.start, sentence.end);
    found := [Diagnostic(range, ctx.severity, AdversativeGaExceeded(maxCount, count))];
  }

  /**
   * For one sentence, the が rule reports exactly when more than `maxCount`
   * adversative が tokens start inside it, with a range over the sentence.
   */
  lemma AdversativeGaOneSentence(ctx: RuleContext, maxCount: int)
    requires ValidContext(ctx) && |ctx.sentences| == 1
    ensures var s := ctx.sentences[0];
      var n := |GaIndices(ctx, s)|;
      AdversativeGaDiags(ctx, maxCount)
        == if 0 < maxCount < n then [Diagnostic(RangeOf(ctx, s.start, s.end), ctx.severity, AdversativeGaExceeded(maxCount, n))]
           else []
  {
    GaCountIsIndices(ctx, ctx.sentences[0]);
    assert ctx.sentences[..0] == [];
  }

  // ---------------------------------------------------------------------------
  // Rule 3: the same particle repeated within a sentence

  /** The scan state of the duplicate-particle rule within one sentence. */
  datatype DupState = DupState(lastSurface: Bytes, lastKey: Bytes, lastStartByte: nat, streak: int, hasLast: bool)

  const DupStart := DupState([], [], 0, 1, false)

  /**
   * One token of the duplicate-particle scan.  Tokens outside the sentence
   * and tokens that are not particles leave the state as it is, so they
   * neither extend nor break a streak.  A particle with the surface and key
   * of the last one extends the streak, and past `maxRepeat` reports a range
   * from the first particle of the streak to the end of this one.
   */
  function DupStep(ctx: RuleContext, s: SentenceBoundary, maxRepeat: int, st: DupState, i: nat)
    : (r: (DupState, seq<Diagnostic>))
    requires ValidContext(ctx) && i < |ctx.tokens|
  {
    var token := ctx.tokens[i];
    var bytePos := ctx.tokenBytePositions[i];
    if !InSentence(bytePos, s) || !IsParticle(token.feature) then (st, [])
    else
      var key := ParticleKey(token.feature);
      if st.hasLast && token.surface == st.lastSurface && key == st.lastKey then
        var streak := st.streak + 1;
        var e := if streak > maxRepeat
          then [Diagnostic(RangeOf(ctx, st.lastStartByte, bytePos + |token.surface|), ctx.severity,
                           DuplicateParticle(token.surface))]
          else [];
        (DupState(token.surface, key, st.lastStartByte, streak, true), e)
      else (DupState(token.surface, key, bytePos, 1, true), [])
  }

  /** The state and the reports after the first `n` tokens. */
  function DupScan(ctx: RuleContext, s: SentenceBoundary, maxRepeat: int, n: nat): (r: (DupState, seq<Diagnostic>))
    requires ValidContext(ctx) && n <= |ctx.tokens|
  {
    if n == 0 then (DupStart, [])
    else
      var p := DupScan(ctx, s, maxRepeat, n - 1);
      var q := DupStep(ctx, s, maxRepeat, p.0, n - 1);
      (q.0, p.1 + q.1)
  }

  function DupDiags(ctx: RuleContext, maxRepeat: int, ss: seq<SentenceBoundary>): seq<Diagnostic>
    requires ValidContext(ctx)
  {
    if |ss| == 0 then []
    else DupDiags(ctx, maxRepeat, ss[..|ss| - 1]) + DupScan(ctx, ss[|ss| - 1], maxRepeat, |ctx.tokens|).1
  }

  /** `checkDuplicateParticleSurface`: the scan above over every sentence; nothing when `maxRepeat <= 0`. */
  function DuplicateParticleDiags(ctx: RuleContext, maxRepeat: int): seq<Diagnostic>
    requires ValidContext(ctx)
  {
    if maxRepeat <= 0 then [] else DupDiags(ctx, maxRepeat, ctx.sentences)
  }

  method CheckDuplicateParticleSurface(ctx: RuleContext, diags: seq<Diagnostic>, maxRepeat: int)
    returns (out: seq<Diagnostic>)
    requires ValidContext(ctx)
    ensures out == diags + DuplicateParticleDiags(ctx, maxRepeat)
  {
    out := diags;
    if maxRepeat <= 0 {
      return;
    }
    for j := 0 to |ctx.sentences|
      invariant out == diags + DupDiags(ctx, maxRepeat, ctx.sentences[..j])
    {
      assert ctx.sentences[..j + 1][..j] == ctx.sentences[..j];
      var found := ScanDuplicateParticles(ctx, ctx.sentences[j], maxRepeat);
      TextProcessor.AppendAssociative(diags, DupDiags(ctx, maxRepeat, ctx.sentences[..j]), found);
      out := out + found;
    }
    assert ctx.sentences[..|ctx.sentences|] == ctx.sentences;
  }

  /** The token loop of `checkDuplicateParticleSurface` for one sentence. */
  method ScanDuplicateParticles(ctx: RuleContext, sentence: SentenceBoundary, maxRepeat: int)
    returns (found: seq<Diagnostic>)
    requires ValidContext(ctx)
    ensures found == DupScan(ctx, sentence, maxRepeat, |ctx.tokens|).1
  {
    found := [];
    var st := DupStart;
    for i := 0 to |ctx.tokens|
      invariant (st, found) == DupScan(ctx, sentence, maxRepeat, i)
    {
      var reported;
      st, reported := DuplicateParticleStep(ctx, sentence, maxRepeat, st, i);
      found := found + reported;
    }
  }

  /** The body of the scan loop for token `i`: the streak variables are the fields of `st`. */
  method DuplicateParticleStep(ctx: RuleContext, sentence: SentenceBoundary, maxRepeat: int, st: DupState, i: nat)
    returns (next: DupState, reported: seq<Diagnostic>)
    requires ValidContext(ctx) && i < |ctx.tokens|
    ensures (next, reported) == DupStep(ctx, sentence, maxRepeat, st, i)
  {
    next, reported := st, [];
    var token := ctx.tokens[i];
    var bytePos := ctx.tokenBytePositions[i];
    if !InSentence(bytePos, sentence) {
      return;
    }
    if !IsParticle(token.feature) {
      return;
    }
    var currentKey := ParticleKey(token.feature);
    if st.hasLast && token.surface == st.lastSurface && currentKey == st.lastKey {
      var streak := st.streak + 1;
      if streak > maxRepeat {
        var range := MakeRange(ctx, st.lastStartByte, bytePos + |token.surface|);
        reported := [Diagnostic(range, ctx.severity, DuplicateParticle(token.surface))];
      }
      next := DupState(token.surface, currentKey, st.lastStartByte, streak, true);
    } else {
      next := DupState(token.surface, currentKey, bytePos, 1, true);
    }
  }

  /** Token `i` is a particle whose start byte lies in the sentence. */
  predicate ParticleIn(ctx: RuleContext, s: SentenceBoundary, i: nat)
    requires ValidContext(ctx) && i < |ctx.tokens|
  {
    InSentence(ctx.tokenBytePositions[i], s) && IsParticle(ctx.tokens[i].feature)
  }

  /** Particles of the sentence among the first `n` tokens. */
  function ParticleCount(ctx: RuleContext, s: SentenceBoundary, n: nat): nat
    requires ValidContext(ctx) && n <= |ctx.tokens|
  {
    if n == 0 then 0
    else ParticleCount(ctx, s, n - 1) + (if ParticleIn(ctx, s, n - 1) then 1 else 0)
  }

  /** The last particle of the sentence before token `n`, if there is one. */
  function LastParticle(ctx: RuleContext, s: SentenceBoundary, n: nat): (r: Option<nat>)
    requires ValidContext(ctx) && n <= |ctx.tokens|
    ensures r.Some? ==> r.value < n && ParticleIn(ctx, s, r.value)
    ensures r.Some? ==> forall k :: r.value < k < n ==> !ParticleIn(ctx, s, k)
    ensures r.None? ==> forall k :: 0 <= k < n ==> !ParticleIn(ctx, s, k)
  {
    if n == 0 then None
    else if ParticleIn(ctx, s, n - 1) then Some(n - 1)
    else LastParticle(ctx, s, n - 1)
  }

  /** Tokens `i` and `j` have the same surface and the same particle key. */
  predicate DupSame(ctx: RuleContext, i: nat, j: nat)
    requires ValidContext(ctx) && i < |ctx.tokens| && j < |ctx.tokens|
  {
    ctx.tokens[i].surface == ctx.tokens[j].surface && ParticleKey(ctx.tokens[i].feature) == ParticleKey(ctx.tokens[j].feature)
  }

  /**
   * The streak of same-surface, same-key particles that ends at token `j`:
   * one more than the streak of the sentence's previous particle when the
   * two match, and 1 otherwise.  Tokens that are not particles of the
   * sentence are passed over.
   */
  function DupChain(ctx: RuleContext, s: SentenceBoundary, j: nat): (c: nat)
    requires ValidContext(ctx) && j < |ctx.tokens|
    ensures c >= 1
    decreases j
  {
    match LastParticle(ctx, s, j)
    case None => 1
    case Some(i) => if DupSame(ctx, i, j) then DupChain(ctx, s, i) + 1 else 1
  }

  /** The first particle of the streak that ends at token `j`. */
  function DupFirst(ctx: RuleContext, s: SentenceBoundary, j: nat): (f: nat)
    requires ValidContext(ctx) && j < |ctx.tokens|
    ensures f <= j
    decreases j
  {
    match LastParticle(ctx, s, j)
    case None => j
    case Some(i) => if DupSame(ctx, i, j) then DupFirst(ctx, s, i) else j
  }

  /** The report due at token `j`: a particle that repeats the previous one, once its streak is longer than `maxRepeat`, from the streak's first particle. */
  function DupReportAt(ctx: RuleContext, s: SentenceBoundary, maxRepeat: int, j: nat): seq<Diagnostic>
    requires ValidContext(ctx) && j < |ctx.tokens|
  {
    if !ParticleIn(ctx, s, j) then []
    else
      match LastParticle(ctx, s, j)
      case None => []
      case Some(i) =>
        if DupSame(ctx, i, j) && DupChain(ctx, s, j) > maxRepeat
        then [Diagnostic(RangeOf(ctx, ctx.tokenBytePositions[DupFirst(ctx, s, j)], ctx.tokenBytePositions[j] + |ctx.tokens[j].surface|),
                         ctx.severity, DuplicateParticle(ctx.tokens[j].surface))]
        else []
  }

  /** The reports due at the first `n` tokens, in token order. */
  function DupReference(ctx: RuleContext, s: SentenceBoundary, maxRepeat: int, n: nat): seq<Diagnostic>
    requires ValidContext(ctx) && n <= |ctx.tokens|
  {
    if n == 0 then [] else DupReference(ctx, s, maxRepeat, n - 1) + DupReportAt(ctx, s, maxRepeat, n - 1)
  }

  /** The scan state after `n` tokens holds the sentence's last particle so far, its streak and the streak's first byte. */
  predicate DupTracks(ctx: RuleContext, s: SentenceBoundary, n: nat, st: DupState)
    requires ValidContext(ctx) && n <= |ctx.tokens|
  {
    match LastParticle(ctx, s, n)
    case None => !st.hasLast
    case Some(i) =>
      && st.hasLast && st.lastSurface == ctx.tokens[i].surface
      && st.lastKey == ParticleKey(ctx.tokens[i].feature)
      && st.lastStartByte == ctx.tokenBytePositions[DupFirst(ctx, s, i)]
      && st.streak == DupChain(ctx, s, i)
  }

  /** With the state tracking the sentence, the scan extends the streak exactly when the particle repeats the previous one. */
  lemma DupExtendsAtSame(ctx: RuleContext, s: SentenceBoundary, st: DupState, n: nat)
    requires ValidContext(ctx) && n < |ctx.tokens| && DupTracks(ctx, s, n, st)
    ensures (st.hasLast && ctx.tokens[n].surface == st.lastSurface && ParticleKey(ctx.tokens[n].feature) == st.lastKey)
        <==> LastParticle(ctx, s, n).Some? && DupSame(ctx, LastParticle(ctx, s, n).value, n)
  {
  }

  lemma DupStepParticle(ctx: RuleContext, s: SentenceBoundary, maxRepeat: int, st: DupState, n: nat)
    requires ValidContext(ctx) && n < |ctx.tokens| && ParticleIn(ctx, s, n)
    requires DupTracks(ctx, s, n, st)
    ensures DupTracks(ctx, s, n + 1, DupStep(ctx, s, maxRepeat, st, n).0)
    ensures DupStep(ctx, s, maxRepeat, st, n).1 == DupReportAt(ctx, s, maxRepeat, n)
  {
    DupExtendsAtSame(ctx, s, st, n);
    assert LastParticle(ctx, s, n + 1) == Some(n);
  }

  lemma DupStepOther(ctx: RuleContext, s: SentenceBoundary, maxRepeat: int, st: DupState, n: nat)
    requires ValidContext(ctx) && n < |ctx.tokens| && !ParticleIn(ctx, s, n)
    requires DupTracks(ctx, s, n, st)
    ensures DupTracks(ctx, s, n + 1, DupStep(ctx, s, maxRepeat, st, n).0)
    ensures DupStep(ctx, s, maxRepeat, st, n).1 == DupReportAt(ctx, s, maxRepeat, n)
  {
    assert DupStep(ctx, s, maxRepeat, st, n) == (st, []);
    assert LastParticle(ctx, s, n + 1) == LastParticle(ctx, s, n);
  }

  /** One more token of the scan keeps the state tracking the sentence and adds the report due at that token. */
  lemma DupScanNextTracks(ctx: RuleContext, s: SentenceBoundary, maxRepeat: int, n: nat)
    requires ValidContext(ctx) && 0 < n <= |ctx.tokens|
    requires DupTracks(ctx, s, n - 1, DupScan(ctx, s, maxRepeat, n - 1).0)
    requires DupScan(ctx, s, maxRepeat, n - 1).1 == DupReference(ctx, s, maxRepeat, n - 1)
    ensures DupTracks(ctx, s, n, DupScan(ctx, s, maxRepeat, n).0)
    ensures DupScan(ctx, s, maxRepeat, n).1 == DupReference(ctx, s, maxRepeat, n)
  {
    var p := DupScan(ctx, s, maxRepeat, n - 1);
    var q := DupStep(ctx, s, maxRepeat, p.0, n - 1);
    if ParticleIn(ctx, s, n - 1) {
      DupStepParticle(ctx, s, maxRepeat, p.0, n - 1);
    } else {
      DupStepOther(ctx, s, maxRepeat, p.0, n - 1);
    }
    assert DupScan(ctx, s, maxRepeat, n) == (q.0, p.1 + q.1);
    assert DupReference(ctx, s, maxRepeat, n) == p.1 + DupReportAt(ctx, s, maxRepeat, n - 1);
  }

  lemma {:induction false} DupScanTracks(ctx: RuleContext, s: SentenceBoundary, maxRepeat: int, n: nat)
    requires ValidContext(ctx) && n <= |ctx.tokens|
    ensures DupTracks(ctx, s, n, DupScan(ctx, s, maxRepeat, n).0)
    ensures DupScan(ctx, s, maxRepeat, n).1 == DupReference(ctx, s, maxRepeat, n)
  {
    if n > 0 {
      DupScanTracks(ctx, s, maxRepeat, n - 1);
      DupScanNextTracks(ctx, s, maxRepeat, n);
    } else {
      assert LastParticle(ctx, s, 0) == None;
    }
  }

  /**
   * The duplicate-particle scan of a sentence reports exactly what is due,
   * over the first `n` tokens and so over all of them: at every particle
   * that repeats the surface and key of the sentence's previous particle,
   * once the streak is longer than `maxRepeat`, one report from the
   * streak's first particle to this one, and nothing anywhere else.
   */
  lemma DuplicateReportsExactly(ctx: RuleContext, s: SentenceBoundary, maxRepeat: int, n: nat)
    requires ValidContext(ctx) && n <= |ctx.tokens|
    ensures DupScan(ctx, s, maxRepeat, n).1 == DupReference(ctx, s, maxRepeat, n)
  {
    DupScanTracks(ctx, s, maxRepeat, n);
  }

  /** The particle `first` does not repeat the sentence's previous particle, so a streak starts there. */
  predicate StartsDupRun(ctx: RuleContext, s: SentenceBoundary, first: nat)
    requires ValidContext(ctx) && first < |ctx.tokens|
  {
    && ParticleIn(ctx, s, first)
    && match LastParticle(ctx, s, first) case None => true case Some(i) => !DupSame(ctx, i, first)
  }

  /** Every particle of the sentence in tokens `first` to `n - 1` has the surface and key of `first`. */
  predicate DupRunThrough(ctx: RuleContext, s: SentenceBoundary, first: nat, n: nat)
    requires ValidContext(ctx) && first <= n <= |ctx.tokens|
  {
    forall i :: first <= i < n && ParticleIn(ctx, s, i) ==> DupSame(ctx, first, i)
  }

  /** With no particle of the sentence in tokens `a` to `b - 1`, the count does not change over them. */
  lemma {:induction false} ParticleCountFlat(ctx: RuleContext, s: SentenceBoundary, a: nat, b: nat)
    requires ValidContext(ctx) && a <= b <= |ctx.tokens|
    requires forall k :: a <= k < b ==> !ParticleIn(ctx, s, k)
    ensures ParticleCount(ctx, s, b) == ParticleCount(ctx, s, a)
    decreases b
  {
    if a < b {
      ParticleCountFlat(ctx, s, a, b - 1);
    }
  }

  /** Inside a run, the particle before a later particle of the run is itself in the run and matches it. */
  lemma DupRunPrevious(ctx: RuleContext, s: SentenceBoundary, first: nat, n: nat, j: nat)
    requires ValidContext(ctx) && first < j < n <= |ctx.tokens|
    requires ParticleIn(ctx, s, first) && DupRunThrough(ctx, s, first, n) && ParticleIn(ctx, s, j)
    ensures LastParticle(ctx, s, j).Some?
    ensures var i := LastParticle(ctx, s, j).value;
      first <= i && DupSame(ctx, i, j) && ParticleCount(ctx, s, j + 1) == ParticleCount(ctx, s, i + 1) + 1
  {
    var i := LastParticle(ctx, s, j).value;
    assert first <= i;
    assert DupSame(ctx, first, i) && DupSame(ctx, first, j);
    ParticleCountFlat(ctx, s, i + 1, j);
  }

  /** Inside a run, every particle's streak starts at `first` and counts the run's particles so far. */
  lemma {:induction false} DupRunChain(ctx: RuleContext, s: SentenceBoundary, first: nat, n: nat, j: nat)
    requires ValidContext(ctx) && first <= j < n <= |ctx.tokens|
    requires StartsDupRun(ctx, s, first) && DupRunThrough(ctx, s, first, n) && ParticleIn(ctx, s, j)
    ensures DupFirst(ctx, s, j) == first
    ensures DupChain(ctx, s, j) == ParticleCount(ctx, s, j + 1) - ParticleCount(ctx, s, first)
    decreases j
  {
    if j > first {
      DupRunPrevious(ctx, s, first, n, j);
      var i := LastParticle(ctx, s, j).value;
      DupRunChain(ctx, s, first, n, i);
    } else {
      assert ParticleCount(ctx, s, first + 1) == ParticleCount(ctx, s, first) + 1;
    }
  }

  /** What the reports due at token `j` of a run starting at `first` are: their number and their start. */
  predicate DupStepCounted(ctx: RuleContext, s: SentenceBoundary, maxRepeat: int, first: nat, j: nat)
    requires ValidContext(ctx) && first <= j < |ctx.tokens|
  {
    && ParticleCount(ctx, s, first) <= ParticleCount(ctx, s, j)
    && |DupReportAt(ctx, s, maxRepeat, j)|
       == (if ParticleIn(ctx, s, j) && ParticleCount(ctx, s, j) - ParticleCount(ctx, s, first) + 1 > maxRepeat then 1 else 0)
    && forall r :: r in DupReportAt(ctx, s, maxRepeat, j) ==>
         r.range.start == PositionOf(ctx.text, ctx.lineStarts, ctx.tokenBytePositions[first])
  }

  /** The report due at token `j` of a run: one once the run's particles so far, `j` included, exceed `maxRepeat`. */
  lemma DupRunReportAt(ctx: RuleContext, s: SentenceBoundary, maxRepeat: int, first: nat, n: nat, j: nat)
    requires ValidContext(ctx) && first <= j < n <= |ctx.tokens| && maxRepeat >= 1
    requires StartsDupRun(ctx, s, first) && DupRunThrough(ctx, s, first, n)
    ensures DupStepCounted(ctx, s, maxRepeat, first, j)
  {
    ParticleCountMonotone(ctx, s, first, j);
    if ParticleIn(ctx, s, j) {
      DupRunChain(ctx, s, first, n, j);
      if j > first {
        DupRunPrevious(ctx, s, first, n, j);
      }
    }
  }

  lemma {:induction false} ParticleCountMonotone(ctx: RuleContext, s: SentenceBoundary, a: nat, b: nat)
    requires ValidContext(ctx) && a <= b <= |ctx.tokens|
    ensures ParticleCount(ctx, s, a) <= ParticleCount(ctx, s, b)
    decreases b
  {
    if a < b {
      ParticleCountMonotone(ctx, s, a, b - 1);
    }
  }

  /** One more token adds one to the count exactly when it is a particle of the sentence. */
  lemma ParticleCountStep(ctx: RuleContext, s: SentenceBoundary, n: nat)
    requires ValidContext(ctx) && 0 < n <= |ctx.tokens|
    ensures ParticleCount(ctx, s, n) == ParticleCount(ctx, s, n - 1) + (if ParticleIn(ctx, s, n - 1) then 1 else 0)
  {
  }

  /** One more token adds its own reports to the reference. */
  lemma DupReferenceStep(ctx: RuleContext, s: SentenceBoundary, maxRepeat: int, n: nat)
    requires ValidContext(ctx) && 0 < n <= |ctx.tokens|
    ensures DupReference(ctx, s, maxRepeat, n) == DupReference(ctx, s, maxRepeat, n - 1) + DupReportAt(ctx, s, maxRepeat, n - 1)
  {
  }

  /** The reports due at tokens `a` to `n - 1`, in token order. */
  function DupBetween(ctx: RuleContext, s: SentenceBoundary, maxRepeat: int, a: nat, n: nat): seq<Diagnostic>
    requires ValidContext(ctx) && a <= n <= |ctx.tokens|
    decreases n
  {
    if n == a then [] else DupBetween(ctx, s, maxRepeat, a, n - 1) + DupReportAt(ctx, s, maxRepeat, n - 1)
  }

  /** The reports due at the first `n` tokens are those due before `a` followed by those due from `a` on. */
  lemma {:induction false} DupReferenceSplit(ctx: RuleContext, s: SentenceBoundary, maxRepeat: int, a: nat, n: nat)
    requires ValidContext(ctx) && a <= n <= |ctx.tokens|
    ensures DupReference(ctx, s, maxRepeat, n) == DupReference(ctx, s, maxRepeat, a) + DupBetween(ctx, s, maxRepeat, a, n)
    decreases n
  {
    if n > a {
      DupReferenceSplit(ctx, s, maxRepeat, a, n - 1);
      DupReferenceStep(ctx, s, maxRepeat, n);
      TextProcessor.AppendAssociative(DupReference(ctx, s, maxRepeat, a), DupBetween(ctx, s, maxRepeat, a, n - 1),
                                      DupReportAt(ctx, s, maxRepeat, n - 1));
    } else {
      assert DupReference(ctx, s, maxRepeat, a) + [] == DupReference(ctx, s, maxRepeat, a);
    }
  }

  /**
   * Appending the reports due at one more token of a run keeps the run's
   * count and start; `pf`, `pj` and `pn` count the particles before the
   * run's first token, before the token and after it.
   */
  lemma ReportsGrowByRun(prev: seq<Diagnostic>, at: seq<Diagnostic>, pf: int, pj: int, pn: int, grows: bool,
                         maxRepeat: int, start: Position)
    requires maxRepeat >= 1 && pf <= pj
    requires |prev| == Excess(pj - pf, maxRepeat) && forall r :: r in prev ==> r.range.start == start
    requires pn == pj + (if grows then 1 else 0)
    requires |at| == (if grows && pj - pf + 1 > maxRepeat then 1 else 0)
    requires forall r :: r in at ==> r.range.start == start
    ensures pf <= pn && |prev + at| == Excess(pn - pf, maxRepeat)
    ensures forall r :: r in prev + at ==> r.range.start == start
  {
  }

  /** What a run has added over tokens `first` to `n - 1`. */
  predicate DupRunCounted(ctx: RuleContext, s: SentenceBoundary, maxRepeat: int, first: nat, n: nat)
    requires ValidContext(ctx) && first <= n <= |ctx.tokens| && first < |ctx.tokens|
  {
    var run := DupBetween(ctx, s, maxRepeat, first, n);
    && ParticleCount(ctx, s, first) <= ParticleCount(ctx, s, n)
    && |run| == Excess(ParticleCount(ctx, s, n) - ParticleCount(ctx, s, first), maxRepeat)
    && forall r :: r in run ==> r.range.start == PositionOf(ctx.text, ctx.lineStarts, ctx.tokenBytePositions[first])
  }

  lemma DupRunStepsCounted(ctx: RuleContext, s: SentenceBoundary, maxRepeat: int, first: nat, n: nat)
    requires ValidContext(ctx) && first < n <= |ctx.tokens| && maxRepeat >= 1
    requires StartsDupRun(ctx, s, first) && DupRunThrough(ctx, s, first, n)
    ensures forall j :: first <= j < n ==> DupStepCounted(ctx, s, maxRepeat, first, j)
  {
    forall j | first <= j < n
      ensures DupStepCounted(ctx, s, maxRepeat, first, j)
    {
      DupRunReportAt(ctx, s, maxRepeat, first, n, j);
    }
  }

  lemma DupRunCountStep(ctx: RuleContext, s: SentenceBoundary, maxRepeat: int, first: nat, n: nat)
    requires ValidContext(ctx) && first < n <= |ctx.tokens| && maxRepeat >= 1
    requires DupRunCounted(ctx, s, maxRepeat, first, n - 1)
    requires DupStepCounted(ctx, s, maxRepeat, first, n - 1)
    ensures DupRunCounted(ctx, s, maxRepeat, first, n)
  {
    var prev := DupBetween(ctx, s, maxRepeat, first, n - 1);
    var at := DupReportAt(ctx, s, maxRepeat, n - 1);
    var start := PositionOf(ctx.text, ctx.lineStarts, ctx.tokenBytePositions[first]);
    ParticleCountStep(ctx, s, n);
    ReportsGrowByRun(prev, at, ParticleCount(ctx, s, first), ParticleCount(ctx, s, n - 1), ParticleCount(ctx, s, n),
                     ParticleIn(ctx, s, n - 1), maxRepeat, start);
    assert DupBetween(ctx, s, maxRepeat, first, n) == prev + at;
  }

  lemma DupRunCountedEmpty(ctx: RuleContext, s: SentenceBoundary, maxRepeat: int, first: nat)
    requires ValidContext(ctx) && first < |ctx.tokens| && maxRepeat >= 1
    ensures DupRunCounted(ctx, s, maxRepeat, first, first)
  {
    assert DupBetween(ctx, s, maxRepeat, first, first) == [];
  }

  lemma {:induction false} DupRunCounts(ctx: RuleContext, s: SentenceBoundary, maxRepeat: int, first: nat, n: nat)
    requires ValidContext(ctx) && first < |ctx.tokens| && first <= n <= |ctx.tokens| && maxRepeat >= 1
    requires forall j :: first <= j < n ==> DupStepCounted(ctx, s, maxRepeat, first, j)
    ensures DupRunCounted(ctx, s, maxRepeat, first, n)
    decreases n
  {
    if n == first {
      DupRunCountedEmpty(ctx, s, maxRepeat, first);
    } else {
      DupRunCounts(ctx, s, maxRepeat, first, n - 1);
      DupRunCountStep(ctx, s, maxRepeat, first, n);
    }
  }

  lemma DupRunCountedFromRun(ctx: RuleContext, s: SentenceBoundary, maxRepeat: int, first: nat, n: nat)
    requires ValidContext(ctx) && first < n <= |ctx.tokens| && maxRepeat >= 1
    requires StartsDupRun(ctx, s, first) && DupRunThrough(ctx, s, first, n)
    ensures DupRunCounted(ctx, s, maxRepeat, first, n)
  {
    DupRunStepsCounted(ctx, s, maxRepeat, first, n);
    DupRunCounts(ctx, s, maxRepeat, first, n);
  }

  /**
   * A run of particles of the same surface and key in one sentence, with
   * any other tokens between them, starting at particle `first` that does
   * not repeat the sentence's previous particle: the reports due at tokens
   * `first` to `n - 1` follow those due before, they are `max(0, m -
   * maxRepeat)` for the run's `m` particles, and each starts at the run's
   * first particle.
   */
  lemma DuplicateRun(ctx: RuleContext, s: SentenceBoundary, maxRepeat: int, first: nat, n: nat)
    requires ValidContext(ctx) && first < n <= |ctx.tokens| && maxRepeat >= 1
    requires StartsDupRun(ctx, s, first) && DupRunThrough(ctx, s, first, n)
    ensures DupReference(ctx, s, maxRepeat, n)
         == DupReference(ctx, s, maxRepeat, first) + DupBetween(ctx, s, maxRepeat, first, n)
    ensures |DupBetween(ctx, s, maxRepeat, first, n)|
         == Excess(ParticleCount(ctx, s, n) - ParticleCount(ctx, s, first), maxRepeat)
    ensures forall r :: r in DupBetween(ctx, s, maxRepeat, first, n) ==>
      r.range.start == PositionOf(ctx.text, ctx.lineStarts, ctx.tokenBytePositions[first])
  {
    DupReferenceSplit(ctx, s, maxRepeat, first, n);
    DupRunCountedFromRun(ctx, s, maxRepeat, first, n);
  }

  /**
   * Tokens outside the sentence and tokens that are not particles leave the
   * scan state unchanged and report nothing; a report starts at the first
   * particle of the current streak.
   */
  lemma DupStepFacts(ctx: RuleContext, s: SentenceBoundary, maxRepeat: int, st: DupState, i: nat)
    requires ValidContext(ctx) && i < |ctx.tokens|
    ensures var r := DupStep(ctx, s, maxRepeat, st, i);
      && (!ParticleIn(ctx, s, i) ==> r == (st, []))
      && |r.1| <= 1
      && (|r.1| == 1 ==>
            r.1[0].severity == ctx.severity && r.1[0].message.DuplicateParticle?
            && r.1[0].range.start == PositionOf(ctx.text, ctx.lineStarts, st.lastStartByte))
  {
  }

  // ---------------------------------------------------------------------------
  // Rule 4: adjacent particles of the same kind

  /** The scan state of the adjacent-particle rule within one sentence. */
  datatype AdjState = AdjState(prevIsParticle: bool, prevKey: Bytes, prevToken: TokenData, prevStartByte: nat, streak: int)

  const NoToken := TokenData(0, 0, 0, "", 0, [], [], [], [], [])

  const AdjStart := AdjState(false, [], NoToken, 0, 1)

  /**
   * One token of the adjacent-particle scan.  A particle that starts right
   * where the previous token of the sentence (a particle with the same key)
   * ends extends the streak, and past `maxRepeat` reports a range from the
   * previous particle to the end of this one.  Any other token of the
   * sentence resets the streak; tokens outside the sentence are skipped.
   */
  function AdjStep(ctx: RuleContext, s: SentenceBoundary, maxRepeat: int, st: AdjState, i: nat)
    : (AdjState, seq<Diagnostic>)
    requires ValidContext(ctx) && i < |ctx.tokens|
  {
    var token := ctx.tokens[i];
    var bytePos := ctx.tokenBytePositions[i];
    if !InSentence(bytePos, s) then (st, [])
    else
      var isParticle := IsParticle(token.feature);
      var key := ParticleKey(token.feature);
      if isParticle && st.prevIsParticle && key == st.prevKey
         && bytePos == st.prevStartByte + |st.prevToken.surface|
      then
        var streak := st.streak + 1;
        var e := if streak > maxRepeat
          then [Diagnostic(RangeOf(ctx, st.prevStartByte, bytePos + |token.surface|), ctx.severity, AdjacentParticles)]
          else [];
        (AdjState(true, key, token, bytePos, streak), e)
      else if isParticle then (AdjState(true, key, token, bytePos, 1), [])
      else (AdjState(false, st.prevKey, st.prevToken, st.prevStartByte, 1), [])
  }

  function AdjScan(ctx: RuleContext, s: SentenceBoundary, maxRepeat: int, n: nat): (AdjState, seq<Diagnostic>)
    requires ValidContext(ctx) && n <= |ctx.tokens|
  {
    if n == 0 then (AdjStart, [])
    else
      var p := AdjScan(ctx, s, maxRepeat, n - 1);
      var q := AdjStep(ctx, s, maxRepeat, p.0, n - 1);
      (q.0, p.1 + q.1)
  }

  function AdjDiags(ctx: RuleContext, maxRepeat: int, ss: seq<SentenceBoundary>): seq<Diagnostic>
    requires ValidContext(ctx)
  {
    if |ss| == 0 then []
    else AdjDiags(ctx, maxRepeat, ss[..|ss| - 1]) + AdjScan(ctx, ss[|ss| - 1], maxRepeat, |ctx.tokens|).1
  }

  /** `checkAdjacentParticles`: the scan above over every sentence; nothing when `maxRepeat <= 0`. */
  function AdjacentParticleDiags(ctx: RuleContext, maxRepeat: int): seq<Diagnostic>
    requires ValidContext(ctx)
  {
    if maxRepeat <= 0 then [] else AdjDiags(ctx, maxRepeat, ctx.sentences)
  }

  method CheckAdjacentParticles(ctx: RuleContext, diags: seq<Diagnostic>, maxRepeat: int)
    returns (out: seq<Diagnostic>)
    requires ValidContext(ctx)
    ensures out == diags + AdjacentParticleDiags(ctx, maxRepeat)
  {
    out := diags;
    if maxRepeat <= 0 {
      return;
    }
    for j := 0 to |ctx.sentences|
      invariant out == diags + AdjDiags(ctx, maxRepeat, ctx.sentences[..j])
    {
      assert ctx.sentences[..j + 1][..j] == ctx.sentences[..j];
      var found := ScanAdjacentParticles(ctx, ctx.sentences[j], maxRepeat);
      TextProcessor.AppendAssociative(diags, AdjDiags(ctx, maxRepeat, ctx.sentences[..j]), found);
      out := out + found;
    }
    assert ctx.sentences[..|ctx.sentences|] == ctx.sentences;
  }

  /** The token loop of `checkAdjacentParticles` for one sentence. */
  method ScanAdjacentParticles(ctx: RuleContext, sentence: SentenceBoundary, maxRepeat: int)
    returns (found: seq<Diagnostic>)
    requires ValidContext(ctx)
    ensures found == AdjScan(ctx, sentence, maxRepeat, |ctx.tokens|).1
  {
    found := [];
    var st := AdjStart;
    for i := 0 to |ctx.tokens|
      invariant (st, found) == AdjScan(ctx, sentence, maxRepeat, i)
    {
      var reported;
      st, reported := AdjacentParticleStep(ctx, sentence, maxRepeat, st, i);
      found := found + reported;
    }
  }

  /** The body of the scan loop for token `i`: the previous-particle variables are the fields of `st`. */
  method AdjacentParticleStep(ctx: RuleContext, sentence: SentenceBoundary, maxRepeat: int, st: AdjState, i: nat)
    returns (next: AdjState, reported: seq<Diagnostic>)
    requires ValidContext(ctx) && i < |ctx.tokens|
    ensures (next, reported) == AdjStep(ctx, sentence, maxRepeat, st, i)
  {
    next, reported := st, [];
    var token := ctx.tokens[i];
    var bytePos := ctx.tokenBytePositions[i];
    if !InSentence(bytePos, sentence) {
      return;
    }
    var currentIsParticle := IsParticle(token.feature);
    var currentKey := ParticleKey(token.feature);
    if currentIsParticle && st.prevIsParticle && currentKey == st.prevKey
       && bytePos == st.prevStartByte + |st.prevToken.surface| {
      var streak := st.streak + 1;
      if streak > maxRepeat {
        var range := MakeRange(ctx, st.prevStartByte, bytePos + |token.surface|);
        reported := [Diagnostic(range, ctx.severity, AdjacentParticles)];
      }
      next := AdjState(true, currentKey, token, bytePos, streak);
    } else if currentIsParticle {
      next := AdjState(true, currentKey, token, bytePos, 1);
    } else {
      next := AdjState(false, st.prevKey, st.prevToken, st.prevStartByte, 1);
    }
  }

  /** Token `i` is the last token before `n` whose start byte lies in the sentence. */
  predicate LastInSentence(ctx: RuleContext, s: SentenceBoundary, i: nat, n: nat)
    requires ValidContext(ctx) && i < n <= |ctx.tokens|
  {
    InSentence(ctx.tokenBytePositions[i], s)
    && forall k :: i < k < n ==> !InSentence(ctx.tokenBytePositions[k], s)
  }

  /** Two same-key particles of the sentence, `j` starting where `i` ends, with no token of the sentence between. */
  predicate AdjacentPair(ctx: RuleContext, s: SentenceBoundary, i: nat, j: nat)
    requires ValidContext(ctx) && i < j <= |ctx.tokens| - 1
  {
    ParticleIn(ctx, s, i) && ParticleIn(ctx, s, j) && LastInSentence(ctx, s, i, j)
    && ParticleKey(ctx.tokens[i].feature) == ParticleKey(ctx.tokens[j].feature)
    && ctx.tokenBytePositions[j] == ctx.tokenBytePositions[i] + |ctx.tokens[i].surface|
  }

  /** Each report of the adjacent-particle scan spans one adjacent pair: the previous particle through the current one. */
  predicate AdjReportsPairs(ctx: RuleContext, s: SentenceBoundary, n: nat, ds: seq<Diagnostic>)
    requires ValidContext(ctx) && n <= |ctx.tokens|
  {
    forall d :: d in ds ==>
      exists i, j :: 0 <= i < j < n && AdjacentPair(ctx, s, i, j)
        && d == Diagnostic(RangeOf(ctx, ctx.tokenBytePositions[i], ctx.tokenBytePositions[j] + |ctx.tokens[j].surface|),
                           ctx.severity, AdjacentParticles)
  }

  lemma ReportsGrow(ctx: RuleContext, s: SentenceBoundary, n: nat, ds: seq<Diagnostic>)
    requires ValidContext(ctx) && n < |ctx.tokens|
    requires AdjReportsPairs(ctx, s, n, ds)
    ensures AdjReportsPairs(ctx, s, n + 1, ds)
  {
    forall d | d in ds
      ensures exists a, b :: (0 <= a < b < n + 1 && AdjacentPair(ctx, s, a, b)
        && d == Diagnostic(RangeOf(ctx, ctx.tokenBytePositions[a], ctx.tokenBytePositions[b] + |ctx.tokens[b].surface|),
                           ctx.severity, AdjacentParticles))
    {
      var a, b :| 0 <= a < b < n && AdjacentPair(ctx, s, a, b)
        && d == Diagnostic(RangeOf(ctx, ctx.tokenBytePositions[a], ctx.tokenBytePositions[b] + |ctx.tokens[b].surface|),
                           ctx.severity, AdjacentParticles);
    }
  }

  lemma ReportsConcat(ctx: RuleContext, s: SentenceBoundary, n: nat, a: seq<Diagnostic>, b: seq<Diagnostic>)
    requires ValidContext(ctx) && n <= |ctx.tokens|
    requires AdjReportsPairs(ctx, s, n, a) && AdjReportsPairs(ctx, s, n, b)
    ensures AdjReportsPairs(ctx, s, n, a + b)
  {
  }

  /**
   * Every report of the adjacent-particle rule spans exactly two particles of
   * one sentence with the same key, the second starting where the first
   * ends and no token of the sentence between them.
   */
  lemma AdjacentReportsSpanPairs(ctx: RuleContext, s: SentenceBoundary, maxRepeat: int)
    requires ValidContext(ctx)
    ensures AdjReportsPairs(ctx, s, |ctx.tokens|, AdjScan(ctx, s, maxRepeat, |ctx.tokens|).1)
  {
    AdjScanTracks(ctx, s, maxRepeat, |ctx.tokens|);
    ReferenceSpansPairs(ctx, s, maxRepeat, |ctx.tokens|);
  }

  lemma {:induction false} ReferenceSpansPairs(ctx: RuleContext, s: SentenceBoundary, maxRepeat: int, n: nat)
    requires ValidContext(ctx) && n <= |ctx.tokens|
    ensures AdjReportsPairs(ctx, s, n, AdjReference(ctx, s, maxRepeat, n))
  {
    if n > 0 {
      var before := AdjReference(ctx, s, maxRepeat, n - 1);
      var r := AdjReportAt(ctx, s, maxRepeat, n - 1);
      ReferenceSpansPairs(ctx, s, maxRepeat, n - 1);
      ReportsGrow(ctx, s, n - 1, before);
      ReportAtSpansPair(ctx, s, maxRepeat, n - 1);
      ReportsConcat(ctx, s, n, before, r);
      assert AdjReference(ctx, s, maxRepeat, n) == before + r;
    }
  }

  /** The report due at token `j` spans the adjacent pair that ends there. */
  lemma ReportAtSpansPair(ctx: RuleContext, s: SentenceBoundary, maxRepeat: int, j: nat)
    requires ValidContext(ctx) && j < |ctx.tokens|
    ensures AdjReportsPairs(ctx, s, j + 1, AdjReportAt(ctx, s, maxRepeat, j))
  {
    var r := AdjReportAt(ctx, s, maxRepeat, j);
    if |r| > 0 {
      var i := LastIn(ctx, s, j).value;
      assert AdjacentPair(ctx, s, i, j);
      assert r == [Diagnostic(RangeOf(ctx, ctx.tokenBytePositions[i], ctx.tokenBytePositions[j] + |ctx.tokens[j].surface|),
                              ctx.severity, AdjacentParticles)];
    }
  }

  /** The last token before `n` whose start byte lies in the sentence, if there is one. */
  function LastIn(ctx: RuleContext, s: SentenceBoundary, n: nat): (r: Option<nat>)
    requires ValidContext(ctx) && n <= |ctx.tokens|
    ensures r.Some? ==> r.value < n && LastInSentence(ctx, s, r.value, n)
    ensures r.None? ==> forall k :: 0 <= k < n ==> !InSentence(ctx.tokenBytePositions[k], s)
  {
    if n == 0 then None
    else if InSentence(ctx.tokenBytePositions[n - 1], s) then Some(n - 1)
    else LastIn(ctx, s, n - 1)
  }

  /**
   * The length of the chain of adjacent same-key particles that ends at
   * token `j`: one more than the chain of the sentence's previous token when
   * the two form an adjacent pair, and 1 otherwise, so that a token of the
   * sentence that is not a particle, another key or a byte gap starts over.
   */
  function AdjChain(ctx: RuleContext, s: SentenceBoundary, j: nat): (c: nat)
    requires ValidContext(ctx) && j < |ctx.tokens|
    ensures c >= 1
    decreases j
  {
    match LastIn(ctx, s, j)
    case None => 1
    case Some(i) => if AdjacentPair(ctx, s, i, j) then AdjChain(ctx, s, i) + 1 else 1
  }

  /** The report due at token `j`: the pair that ends there, once its chain is longer than `maxRepeat`. */
  function AdjReportAt(ctx: RuleContext, s: SentenceBoundary, maxRepeat: int, j: nat): seq<Diagnostic>
    requires ValidContext(ctx) && j < |ctx.tokens|
  {
    match LastIn(ctx, s, j)
    case None => []
    case Some(i) =>
      if AdjacentPair(ctx, s, i, j) && AdjChain(ctx, s, j) > maxRepeat
      then [Diagnostic(RangeOf(ctx, ctx.tokenBytePositions[i], ctx.tokenBytePositions[j] + |ctx.tokens[j].surface|),
                       ctx.severity, AdjacentParticles)]
      else []
  }

  /** The reports due at the first `n` tokens, in token order. */
  function AdjReference(ctx: RuleContext, s: SentenceBoundary, maxRepeat: int, n: nat): seq<Diagnostic>
    requires ValidContext(ctx) && n <= |ctx.tokens|
  {
    if n == 0 then [] else AdjReference(ctx, s, maxRepeat, n - 1) + AdjReportAt(ctx, s, maxRepeat, n - 1)
  }

  /**
   * The scan state after `n` tokens: when the sentence's last token so far
   * is a particle, the state holds that particle and its chain length as
   * the streak; otherwise no particle and a streak of 1.
   */
  predicate AdjTracks(ctx: RuleContext, s: SentenceBoundary, n: nat, st: AdjState)
    requires ValidContext(ctx) && n <= |ctx.tokens|
  {
    match LastIn(ctx, s, n)
    case None => !st.prevIsParticle && st.streak == 1
    case Some(i) =>
      if ParticleIn(ctx, s, i) then
        && st.prevIsParticle && st.prevToken == ctx.tokens[i]
        && st.prevStartByte == ctx.tokenBytePositions[i]
        && st.prevKey == ParticleKey(ctx.tokens[i].feature)
        && st.streak == AdjChain(ctx, s, i)
      else !st.prevIsParticle && st.streak == 1
  }

  /** With the state tracking the sentence, the scan extends the streak exactly at an adjacent pair. */
  lemma AdjExtendsAtPair(ctx: RuleContext, s: SentenceBoundary, st: AdjState, n: nat)
    requires ValidContext(ctx) && n < |ctx.tokens| && InSentence(ctx.tokenBytePositions[n], s)
    requires AdjTracks(ctx, s, n, st)
    ensures (&& IsParticle(ctx.tokens[n].feature) && st.prevIsParticle
             && ParticleKey(ctx.tokens[n].feature) == st.prevKey
             && ctx.tokenBytePositions[n] == st.prevStartByte + |st.prevToken.surface|)
        <==> LastIn(ctx, s, n).Some? && AdjacentPair(ctx, s, LastIn(ctx, s, n).value, n)
    ensures LastIn(ctx, s, n).Some? && AdjacentPair(ctx, s, LastIn(ctx, s, n).value, n) ==>
      && st.streak == AdjChain(ctx, s, LastIn(ctx, s, n).value)
      && st.prevStartByte == ctx.tokenBytePositions[LastIn(ctx, s, n).value]
  {
  }

  lemma AdjStepInside(ctx: RuleContext, s: SentenceBoundary, maxRepeat: int, st: AdjState, n: nat)
    requires ValidContext(ctx) && n < |ctx.tokens| && InSentence(ctx.tokenBytePositions[n], s)
    requires AdjTracks(ctx, s, n, st)
    ensures AdjTracks(ctx, s, n + 1, AdjStep(ctx, s, maxRepeat, st, n).0)
    ensures AdjStep(ctx, s, maxRepeat, st, n).1 == AdjReportAt(ctx, s, maxRepeat, n)
  {
    AdjExtendsAtPair(ctx, s, st, n);
    assert LastIn(ctx, s, n + 1) == Some(n);
  }

  lemma AdjStepOutside(ctx: RuleContext, s: SentenceBoundary, maxRepeat: int, st: AdjState, n: nat)
    requires ValidContext(ctx) && n < |ctx.tokens| && !InSentence(ctx.tokenBytePositions[n], s)
    requires AdjTracks(ctx, s, n, st)
    ensures AdjTracks(ctx, s, n + 1, AdjStep(ctx, s, maxRepeat, st, n).0)
    ensures AdjStep(ctx, s, maxRepeat, st, n).1 == AdjReportAt(ctx, s, maxRepeat, n)
  {
    assert AdjStep(ctx, s, maxRepeat, st, n) == (st, []);
    assert LastIn(ctx, s, n + 1) == LastIn(ctx, s, n);
  }

  /** One more token of the scan keeps the state tracking the sentence and adds the report due at that token. */
  lemma AdjScanNextTracks(ctx: RuleContext, s: SentenceBoundary, maxRepeat: int, n: nat)
    requires ValidContext(ctx) && 0 < n <= |ctx.tokens|
    requires AdjTracks(ctx, s, n - 1, AdjScan(ctx, s, maxRepeat, n - 1).0)
    requires AdjScan(ctx, s, maxRepeat, n - 1).1 == AdjReference(ctx, s, maxRepeat, n - 1)
    ensures AdjTracks(ctx, s, n, AdjScan(ctx, s, maxRepeat, n).0)
    ensures AdjScan(ctx, s, maxRepeat, n).1 == AdjReference(ctx, s, maxRepeat, n)
  {
    var p := AdjScan(ctx, s, maxRepeat, n - 1);
    var q := AdjStep(ctx, s, maxRepeat, p.0, n - 1);
    if InSentence(ctx.tokenBytePositions[n - 1], s) {
      AdjStepInside(ctx, s, maxRepeat, p.0, n - 1);
    } else {
      AdjStepOutside(ctx, s, maxRepeat, p.0, n - 1);
    }
    assert AdjScan(ctx, s, maxRepeat, n) == (q.0, p.1 + q.1);
    assert AdjReference(ctx, s, maxRepeat, n) == p.1 + AdjReportAt(ctx, s, maxRepeat, n - 1);
  }

  lemma {:induction false} AdjScanTracks(ctx: RuleContext, s: SentenceBoundary, maxRepeat: int, n: nat)
    requires ValidContext(ctx) && n <= |ctx.tokens|
    ensures AdjTracks(ctx, s, n, AdjScan(ctx, s, maxRepeat, n).0)
    ensures AdjScan(ctx, s, maxRepeat, n).1 == AdjReference(ctx, s, maxRepeat, n)
  {
    if n > 0 {
      AdjScanTracks(ctx, s, maxRepeat, n - 1);
      AdjScanNextTracks(ctx, s, maxRepeat, n);
    } else {
      assert LastIn(ctx, s, 0) == None;
    }
  }

  /**
   * The adjacent-particle scan of a sentence reports exactly what is due,
   * over the first `n` tokens and so over all of them: at every particle
   * whose chain of adjacent same-key particles is longer than `maxRepeat`,
   * one report from the previous particle to this one, and nothing
   * anywhere else.
   */
  lemma AdjacentReportsExactly(ctx: RuleContext, s: SentenceBoundary, maxRepeat: int, n: nat)
    requires ValidContext(ctx) && n <= |ctx.tokens|
    ensures AdjScan(ctx, s, maxRepeat, n).1 == AdjReference(ctx, s, maxRepeat, n)
  {
    AdjScanTracks(ctx, s, maxRepeat, n);
  }

  /** One more token adds its own reports to the reference. */
  lemma AdjReferenceLength(ctx: RuleContext, s: SentenceBoundary, maxRepeat: int, n: nat)
    requires ValidContext(ctx) && 0 < n <= |ctx.tokens|
    ensures |AdjReference(ctx, s, maxRepeat, n)| == |AdjReference(ctx, s, maxRepeat, n - 1)| + |AdjReportAt(ctx, s, maxRepeat, n - 1)|
  {
  }

  /** A token that continues the one before it as an adjacent pair lengthens that token's chain by one. */
  lemma AdjChainStep(ctx: RuleContext, s: SentenceBoundary, k: nat)
    requires ValidContext(ctx) && 0 < k < |ctx.tokens|
    requires LastIn(ctx, s, k) == Some(k - 1) && AdjacentPair(ctx, s, k - 1, k)
    ensures AdjChain(ctx, s, k) == AdjChain(ctx, s, k - 1) + 1
  {
  }

  /** How far a run of `m` exceeds `maxRepeat`: the number of reports it earns. */
  function Excess(m: int, maxRepeat: int): nat {
    if m > maxRepeat then m - maxRepeat else 0
  }

  /** Tokens `a` to `a + m - 1` are same-key particles of the sentence, each starting where the one before it ends. */
  predicate ParticleRun(ctx: RuleContext, s: SentenceBoundary, a: nat, m: nat)
    requires ValidContext(ctx) && a + m <= |ctx.tokens|
  {
    && (forall j :: a <= j < a + m ==> ParticleIn(ctx, s, j))
    && (forall j :: a < j < a + m ==> ParticleKey(ctx.tokens[j].feature) == ParticleKey(ctx.tokens[a].feature))
    && (forall j :: a < j < a + m ==> ctx.tokenBytePositions[j] == ctx.tokenBytePositions[j - 1] + |ctx.tokens[j - 1].surface|)
  }

  /** The token of the sentence before token `a`, if any, does not form an adjacent pair with it. */
  predicate StartsChain(ctx: RuleContext, s: SentenceBoundary, a: nat)
    requires ValidContext(ctx) && a < |ctx.tokens|
  {
    match LastIn(ctx, s, a)
    case None => true
    case Some(i) => !AdjacentPair(ctx, s, i, a)
  }

  /** A run of same-key particles that does not continue the token before it. */
  predicate AdjacentRun(ctx: RuleContext, s: SentenceBoundary, a: nat, m: nat)
    requires ValidContext(ctx) && a + m <= |ctx.tokens|
  {
    ParticleRun(ctx, s, a, m) && (m > 0 ==> StartsChain(ctx, s, a))
  }

  /** A token that does not continue the one before it starts a chain of one. */
  lemma AdjacentRunStart(ctx: RuleContext, s: SentenceBoundary, a: nat)
    requires ValidContext(ctx) && a < |ctx.tokens| && StartsChain(ctx, s, a)
    ensures AdjChain(ctx, s, a) == 1
  {
    match LastIn(ctx, s, a)
    case None =>
    case Some(i) =>
      assert !AdjacentPair(ctx, s, i, a);
  }

  /** Inside the run, each token after the first continues the one before it. */
  lemma AdjacentRunPair(ctx: RuleContext, s: SentenceBoundary, a: nat, m: nat, k: nat)
    requires ValidContext(ctx) && a + m <= |ctx.tokens| && ParticleRun(ctx, s, a, m) && a < k < a + m
    ensures LastIn(ctx, s, k) == Some(k - 1) && AdjacentPair(ctx, s, k - 1, k)
  {
    assert ParticleIn(ctx, s, k - 1) && ParticleIn(ctx, s, k);
    assert LastIn(ctx, s, k) == Some(k - 1);
    assert LastInSentence(ctx, s, k - 1, k);
  }

  /** Inside the run, the chain grows by one from each token to the next. */
  lemma AdjacentRunGrows(ctx: RuleContext, s: SentenceBoundary, a: nat, m: nat, k: nat)
    requires ValidContext(ctx) && a + m <= |ctx.tokens| && ParticleRun(ctx, s, a, m) && a < k < a + m
    ensures AdjChain(ctx, s, k) == AdjChain(ctx, s, k - 1) + 1
  {
    AdjacentRunPair(ctx, s, a, m, k);
    AdjChainStep(ctx, s, k);
  }

  /** Inside the run, the chain ending at token `k` holds the `k - a + 1` particles from the run's start. */
  lemma {:induction false} AdjacentRunChain(ctx: RuleContext, s: SentenceBoundary, a: nat, m: nat, k: nat)
    requires ValidContext(ctx) && a + m <= |ctx.tokens| && ParticleRun(ctx, s, a, m) && a <= k < a + m
    requires AdjChain(ctx, s, a) == 1
    ensures AdjChain(ctx, s, k) == k - a + 1
    decreases k
  {
    if k > a {
      AdjacentRunChain(ctx, s, a, m, k - 1);
      AdjacentRunGrows(ctx, s, a, m, k);
    }
  }

  /** Within the run, token `k` is reported exactly when its chain of `k - a + 1` particles is longer than `maxRepeat`. */
  lemma AdjacentRunReportAt(ctx: RuleContext, s: SentenceBoundary, maxRepeat: int, a: nat, m: nat, k: nat)
    requires ValidContext(ctx) && a + m <= |ctx.tokens| && ParticleRun(ctx, s, a, m) && a <= k < a + m && maxRepeat >= 1
    requires AdjChain(ctx, s, a) == 1
    ensures |AdjReportAt(ctx, s, maxRepeat, k)| == if k - a + 1 > maxRepeat then 1 else 0
  {
    AdjacentRunChain(ctx, s, a, m, k);
  }

  lemma {:induction false} AdjacentRunCount(ctx: RuleContext, s: SentenceBoundary, maxRepeat: int, a: nat, m: nat, n: nat)
    requires ValidContext(ctx) && a + m <= |ctx.tokens| && ParticleRun(ctx, s, a, m) && a <= n <= a + m && maxRepeat >= 1
    requires m > 0 ==> AdjChain(ctx, s, a) == 1
    ensures |AdjReference(ctx, s, maxRepeat, n)| == |AdjReference(ctx, s, maxRepeat, a)| + if n - a > maxRepeat then n - a - maxRepeat else 0
    decreases n
  {
    if n > a {
      AdjacentRunCount(ctx, s, maxRepeat, a, m, n - 1);
      AdjacentRunReportAt(ctx, s, maxRepeat, a, m, n - 1);
      AdjReferenceLength(ctx, s, maxRepeat, n);
    }
  }

  /**
   * A run of `m` same-key particles of a sentence, each starting where the
   * one before it ends and not continuing the token before it, earns
   * `max(0, m - maxRepeat)` reports among the reports due at its tokens,
   * wherever it lies; in particular two adjacent same-key particles are
   * reported at the default limit of 1.  With `AdjacentReportsExactly`,
   * these are the reports the scan adds over the run.
   */
  lemma AdjacentRunReported(ctx: RuleContext, s: SentenceBoundary, maxRepeat: int, a: nat, m: nat)
    requires ValidContext(ctx) && a + m <= |ctx.tokens| && AdjacentRun(ctx, s, a, m) && maxRepeat >= 1
    ensures |AdjReference(ctx, s, maxRepeat, a + m)| == |AdjReference(ctx, s, maxRepeat, a)| + Excess(m, maxRepeat)
  {
    if m > 0 {
      AdjacentRunStart(ctx, s, a);
    }
    AdjacentRunCount(ctx, s, maxRepeat, a, m, a + m);
  }

  // ---------------------------------------------------------------------------
  // Rule 5: the same conjunction repeated across the document

  /** The scan state of the conjunction rule; it runs over the whole document, not per sentence. */
  datatype ConjState = ConjState(lastSurface: Bytes, lastStartByte: nat, lastEndByte: nat, streak: int, hasLast: bool)

  const ConjStart := ConjState([], 0, 0, 1, false)

  /** The first newline at or after the previous conjunction's end comes before the current one's start. */
  predicate SeparatedByNewline(text: Bytes, lastEndByte: nat, currentStart: nat) {
    match FindByte(text, NL, lastEndByte)
    case None => false
    case Some(q) => q < currentStart
  }

  /**
   * One token of the conjunction scan.  Tokens that are not conjunctions are
   * skipped.  A conjunction with the previous one's surface and no newline
   * between them extends the streak, and past `maxRepeat` reports a range
   * from the previous conjunction to the end of this one.
   */
  function ConjStep(ctx: RuleContext, maxRepeat: int, st: ConjState, i: nat): (ConjState, seq<Diagnostic>)
    requires ValidContext(ctx) && i < |ctx.tokens|
  {
    var token := ctx.tokens[i];
    if !IsConjunction(token.feature) then (st, [])
    else
      var currentStart := ctx.tokenBytePositions[i];
      var currentEnd := currentStart + |token.surface|;
      var separated := st.hasLast && SeparatedByNewline(ctx.text, st.lastEndByte, currentStart);
      if st.hasLast && token.surface == st.lastSurface && !separated then
        var streak := st.streak + 1;
        var e := if streak > maxRepeat
          then [Diagnostic(RangeOf(ctx, st.lastStartByte, currentEnd), ctx.severity, DuplicateConjunction(token.surface))]
          else [];
        (ConjState(token.surface, currentStart, currentEnd, streak, true), e)
      else (ConjState(token.surface, currentStart, currentEnd, 1, true), [])
  }

  function ConjScan(ctx: RuleContext, maxRepeat: int, n: nat): (ConjState, seq<Diagnostic>)
    requires ValidContext(ctx) && n <= |ctx.tokens|
  {
    if n == 0 then (ConjStart, [])
    else
      var p := ConjScan(ctx, maxRepeat, n - 1);
      var q := ConjStep(ctx, maxRepeat, p.0, n - 1);
      (q.0, p.1 + q.1)
  }

  /** `checkConjunctionRepeats`: the scan above over all tokens; nothing when `maxRepeat <= 0`. */
  function ConjunctionDiags(ctx: RuleContext, maxRepeat: int): seq<Diagnostic>
    requires ValidContext(ctx)
  {
    if maxRepeat <= 0 then [] else ConjScan(ctx, maxRepeat, |ctx.tokens|).1
  }

  method CheckConjunctionRepeats(ctx: RuleContext, diags: seq<Diagnostic>, maxRepeat: int)
    returns (out: seq<Diagnostic>)
    requires ValidContext(ctx)
    ensures out == diags + ConjunctionDiags(ctx, maxRepeat)
  {
    out := diags;
    if maxRepeat <= 0 {
      return;
    }
    var st := ConjStart;
    for i := 0 to |ctx.tokens|
      invariant st == ConjScan(ctx, maxRepeat, i).0
      invariant out == diags + ConjScan(ctx, maxRepeat, i).1
    {
      var reported;
      st, reported := ConjunctionStep(ctx, maxRepeat, st, i);
      TextProcessor.AppendAssociative(diags, ConjScan(ctx, maxRepeat, i).1, reported);
      out := out + reported;
    }
  }

  /** The body of the scan loop for token `i`: the last-conjunction variables are the fields of `st`. */
  method ConjunctionStep(ctx: RuleContext, maxRepeat: int, st: ConjState, i: nat)
    returns (next: ConjState, reported: seq<Diagnostic>)
    requires ValidContext(ctx) && i < |ctx.tokens|
    ensures (next, reported) == ConjStep(ctx, maxRepeat, st, i)
  {
    next, reported := st, [];
    var token := ctx.tokens[i];
    if !IsConjunction(token.feature) {
      return;
    }
    var currentStart := ctx.tokenBytePositions[i];
    var currentEnd := currentStart + |token.surface|;
    var newline := FindByte(ctx.text, NL, st.lastEndByte);
    var separatedByNewline := st.hasLast && newline.Some? && newline.value < currentStart;
    if st.hasLast && token.surface == st.lastSurface && !separatedByNewline {
      var streak := st.streak + 1;
      if streak > maxRepeat {
        var range := MakeRange(ctx, st.lastStartByte, currentEnd);
        reported := [Diagnostic(range, ctx.severity, DuplicateConjunction(token.surface))];
      }
      next := ConjState(token.surface, currentStart, currentEnd, streak, true);
    } else {
      next := ConjState(token.surface, currentStart, currentEnd, 1, true);
    }
  }

  /**
   * Two conjunctions with the same surface: with the default limit of one
   * they give one report from the first to the end of the second, unless a
   * newline lies between the end of the first and the start of the second.
   */
  lemma ConjunctionPair(ctx: RuleContext)
    requires ValidContext(ctx) && |ctx.tokens| == 2
    requires IsConjunction(ctx.tokens[0].feature) && IsConjunction(ctx.tokens[1].feature)
    requires ctx.tokens[0].surface == ctx.tokens[1].surface
    ensures var p0, p1 := ctx.tokenBytePositions[0], ctx.tokenBytePositions[1];
      ConjunctionDiags(ctx, 1)
        == if SeparatedByNewline(ctx.text, p0 + |ctx.tokens[0].surface|, p1) then []
           else [Diagnostic(RangeOf(ctx, p0, p1 + |ctx.tokens[1].surface|), ctx.severity,
                            DuplicateConjunction(ctx.tokens[1].surface))]
  {
    assert ConjScan(ctx, 1, 0) == (ConjStart, []);
    var first := ConjScan(ctx, 1, 1);
    assert first.0 == ConjState(ctx.tokens[0].surface, ctx.tokenBytePositions[0],
                                ctx.tokenBytePositions[0] + |ctx.tokens[0].surface|, 1, true);
    assert first.1 == [];
  }

  /** Tokens that are not conjunctions leave the conjunction scan unchanged and report nothing. */
  lemma ConjStepSkips(ctx: RuleContext, maxRepeat: int, st: ConjState, i: nat)
    requires ValidContext(ctx) && i < |ctx.tokens|
    ensures !IsConjunction(ctx.tokens[i].feature) ==> ConjStep(ctx, maxRepeat, st, i) == (st, [])
    ensures var r := ConjStep(ctx, maxRepeat, st, i);
      |r.1| <= 1 && (|r.1| == 1 ==>
        r.1[0].severity == ctx.severity && r.1[0].message.DuplicateConjunction?
        && r.1[0].range.start == PositionOf(ctx.text, ctx.lineStarts, st.lastStartByte))
  {
  }

  /** Whether each of the first `n` tokens is a conjunction, in token order. */
  function ConjFlags(ctx: RuleContext, n: nat): (r: seq<bool>)
    requires n <= |ctx.tokens|
    ensures |r| == n
  {
    if n == 0 then [] else ConjFlags(ctx, n - 1) + [IsConjunction(ctx.tokens[n - 1].feature)]
  }

  /** Token `i` is a conjunction, read from the flags of all tokens. */
  predicate ConjAt(ctx: RuleContext, i: nat)
    requires ValidContext(ctx) && i < |ctx.tokens|
  {
    ConjFlags(ctx, |ctx.tokens|)[i]
  }

  lemma {:induction false} ConjFlagsAt(ctx: RuleContext, n: nat, i: nat)
    requires i < n <= |ctx.tokens|
    ensures ConjFlags(ctx, n)[i] == IsConjunction(ctx.tokens[i].feature)
    decreases n
  {
    if i < n - 1 {
      ConjFlagsAt(ctx, n - 1, i);
    }
  }

  lemma ConjAtIs(ctx: RuleContext, i: nat)
    requires ValidContext(ctx) && i < |ctx.tokens|
    ensures ConjAt(ctx, i) == IsConjunction(ctx.tokens[i].feature)
  {
    ConjFlagsAt(ctx, |ctx.tokens|, i);
  }

  /** The last conjunction before token `n`, anywhere in the document, if there is one. */
  function LastConj(ctx: RuleContext, n: nat): (r: Option<nat>)
    requires ValidContext(ctx) && n <= |ctx.tokens|
    ensures r.Some? ==> r.value < n && ConjAt(ctx, r.value)
  {
    if n == 0 then None
    else if ConjAt(ctx, n - 1) then Some(n - 1)
    else LastConj(ctx, n - 1)
  }

  /** `LastConj` is the last: no conjunction lies after it and before `n`, and when there is none, no token before `n` is one. */
  lemma {:induction false} LastConjIsLast(ctx: RuleContext, n: nat)
    requires ValidContext(ctx) && n <= |ctx.tokens|
    ensures LastConj(ctx, n).Some? ==> forall k :: LastConj(ctx, n).value < k < n ==> !ConjAt(ctx, k)
    ensures LastConj(ctx, n).None? ==> forall k :: 0 <= k < n ==> !ConjAt(ctx, k)
  {
    if n > 0 && !ConjAt(ctx, n - 1) {
      LastConjIsLast(ctx, n - 1);
    }
  }

  /**
   * Conjunction `j` repeats conjunction `k`: the same surface, and no newline
   * from the end of `k` to the start of `j`.
   */
  predicate ConjRepeats(ctx: RuleContext, k: nat, j: nat)
    requires ValidContext(ctx) && k < |ctx.tokens| && j < |ctx.tokens|
  {
    && ctx.tokens[k].surface == ctx.tokens[j].surface
    && !SeparatedByNewline(ctx.text, ctx.tokenBytePositions[k] + |ctx.tokens[k].surface|, ctx.tokenBytePositions[j])
  }

  /** The streak that ends at token `j`: one more than the previous conjunction's when `j` repeats it, and 1 otherwise. */
  function ConjChain(ctx: RuleContext, j: nat): (c: nat)
    requires ValidContext(ctx) && j < |ctx.tokens|
    ensures c >= 1
    decreases j
  {
    match LastConj(ctx, j)
    case None => 1
    case Some(k) => if ConjRepeats(ctx, k, j) then ConjChain(ctx, k) + 1 else 1
  }

  /**
   * The report due at token `j`: a conjunction that repeats the previous
   * one, once its streak is longer than `maxRepeat`, spanning the previous
   * conjunction through this one.
   */
  function ConjReportAt(ctx: RuleContext, maxRepeat: int, j: nat): seq<Diagnostic>
    requires ValidContext(ctx) && j < |ctx.tokens|
  {
    if !ConjAt(ctx, j) then []
    else
      match LastConj(ctx, j)
      case None => []
      case Some(k) =>
        if ConjRepeats(ctx, k, j) && ConjChain(ctx, j) > maxRepeat
        then [Diagnostic(RangeOf(ctx, ctx.tokenBytePositions[k], ctx.tokenBytePositions[j] + |ctx.tokens[j].surface|),
                         ctx.severity, DuplicateConjunction(ctx.tokens[j].surface))]
        else []
  }

  /** The reports due at the first `n` tokens, in token order. */
  function ConjReference(ctx: RuleContext, maxRepeat: int, n: nat): seq<Diagnostic>
    requires ValidContext(ctx) && n <= |ctx.tokens|
  {
    if n == 0 then [] else ConjReference(ctx, maxRepeat, n - 1) + ConjReportAt(ctx, maxRepeat, n - 1)
  }

  /** The scan state after `n` tokens holds the last conjunction so far, its bytes and its streak. */
  predicate ConjTracks(ctx: RuleContext, n: nat, st: ConjState)
    requires ValidContext(ctx) && n <= |ctx.tokens|
  {
    match LastConj(ctx, n)
    case None => !st.hasLast
    case Some(k) =>
      && st.hasLast && st.lastSurface == ctx.tokens[k].surface
      && st.lastStartByte == ctx.tokenBytePositions[k]
      && st.lastEndByte == ctx.tokenBytePositions[k] + |ctx.tokens[k].surface|
      && st.streak == ConjChain(ctx, k)
  }

  /** With the state tracking the document, the scan extends the streak exactly when the conjunction repeats the previous one. */
  lemma ConjExtendsAtRepeat(ctx: RuleContext, st: ConjState, n: nat)
    requires ValidContext(ctx) && n < |ctx.tokens| && ConjTracks(ctx, n, st)
    ensures (st.hasLast && ctx.tokens[n].surface == st.lastSurface
             && !(st.hasLast && SeparatedByNewline(ctx.text, st.lastEndByte, ctx.tokenBytePositions[n])))
        <==> LastConj(ctx, n).Some? && ConjRepeats(ctx, LastConj(ctx, n).value, n)
  {
  }

  /** The step at a conjunction that repeats the state's last one. */
  lemma ConjStepRepeat(ctx: RuleContext, maxRepeat: int, st: ConjState, n: nat)
    requires ValidContext(ctx) && n < |ctx.tokens| && ConjAt(ctx, n)
    requires st.hasLast && ctx.tokens[n].surface == st.lastSurface
    requires !SeparatedByNewline(ctx.text, st.lastEndByte, ctx.tokenBytePositions[n])
    ensures var start, end := ctx.tokenBytePositions[n], ctx.tokenBytePositions[n] + |ctx.tokens[n].surface|;
      ConjStep(ctx, maxRepeat, st, n)
      == (ConjState(ctx.tokens[n].surface, start, end, st.streak + 1, true),
          if st.streak + 1 > maxRepeat
          then [Diagnostic(RangeOf(ctx, st.lastStartByte, end), ctx.severity, DuplicateConjunction(ctx.tokens[n].surface))]
          else [])
  {
    ConjAtIs(ctx, n);
  }

  /** The step at a conjunction that does not repeat the state's last one. */
  lemma ConjStepFresh(ctx: RuleContext, maxRepeat: int, st: ConjState, n: nat)
    requires ValidContext(ctx) && n < |ctx.tokens| && ConjAt(ctx, n)
    requires !(st.hasLast && ctx.tokens[n].surface == st.lastSurface
               && !SeparatedByNewline(ctx.text, st.lastEndByte, ctx.tokenBytePositions[n]))
    ensures ConjStep(ctx, maxRepeat, st, n)
         == (ConjState(ctx.tokens[n].surface, ctx.tokenBytePositions[n],
                       ctx.tokenBytePositions[n] + |ctx.tokens[n].surface|, 1, true), [])
  {
    ConjAtIs(ctx, n);
  }

  /** The streak at a conjunction `n` whose previous conjunction is `k`. */
  lemma ConjChainPrevious(ctx: RuleContext, k: nat, n: nat)
    requires ValidContext(ctx) && n < |ctx.tokens| && LastConj(ctx, n) == Some(k)
    ensures ConjChain(ctx, n) == if ConjRepeats(ctx, k, n) then ConjChain(ctx, k) + 1 else 1
  {
  }

  /** The report due at a conjunction `n` whose previous conjunction is `k`. */
  lemma ConjReportAtPrevious(ctx: RuleContext, maxRepeat: int, k: nat, n: nat)
    requires ValidContext(ctx) && n < |ctx.tokens| && ConjAt(ctx, n) && LastConj(ctx, n) == Some(k)
    ensures ConjReportAt(ctx, maxRepeat, n)
         == if ConjRepeats(ctx, k, n) && ConjChain(ctx, k) + 1 > maxRepeat
            then [Diagnostic(RangeOf(ctx, ctx.tokenBytePositions[k], ctx.tokenBytePositions[n] + |ctx.tokens[n].surface|),
                             ctx.severity, DuplicateConjunction(ctx.tokens[n].surface))]
            else []
  {
    ConjChainPrevious(ctx, k, n);
  }

  lemma ConjStepConj(ctx: RuleContext, maxRepeat: int, st: ConjState, n: nat)
    requires ValidContext(ctx) && n < |ctx.tokens| && ConjAt(ctx, n)
    requires ConjTracks(ctx, n, st)
    ensures ConjTracks(ctx, n + 1, ConjStep(ctx, maxRepeat, st, n).0)
    ensures ConjStep(ctx, maxRepeat, st, n).1 == ConjReportAt(ctx, maxRepeat, n)
  {
    ConjAtIs(ctx, n);
    ConjExtendsAtRepeat(ctx, st, n);
    assert LastConj(ctx, n + 1) == Some(n);
    if st.hasLast && ctx.tokens[n].surface == st.lastSurface
       && !SeparatedByNewline(ctx.text, st.lastEndByte, ctx.tokenBytePositions[n]) {
      ConjStepRepeat(ctx, maxRepeat, st, n);
      ConjChainPrevious(ctx, LastConj(ctx, n).value, n);
      ConjReportAtPrevious(ctx, maxRepeat, LastConj(ctx, n).value, n);
    } else {
      ConjStepFresh(ctx, maxRepeat, st, n);
      if LastConj(ctx, n).Some? {
        ConjReportAtPrevious(ctx, maxRepeat, LastConj(ctx, n).value, n);
      }
    }
  }

  lemma ConjStepOther(ctx: RuleContext, maxRepeat: int, st: ConjState, n: nat)
    requires ValidContext(ctx) && n < |ctx.tokens| && !ConjAt(ctx, n)
    requires ConjTracks(ctx, n, st)
    ensures ConjTracks(ctx, n + 1, ConjStep(ctx, maxRepeat, st, n).0)
    ensures ConjStep(ctx, maxRepeat, st, n).1 == ConjReportAt(ctx, maxRepeat, n)
  {
    ConjAtIs(ctx, n);
    assert ConjStep(ctx, maxRepeat, st, n) == (st, []);
    assert LastConj(ctx, n + 1) == LastConj(ctx, n);
  }

  /** One step of the scan keeps the state tracking the document and reports what is due at that token. */
  lemma ConjStepTracks(ctx: RuleContext, maxRepeat: int, st: ConjState, n: nat)
    requires ValidContext(ctx) && n < |ctx.tokens| && ConjTracks(ctx, n, st)
    ensures ConjTracks(ctx, n + 1, ConjStep(ctx, maxRepeat, st, n).0)
    ensures ConjStep(ctx, maxRepeat, st, n).1 == ConjReportAt(ctx, maxRepeat, n)
  {
    if ConjAt(ctx, n) {
      ConjStepConj(ctx, maxRepeat, st, n);
    } else {
      ConjStepOther(ctx, maxRepeat, st, n);
    }
  }

  lemma ConjScanStep(ctx: RuleContext, maxRepeat: int, n: nat)
    requires ValidContext(ctx) && 0 < n <= |ctx.tokens|
    ensures var p := ConjScan(ctx, maxRepeat, n - 1);
      ConjScan(ctx, maxRepeat, n) == (ConjStep(ctx, maxRepeat, p.0, n - 1).0, p.1 + ConjStep(ctx, maxRepeat, p.0, n - 1).1)
  {
  }

  lemma ConjReferenceStep(ctx: RuleContext, maxRepeat: int, n: nat)
    requires ValidContext(ctx) && 0 < n <= |ctx.tokens|
    ensures ConjReference(ctx, maxRepeat, n) == ConjReference(ctx, maxRepeat, n - 1) + ConjReportAt(ctx, maxRepeat, n - 1)
  {
  }

  /** One more token of the scan keeps the state tracking the document and adds the report due at that token. */
  lemma ConjScanNextTracks(ctx: RuleContext, maxRepeat: int, n: nat)
    requires ValidContext(ctx) && 0 < n <= |ctx.tokens|
    requires ConjTracks(ctx, n - 1, ConjScan(ctx, maxRepeat, n - 1).0)
    requires ConjScan(ctx, maxRepeat, n - 1).1 == ConjReference(ctx, maxRepeat, n - 1)
    ensures ConjTracks(ctx, n, ConjScan(ctx, maxRepeat, n).0)
    ensures ConjScan(ctx, maxRepeat, n).1 == ConjReference(ctx, maxRepeat, n)
  {
    ConjStepTracks(ctx, maxRepeat, ConjScan(ctx, maxRepeat, n - 1).0, n - 1);
    ConjScanStep(ctx, maxRepeat, n);
    ConjReferenceStep(ctx, maxRepeat, n);
  }

  lemma {:induction false} ConjScanTracks(ctx: RuleContext, maxRepeat: int, n: nat)
    requires ValidContext(ctx) && n <= |ctx.tokens|
    ensures ConjTracks(ctx, n, ConjScan(ctx, maxRepeat, n).0)
    ensures ConjScan(ctx, maxRepeat, n).1 == ConjReference(ctx, maxRepeat, n)
  {
    if n > 0 {
      ConjScanTracks(ctx, maxRepeat, n - 1);
      ConjScanNextTracks(ctx, maxRepeat, n);
    } else {
      assert LastConj(ctx, 0) == None;
    }
  }

  /**
   * The conjunction scan reports exactly what is due, over the first `n`
   * tokens of the document whatever its sentences: at every conjunction
   * that repeats the previous conjunction's surface with no newline between
   * them, once the streak is longer than `maxRepeat`, one report from the
   * previous conjunction's start to this one's end, and nothing anywhere else.
   */
  lemma ConjunctionReportsExactly(ctx: RuleContext, maxRepeat: int, n: nat)
    requires ValidContext(ctx) && n <= |ctx.tokens|
    ensures ConjScan(ctx, maxRepeat, n).1 == ConjReference(ctx, maxRepeat, n)
    ensures ConjunctionDiags(ctx, maxRepeat)
         == if maxRepeat <= 0 then [] else ConjReference(ctx, maxRepeat, |ctx.tokens|)
  {
    ConjScanTracks(ctx, maxRepeat, n);
    ConjScanTracks(ctx, maxRepeat, |ctx.tokens|);
  }

  /**
   * After `n` tokens the scan state holds the last conjunction so far: it
   * has one exactly when there is one, and then its surface, its start and
   * end bytes and the streak that ends there.
   */
  lemma ConjScanState(ctx: RuleContext, maxRepeat: int, n: nat)
    requires ValidContext(ctx) && n <= |ctx.tokens|
    ensures ConjScan(ctx, maxRepeat, n).0.hasLast <==> LastConj(ctx, n).Some?
    ensures LastConj(ctx, n).Some? ==>
      var st, k := ConjScan(ctx, maxRepeat, n).0, LastConj(ctx, n).value;
      && st.lastSurface == ctx.tokens[k].surface
      && st.lastStartByte == ctx.tokenBytePositions[k]
      && st.lastEndByte == ctx.tokenBytePositions[k] + |ctx.tokens[k].surface|
      && st.streak == ConjChain(ctx, k)
  {
    ConjScanTracks(ctx, maxRepeat, n);
  }

  // ---------------------------------------------------------------------------
  // Rule 6: ら-dropping

  /** The report for token `i` on its own when it is 来れる or 見れる. */
  function SpecialRaDiag(ctx: RuleContext, i: nat): seq<Diagnostic>
    requires ValidContext(ctx) && i < |ctx.tokens|
  {
    if IsSpecialRaCase(ParsePos(ctx.tokens[i].feature)) then
      var startByte := ctx.tokenBytePositions[i];
      [Diagnostic(RangeOf(ctx, startByte, startByte + |ctx.tokens[i].surface|), ctx.severity, RaDropping)]
    else []
  }

  function SpecialRaDiags(ctx: RuleContext, n: nat): seq<Diagnostic>
    requires ValidContext(ctx) && n <= |ctx.tokens|
  {
    if n == 0 then [] else SpecialRaDiags(ctx, n - 1) + SpecialRaDiag(ctx, n - 1)
  }

  /** The report for the pair ending at token `i`: an ichidan irrealis verb followed by the suffix れる. */
  function RaPairDiag(ctx: RuleContext, i: nat): seq<Diagnostic>
    requires ValidContext(ctx) && 0 < i < |ctx.tokens|
  {
    if IsTargetVerb(ParsePos(ctx.tokens[i - 1].feature)) && IsRaWord(ParsePos(ctx.tokens[i].feature)) then
      [Diagnostic(RangeOf(ctx, ctx.tokenBytePositions[i - 1], ctx.tokenBytePositions[i] + |ctx.tokens[i].surface|),
                  ctx.severity, RaDropping)]
    else []
  }

  function RaPairDiags(ctx: RuleContext, n: nat): seq<Diagnostic>
    requires ValidContext(ctx) && n <= |ctx.tokens|
  {
    if n <= 1 then [] else RaPairDiags(ctx, n - 1) + RaPairDiag(ctx, n - 1)
  }

  /** `checkRaDropping`: first the single-token cases in token order, then the pairs. */
  function RaDroppingDiags(ctx: RuleContext): seq<Diagnostic>
    requires ValidContext(ctx)
  {
    SpecialRaDiags(ctx, |ctx.tokens|) + RaPairDiags(ctx, |ctx.tokens|)
  }

  method CheckRaDropping(ctx: RuleContext, diags: seq<Diagnostic>) returns (out: seq<Diagnostic>)
    requires ValidContext(ctx)
    ensures out == diags + RaDroppingDiags(ctx)
  {
    var special := ScanSpecialRa(ctx);
    var pairs := ScanRaPairs(ctx);
    TextProcessor.AppendAssociative(diags, special, pairs);
    out := diags + special + pairs;
  }

  /** The first loop of `checkRaDropping`: 来れる and 見れる, token by token. */
  method ScanSpecialRa(ctx: RuleContext) returns (found: seq<Diagnostic>)
    requires ValidContext(ctx)
    ensures found == SpecialRaDiags(ctx, |ctx.tokens|)
  {
    found := [];
    for i := 0 to |ctx.tokens|
      invariant found == SpecialRaDiags(ctx, i)
    {
      var reported := SpecialRaAt(ctx, i);
      found := found + reported;
    }
  }

  /** The second loop of `checkRaDropping`: each token with the parsed feature of the one before it. */
  method ScanRaPairs(ctx: RuleContext) returns (found: seq<Diagnostic>)
    requires ValidContext(ctx)
    ensures found == RaPairDiags(ctx, |ctx.tokens|)
  {
    found := [];
    var prevPos := EmptyPos;
    var hasPrev := false;
    for i := 0 to |ctx.tokens|
      invariant hasPrev <==> i > 0
      invariant i > 0 ==> prevPos == ParsePos(ctx.tokens[i - 1].feature)
      invariant found == RaPairDiags(ctx, i)
    {
      var token := ctx.tokens[i];
      var pos := ParsePos(token.feature);
      if hasPrev {
        var reported := RaPairAt(ctx, i, prevPos, pos);
        found := found + reported;
      }
      prevPos := pos;
      hasPrev := true;
    }
  }

  /** The body of the first loop for token `i`: 来れる and 見れる on their own. */
  method SpecialRaAt(ctx: RuleContext, i: nat) returns (reported: seq<Diagnostic>)
    requires ValidContext(ctx) && i < |ctx.tokens|
    ensures reported == SpecialRaDiag(ctx, i)
  {
    reported := [];
    var token := ctx.tokens[i];
    var pos := ParsePos(token.feature);
    if IsSpecialRaCase(pos) {
      var startByte := ctx.tokenBytePositions[i];
      var range := MakeRange(ctx, startByte, startByte + |token.surface|);
      reported := [Diagnostic(range, ctx.severity, RaDropping)];
    }
  }

  /** The body of the second loop for token `i`, given the parsed features of it and of the token before. */
  method RaPairAt(ctx: RuleContext, i: nat, prevPos: DetailedPos, pos: DetailedPos) returns (reported: seq<Diagnostic>)
    requires ValidContext(ctx) && 0 < i < |ctx.tokens|
    requires prevPos == ParsePos(ctx.tokens[i - 1].feature) && pos == ParsePos(ctx.tokens[i].feature)
    ensures reported == RaPairDiag(ctx, i)
  {
    reported := [];
    if IsTargetVerb(prevPos) && IsRaWord(pos) {
      var range := MakeRange(ctx, ctx.tokenBytePositions[i - 1], ctx.tokenBytePositions[i] + |ctx.tokens[i].surface|);
      reported := [Diagnostic(range, ctx.severity, RaDropping)];
    }
  }

  /** The suffix れる is never one of the single-token forms. */
  lemma RaWordIsNotSpecial(p: DetailedPos)
    requires IsRaWord(p)
    ensures !IsSpecialRaCase(p)
  {
    assert |Reru| != |Koreru| && |Reru| != |Mireru|;
  }

  /**
   * An ichidan irrealis verb followed by the suffix れる gives exactly one
   * report, spanning both tokens.
   */
  lemma RaPair(ctx: RuleContext)
    requires ValidContext(ctx) && |ctx.tokens| == 2
    requires IsTargetVerb(ParsePos(ctx.tokens[0].feature)) && !IsSpecialRaCase(ParsePos(ctx.tokens[0].feature))
    requires IsRaWord(ParsePos(ctx.tokens[1].feature))
    ensures RaDroppingDiags(ctx)
         == [Diagnostic(RangeOf(ctx, ctx.tokenBytePositions[0], ctx.tokenBytePositions[1] + |ctx.tokens[1].surface|),
                        ctx.severity, RaDropping)]
  {
    RaWordIsNotSpecial(ParsePos(ctx.tokens[1].feature));
    assert SpecialRaDiags(ctx, 1) == SpecialRaDiags(ctx, 0) + SpecialRaDiag(ctx, 0) == [];
    assert SpecialRaDiags(ctx, 2) == SpecialRaDiags(ctx, 1) + SpecialRaDiag(ctx, 1) == [];
    assert RaPairDiags(ctx, 2) == RaPairDiags(ctx, 1) + RaPairDiag(ctx, 1);
  }

  /** 来れる or 見れる on its own gives one report over that token. */
  lemma RaSpecialAlone(ctx: RuleContext)
    requires ValidContext(ctx) && |ctx.tokens| == 1
    requires IsSpecialRaCase(ParsePos(ctx.tokens[0].feature))
    ensures var b := ctx.tokenBytePositions[0];
      RaDroppingDiags(ctx) == [Diagnostic(RangeOf(ctx, b, b + |ctx.tokens[0].surface|), ctx.severity, RaDropping)]
  {
    assert SpecialRaDiags(ctx, 1) == SpecialRaDiags(ctx, 0) + SpecialRaDiag(ctx, 0);
    assert RaPairDiags(ctx, 1) == [];
  }

  // ---------------------------------------------------------------------------
  // The rule engine

  /** The rule a diagnostic comes from, numbered in the order `checkGrammar` runs the rules. */
  function RuleIndex(m: DiagMessage): (r: nat)
    ensures r < 6
  {
    match m
    case CommaLimitExceeded(_, _) => 0
    case AdversativeGaExceeded(_, _) => 1
    case DuplicateParticle(_) => 2
    case AdjacentParticles => 3
    case DuplicateConjunction(_) => 4
    case RaDropping => 5
  }

  /** The configuration switches rule `rule` on. */
  predicate Enabled(rules: RuleToggles, rule: nat) {
    if rule == 0 then rules.commaLimit
    else if rule == 1 then rules.adversativeGa
    else if rule == 2 then rules.duplicateParticleSurface
    else if rule == 3 then rules.adjacentParticles
    else if rule == 4 then rules.conjunctionRepeat
    else if rule == 5 then rules.raDropping
    else false
  }

  /** What rule `rule` appends when it runs, with the limit the configuration gives it. */
  function RuleOutput(ctx: RuleContext, rules: RuleToggles, rule: nat): seq<Diagnostic>
    requires ValidContext(ctx)
  {
    if rule == 0 then CommaLimitDiags(ctx, rules.commaLimitMax)
    else if rule == 1 then AdversativeGaDiags(ctx, rules.adversativeGaMax)
    else if rule == 2 then DuplicateParticleDiags(ctx, rules.duplicateParticleSurfaceMaxRepeat)
    else if rule == 3 then AdjacentParticleDiags(ctx, rules.adjacentParticlesMaxRepeat)
    else if rule == 4 then ConjunctionDiags(ctx, rules.conjunctionRepeatMax)
    else if rule == 5 then RaDroppingDiags(ctx)
    else []
  }

  /** What rule `rule` contributes: its output when it is switched on, nothing otherwise. */
  function RulePart(ctx: RuleContext, rules: RuleToggles, rule: nat): seq<Diagnostic>
    requires ValidContext(ctx)
  {
    if Enabled(rules, rule) then RuleOutput(ctx, rules, rule) else []
  }

  /** The contributions of the first `n` rules, in order. */
  function RulesUpTo(ctx: RuleContext, rules: RuleToggles, n: nat): seq<Diagnostic>
    requires ValidContext(ctx)
  {
    if n == 0 then [] else RulesUpTo(ctx, rules, n - 1) + RulePart(ctx, rules, n - 1)
  }

  /** The context `checkGrammar` builds: the line table, each token's start byte, and severity 2. */
  function GrammarContext(text: Bytes, tokens: seq<TokenData>, sentences: seq<SentenceBoundary>): (ctx: RuleContext)
    ensures ValidContext(ctx) && ctx.severity == RuleSeverity
  {
    var lineStarts := LineStarts(text);
    RuleContext(text, tokens, sentences, lineStarts, TokenBytePositions(tokens, text, lineStarts), RuleSeverity)
  }

  /**
   * `checkGrammar`: nothing without a configuration, with the grammar check
   * off, or when the minimum severity is above the rules' fixed severity 2;
   * otherwise the six rules, each when switched on, in order.
   */
  function GrammarDiags(text: Bytes, tokens: seq<TokenData>, sentences: seq<SentenceBoundary>,
                        config: Option<AnalysisConfig>): seq<Diagnostic>
  {
    if config.None? || !config.value.grammarCheck || RuleSeverity < config.value.warningMinSeverity then []
    else RulesUpTo(GrammarContext(text, tokens, sentences), config.value.rules, 6)
  }

  method CheckGrammar(text: Bytes, tokens: seq<TokenData>, sentences: seq<SentenceBoundary>,
                      diags: seq<Diagnostic>, config: Option<AnalysisConfig>)
    returns (out: seq<Diagnostic>)
    ensures out == diags + GrammarDiags(text, tokens, sentences, config)
  {
    out := diags;
    if config.None? || !config.value.grammarCheck {
      return;
    }
    var lineStarts := ComputeLineStarts(text);
    var tokenBytePositions := ComputeTokenBytePositions(tokens, text, lineStarts);
    var severity := 2;
    var minSeverity := config.value.warningMinSeverity;
    if severity < minSeverity {
      return;
    }
    var ctx := RuleContext(text, tokens, sentences, lineStarts, tokenBytePositions, severity);
    assert ctx == GrammarContext(text, tokens, sentences);
    out := RunRules(ctx, config.value.rules, diags);
  }

  /** The rule calls of `checkGrammar`, each when the configuration switches it on. */
  method RunRules(ctx: RuleContext, rules: RuleToggles, diags: seq<Diagnostic>) returns (out: seq<Diagnostic>)
    requires ValidContext(ctx)
    ensures out == diags + RulesUpTo(ctx, rules, 6)
  {
    out := diags;
    ghost var before := out;
    if rules.commaLimit {
      out := CheckCommaLimit(ctx, out, rules.commaLimitMax);
    }
    RulesAdvance(ctx, rules, diags, before, out, 0);
    before := out;
    if rules.adversativeGa {
      out := CheckAdversativeGa(ctx, out, rules.adversativeGaMax);
    }
    RulesAdvance(ctx, rules, diags, before, out, 1);
    before := out;
    if rules.duplicateParticleSurface {
      out := CheckDuplicateParticleSurface(ctx, out, rules.duplicateParticleSurfaceMaxRepeat);
    }
    RulesAdvance(ctx, rules, diags, before, out, 2);
    before := out;
    if rules.adjacentParticles {
      out := CheckAdjacentParticles(ctx, out, rules.adjacentParticlesMaxRepeat);
    }
    RulesAdvance(ctx, rules, diags, before, out, 3);
    before := out;
    if rules.conjunctionRepeat {
      out := CheckConjunctionRepeats(ctx, out, rules.conjunctionRepeatMax);
    }
    RulesAdvance(ctx, rules, diags, before, out, 4);
    before := out;
    if rules.raDropping {
      out := CheckRaDropping(ctx, out);
    }
    RulesAdvance(ctx, rules, diags, before, out, 5);
  }

  /** Running rule `rule` after the earlier ones extends the list by its contribution. */
  lemma RulesAdvance(ctx: RuleContext, rules: RuleToggles, diags: seq<Diagnostic>,
                     before: seq<Diagnostic>, after: seq<Diagnostic>, rule: nat)
    requires ValidContext(ctx)
    requires before == diags + RulesUpTo(ctx, rules, rule)
    requires Enabled(rules, rule) ==> after == before + RuleOutput(ctx, rules, rule)
    requires !Enabled(rules, rule) ==> after == before
    ensures after == diags + RulesUpTo(ctx, rules, rule + 1)
  {
    TextProcessor.AppendAssociative(diags, RulesUpTo(ctx, rules, rule), RulePart(ctx, rules, rule));
  }

  /** Every diagnostic of the list has the severity and comes from rule `rule`. */
  predicate AllFrom(ds: seq<Diagnostic>, severity: int, rule: nat) {
    forall k :: 0 <= k < |ds| ==> ds[k].severity == severity && RuleIndex(ds[k].message) == rule
  }

  lemma AllFromConcat(a: seq<Diagnostic>, b: seq<Diagnostic>, severity: int, rule: nat)
    requires AllFrom(a, severity, rule) && AllFrom(b, severity, rule)
    ensures AllFrom(a + b, severity, rule)
  {
  }

  lemma {:induction false} DupScanFrom(ctx: RuleContext, s: SentenceBoundary, maxRepeat: int, n: nat)
    requires ValidContext(ctx) && n <= |ctx.tokens|
    ensures AllFrom(DupScan(ctx, s, maxRepeat, n).1, ctx.severity, 2)
  {
    if n > 0 {
      var p := DupScan(ctx, s, maxRepeat, n - 1);
      var q := DupStep(ctx, s, maxRepeat, p.0, n - 1);
      DupScanStep(ctx, s, maxRepeat, n);
      DupScanFrom(ctx, s, maxRepeat, n - 1);
      DupStepFrom(ctx, s, maxRepeat, p.0, n - 1);
      AllFromConcat(p.1, q.1, ctx.severity, 2);
    }
  }

  lemma DupScanStep(ctx: RuleContext, s: SentenceBoundary, maxRepeat: int, n: nat)
    requires ValidContext(ctx) && 0 < n <= |ctx.tokens|
    ensures DupScan(ctx, s, maxRepeat, n).1
         == DupScan(ctx, s, maxRepeat, n - 1).1 + DupStep(ctx, s, maxRepeat, DupScan(ctx, s, maxRepeat, n - 1).0, n - 1).1
  {
  }

  lemma DupStepFrom(ctx: RuleContext, s: SentenceBoundary, maxRepeat: int, st: DupState, i: nat)
    requires ValidContext(ctx) && i < |ctx.tokens|
    ensures AllFrom(DupStep(ctx, s, maxRepeat, st, i).1, ctx.severity, 2)
  {
  }

  lemma {:induction false} DupDiagsFrom(ctx: RuleContext, maxRepeat: int, ss: seq<SentenceBoundary>)
    requires ValidContext(ctx)
    ensures AllFrom(DupDiags(ctx, maxRepeat, ss), ctx.severity, 2)
    decreases |ss|
  {
    if |ss| > 0 {
      DupDiagsFrom(ctx, maxRepeat, ss[..|ss| - 1]);
      DupScanFrom(ctx, ss[|ss| - 1], maxRepeat, |ctx.tokens|);
      AllFromConcat(DupDiags(ctx, maxRepeat, ss[..|ss| - 1]), DupScan(ctx, ss[|ss| - 1], maxRepeat, |ctx.tokens|).1,
                    ctx.severity, 2);
    }
  }

  lemma AdjScanFrom(ctx: RuleContext, s: SentenceBoundary, maxRepeat: int)
    requires ValidContext(ctx)
    ensures AllFrom(AdjScan(ctx, s, maxRepeat, |ctx.tokens|).1, ctx.severity, 3)
  {
    var ds := AdjScan(ctx, s, maxRepeat, |ctx.tokens|).1;
    AdjacentReportsSpanPairs(ctx, s, maxRepeat);
    forall k | 0 <= k < |ds|
      ensures ds[k].severity == ctx.severity && RuleIndex(ds[k].message) == 3
    {
      assert ds[k] in ds;
    }
  }

  lemma {:induction false} AdjDiagsFrom(ctx: RuleContext, maxRepeat: int, ss: seq<SentenceBoundary>)
    requires ValidContext(ctx)
    ensures AllFrom(AdjDiags(ctx, maxRepeat, ss), ctx.severity, 3)
    decreases |ss|
  {
    if |ss| > 0 {
      AdjDiagsFrom(ctx, maxRepeat, ss[..|ss| - 1]);
      AdjScanFrom(ctx, ss[|ss| - 1], maxRepeat);
      AllFromConcat(AdjDiags(ctx, maxRepeat, ss[..|ss| - 1]), AdjScan(ctx, ss[|ss| - 1], maxRepeat, |ctx.tokens|).1,
                    ctx.severity, 3);
    }
  }

  lemma {:induction false} ConjScanFrom(ctx: RuleContext, maxRepeat: int, n: nat)
    requires ValidContext(ctx) && n <= |ctx.tokens|
    ensures AllFrom(ConjScan(ctx, maxRepeat, n).1, ctx.severity, 4)
  {
    if n > 0 {
      var p := ConjScan(ctx, maxRepeat, n - 1);
      var q := ConjStep(ctx, maxRepeat, p.0, n - 1);
      ConjScanStep(ctx, maxRepeat, n);
      ConjScanFrom(ctx, maxRepeat, n - 1);
      ConjStepFrom(ctx, maxRepeat, p.0, n - 1);
      AllFromConcat(p.1, q.1, ctx.severity, 4);
    }
  }

  lemma ConjStepFrom(ctx: RuleContext, maxRepeat: int, st: ConjState, i: nat)
    requires ValidContext(ctx) && i < |ctx.tokens|
    ensures AllFrom(ConjStep(ctx, maxRepeat, st, i).1, ctx.severity, 4)
  {
  }

  lemma {:induction false} SpecialRaFrom(ctx: RuleContext, n: nat)
    requires ValidContext(ctx) && n <= |ctx.tokens|
    ensures AllFrom(SpecialRaDiags(ctx, n), ctx.severity, 5)
  {
    if n > 0 {
      SpecialRaFrom(ctx, n - 1);
      AllFromConcat(SpecialRaDiags(ctx, n - 1), SpecialRaDiag(ctx, n - 1), ctx.severity, 5);
    }
  }

  lemma {:induction false} RaPairFrom(ctx: RuleContext, n: nat)
    requires ValidContext(ctx) && n <= |ctx.tokens|
    ensures AllFrom(RaPairDiags(ctx, n), ctx.severity, 5)
  {
    if n > 1 {
      RaPairFrom(ctx, n - 1);
      AllFromConcat(RaPairDiags(ctx, n - 1), RaPairDiag(ctx, n - 1), ctx.severity, 5);
    }
  }

  /** Each rule reports at the context's severity and only its own kind of diagnostic. */
  lemma RuleOutputFrom(ctx: RuleContext, rules: RuleToggles, rule: nat)
    requires ValidContext(ctx) && rule < 6
    ensures AllFrom(RuleOutput(ctx, rules, rule), ctx.severity, rule)
  {
    if rule == 2 && rules.duplicateParticleSurfaceMaxRepeat > 0 {
      DupDiagsFrom(ctx, rules.duplicateParticleSurfaceMaxRepeat, ctx.sentences);
    } else if rule == 3 && rules.adjacentParticlesMaxRepeat > 0 {
      AdjDiagsFrom(ctx, rules.adjacentParticlesMaxRepeat, ctx.sentences);
    } else if rule == 4 && rules.conjunctionRepeatMax > 0 {
      ConjScanFrom(ctx, rules.conjunctionRepeatMax, |ctx.tokens|);
    } else if rule == 5 {
      SpecialRaFrom(ctx, |ctx.tokens|);
      RaPairFrom(ctx, |ctx.tokens|);
      AllFromConcat(SpecialRaDiags(ctx, |ctx.tokens|), RaPairDiags(ctx, |ctx.tokens|), ctx.severity, 5);
    }
  }

  /**
   * The first `n` rules report at the context's severity, only from rules
   * that are switched on, and in rule order: every diagnostic of an earlier
   * rule comes before every diagnostic of a later one.
   */
  predicate InRuleOrder(ds: seq<Diagnostic>, severity: int, rules: RuleToggles, n: nat) {
    && (forall k :: 0 <= k < |ds| ==>
          ds[k].severity == severity && RuleIndex(ds[k].message) < n && Enabled(rules, RuleIndex(ds[k].message)))
    && (forall j, k :: 0 <= j < k < |ds| ==> RuleIndex(ds[j].message) <= RuleIndex(ds[k].message))
  }

  lemma {:induction false} RulesUpToInOrder(ctx: RuleContext, rules: RuleToggles, n: nat)
    requires ValidContext(ctx) && n <= 6
    ensures InRuleOrder(RulesUpTo(ctx, rules, n), ctx.severity, rules, n)
  {
    if n > 0 {
      RulesUpToInOrder(ctx, rules, n - 1);
      if Enabled(rules, n - 1) {
        RuleOutputFrom(ctx, rules, n - 1);
      }
      InRuleOrderAppend(RulesUpTo(ctx, rules, n - 1), RulePart(ctx, rules, n - 1), ctx.severity, rules, n - 1);
    }
  }

  /** Appending the reports of rule `n`, switched on, to those of the rules before it keeps the order. */
  lemma InRuleOrderAppend(a: seq<Diagnostic>, b: seq<Diagnostic>, severity: int, rules: RuleToggles, n: nat)
    requires InRuleOrder(a, severity, rules, n)
    requires AllFrom(b, severity, n) && (|b| > 0 ==> Enabled(rules, n))
    ensures InRuleOrder(a + b, severity, rules, n + 1)
  {
    var c := a + b;
    forall j, k | 0 <= j < k < |c|
      ensures RuleIndex(c[j].message) <= RuleIndex(c[k].message)
    {
      if k < |a| {
        assert c[j] == a[j] && c[k] == a[k];
      } else if j < |a| {
        assert c[j] == a[j] && c[k] == b[k - |a|];
      } else {
        assert c[j] == b[j - |a|] && c[k] == b[k - |a|];
      }
    }
  }

  /**
   * `checkGrammar` reports nothing unless a configuration is given, the
   * grammar check is on and the minimum severity admits warnings; whatever it
   * reports is a warning (severity 2) from a rule the configuration switches
   * on, and the rules' reports come in the order the rules run.
   */
  lemma GrammarReports(text: Bytes, tokens: seq<TokenData>, sentences: seq<SentenceBoundary>,
                       config: Option<AnalysisConfig>)
    ensures var r := GrammarDiags(text, tokens, sentences, config);
      && (|r| > 0 ==> config.Some? && PassesSeverityGate(config.value))
      && (config.Some? ==> InRuleOrder(r, RuleSeverity, config.value.rules, 6))
  {
    if config.Some? && PassesSeverityGate(config.value) {
      RulesUpToInOrder(GrammarContext(text, tokens, sentences), config.value.rules, 6);
    }
  }
}
