/**
 * The document state of the language server (`LSPServer`): the open
 * documents and what the server remembers about each of them, updated by
 * the notifications the client sends, and the answers it gives from that
 * state.
 *
 * Three services come from outside and are parameters of the server: the
 * tree-sitter parser (`Parser`: a language id and a text to a syntax tree),
 * and the morphological analyzer's token list (`Tokenizer`) and grammar
 * check (`GrammarCheck`) of an analysis text.  The notifications the server
 * sends after an analysis are returned as a value (`Published`) rather than
 * written to the client.
 */
module LspServer {
  import opened ByteText
  import opened LspTypes
  import opened CommentExtractor
  import opened AnalysisText
  import Utf16
  import HtmlContent
  import LatexScan
  import SemanticTokens
  import LineDiff

  type Uri = Bytes
  type Parser = (Bytes, Bytes) -> SyntaxNode
  type Tokenizer = Bytes -> seq<TokenData>
  type GrammarCheck = Bytes -> seq<Diagnostic>

  // ---------------------------------------------------------------------------
  // Document edits

  /** The range of an incremental change, as (line, UTF-16 column) pairs. */
  datatype ChangeRange = ChangeRange(startLine: nat, startChar: nat, endLine: nat, endChar: nat)

  /** One entry of `contentChanges`: a replacement of a range, or of the whole document when there is no range. */
  datatype ContentChange = ContentChange(range: Option<ChangeRange>, text: Bytes)

  /**
   * `std::string::replace(start, end - start, insert)` with both offsets
   * inside the text: the bytes from `start` to `end` give way to `insert`.
   * When `end` lies before `start` the unsigned count wraps around to a huge
   * number, which the replacement clamps to the rest of the text.
   */
  function Splice(text: Bytes, start: nat, end: nat, insert: Bytes): (r: Bytes)
    requires start <= |text| && end <= |text|
    ensures start + |insert| <= |r|
    ensures r[..start] == text[..start]
    ensures r[start..start + |insert|] == insert
    ensures start <= end ==> |r| == |text| - (end - start) + |insert| && r[start + |insert|..] == text[end..]
    ensures end < start ==> |r| == start + |insert|
  {
    if start <= end then text[..start] + insert + text[end..] else text[..start] + insert
  }

  /** One change: a ranged change splices at the offsets of its two positions; one without a range replaces everything. */
  function ApplyChange(text: Bytes, c: ContentChange): Bytes {
    match c.range
    case None => c.text
    case Some(r) =>
      Splice(text, Utf16.ComputeByteOffset(text, r.startLine, r.startChar),
             Utf16.ComputeByteOffset(text, r.endLine, r.endChar), c.text)
  }

  /** The changes of one notification, applied from the last to the first. */
  function ApplyChanges(text: Bytes, cs: seq<ContentChange>): Bytes
    decreases |cs|
  {
    if |cs| == 0 then text else ApplyChanges(ApplyChange(text, cs[|cs| - 1]), cs[..|cs| - 1])
  }

  /**
   * The last change of a notification is applied first, to the text as the
   * client had it before the notification, and a whole-document change at
   * the head of the list decides the result whatever follows it.
   */
  lemma ApplyChangesOrder(text: Bytes, cs: seq<ContentChange>, c: ContentChange)
    ensures ApplyChanges(text, cs + [c]) == ApplyChanges(ApplyChange(text, c), cs)
    ensures ApplyChanges(text, [c]) == ApplyChange(text, c)
    ensures c.range.None? ==> ApplyChanges(text, [c] + cs) == c.text
  {
    assert (cs + [c])[..|cs|] == cs;
    assert [c][..0] == [];
    if c.range.None? {
      WholeChangeDecides(text, cs, c);
    }
  }

  /** A change without a range at the head of the list is applied last, so its text is the result. */
  lemma {:induction false} WholeChangeDecides(text: Bytes, cs: seq<ContentChange>, c: ContentChange)
    requires c.range.None?
    ensures ApplyChanges(text, [c] + cs) == c.text
    decreases |cs|
  {
    if |cs| > 0 {
      var init := cs[..|cs| - 1];
      assert ([c] + cs)[..|cs|] == [c] + init;
      WholeChangeDecides(ApplyChange(text, cs[|cs| - 1]), init, c);
    } else {
      assert [c] + cs == [c];
      assert [c][..0] == [];
    }
  }

  /**
   * Two insertions into "ab", "X" at column 0 and then "Y" at column 1:
   * the second is made first, at column 1 of "ab", so the result is "XaYb".
   */
  lemma LastChangeFirstExample(x: ContentChange, y: ContentChange)
    requires x == ContentChange(Some(ChangeRange(0, 0, 0, 0)), [0x58])
    requires y == ContentChange(Some(ChangeRange(0, 1, 0, 1)), [0x59])
    ensures ApplyChanges([0x61, 0x62], [x, y]) == [0x58, 0x61, 0x59, 0x62]
  {
    var ab: Bytes := [0x61, 0x62];
    assert Utf16.ComputeByteOffset(ab, 0, 1) == 1;
    var ayb: Bytes := [0x61, 0x59, 0x62];
    assert ApplyChange(ab, y) == ayb;
    assert Utf16.ComputeByteOffset(ayb, 0, 0) == 0;
    assert [x, y][..1] == [x];
    ApplyChangesOrder(ayb, [], x);
  }

  /**
   * The edit loop of `onDidChange`: from the last change to the first, a
   * ranged change replaces the bytes between its two offsets and a change
   * without a range replaces the whole text.
   */
  method ApplyContentChanges(text: Bytes, changes: seq<ContentChange>) returns (result: Bytes)
    ensures result == ApplyChanges(text, changes)
  {
    result := text;
    var i := |changes|;
    assert changes[..i] == changes;
    while i > 0
      invariant 0 <= i <= |changes|
      invariant ApplyChanges(result, changes[..i]) == ApplyChanges(text, changes)
      decreases i
    {
      i := i - 1;
      var change := changes[i];
      assert changes[..i + 1][..i] == changes[..i];
      if change.range.Some? {
        var range := change.range.value;
        var startOffset := Utf16.ComputeByteOffset(result, range.startLine, range.startChar);
        var endOffset := Utf16.ComputeByteOffset(result, range.endLine, range.endChar);
        if startOffset <= endOffset {
          result := result[..startOffset] + change.text + result[endOffset..];
        } else {
          result := result[..startOffset] + change.text;
        }
      } else {
        result := change.text;
      }
    }
    assert changes[..0] == [];
  }

  // ---------------------------------------------------------------------------
  // The diagnostic cache

  /** Every cached diagnostic sits under the line its range starts on. */
  predicate KeyedByLine(cache: map<int, seq<Diagnostic>>) {
    forall l, d :: l in cache && d in cache[l] ==> d.range.start.line == l
  }

  /** The diagnostics of `ds` that start on line `l`, in their order. */
  function OnLine(ds: seq<Diagnostic>, l: int): (r: seq<Diagnostic>)
    ensures forall d :: d in r ==> d in ds && d.range.start.line == l
    decreases |ds|
  {
    if |ds| == 0 then []
    else
      var d := ds[|ds| - 1];
      OnLine(ds[..|ds| - 1], l) + (if d.range.start.line == l then [d] else [])
  }

  /** The lines some diagnostic of `ds` starts on. */
  function StartLines(ds: seq<Diagnostic>): set<int> {
    set d | d in ds :: d.range.start.line
  }

  /** The cache `cacheDiagnostics` builds: each diagnostic appended to the list of the line it starts on. */
  function ByLine(ds: seq<Diagnostic>): map<int, seq<Diagnostic>>
    decreases |ds|
  {
    if |ds| == 0 then map[]
    else
      var m := ByLine(ds[..|ds| - 1]);
      var d := ds[|ds| - 1];
      var l := d.range.start.line;
      m[l := (if l in m then m[l] else []) + [d]]
  }

  lemma {:induction false} ByLineKeys(ds: seq<Diagnostic>)
    ensures ByLine(ds).Keys == StartLines(ds)
    decreases |ds|
  {
    if |ds| > 0 {
      var init := ds[..|ds| - 1];
      var d := ds[|ds| - 1];
      ByLineKeys(init);
      assert ds == init + [d];
      assert StartLines(ds) == StartLines(init) + {d.range.start.line};
    }
  }

  lemma {:induction false} ByLineLists(ds: seq<Diagnostic>)
    ensures forall l :: OnLine(ds, l) == if l in ByLine(ds) then ByLine(ds)[l] else []
    decreases |ds|
  {
    if |ds| > 0 {
      var init := ds[..|ds| - 1];
      var d := ds[|ds| - 1];
      ByLineLists(init);
      forall l
        ensures OnLine(ds, l) == if l in ByLine(ds) then ByLine(ds)[l] else []
      {
        assert OnLine(ds, l) == OnLine(init, l) + (if d.range.start.line == l then [d] else []);
      }
    }
  }

  /**
   * The cache has a list for exactly the lines some diagnostic starts on,
   * and that list holds the diagnostics of the line in the order they came.
   */
  lemma ByLineGroups(ds: seq<Diagnostic>)
    ensures ByLine(ds).Keys == StartLines(ds)
    ensures forall l :: OnLine(ds, l) == if l in ByLine(ds) then ByLine(ds)[l] else []
    ensures KeyedByLine(ByLine(ds))
  {
    ByLineKeys(ds);
    ByLineLists(ds);
    forall l, x | l in ByLine(ds) && x in ByLine(ds)[l]
      ensures x.range.start.line == l
    {
      assert x in OnLine(ds, l);
    }
  }

  /** A diagnostic occurs on its own line's list as often as in the whole list, and on no other. */
  lemma {:induction false} OnLineCount(ds: seq<Diagnostic>, l: int, d: Diagnostic)
    ensures multiset(OnLine(ds, l))[d] == if d.range.start.line == l then multiset(ds)[d] else 0
    decreases |ds|
  {
    if |ds| > 0 {
      var init := ds[..|ds| - 1];
      OnLineCount(init, l, d);
      assert ds == init + [ds[|ds| - 1]];
    }
  }

  /** The lists of the lines of `order`, one after another, as `getAllDiagnostics` concatenates them. */
  function Flatten(cache: map<int, seq<Diagnostic>>, order: seq<int>): seq<Diagnostic>
    decreases |order|
  {
    if |order| == 0 then []
    else
      var l := order[|order| - 1];
      Flatten(cache, order[..|order| - 1]) + (if l in cache then cache[l] else [])
  }

  /** `order` lists the lines of the cache, each once: the unspecified iteration order of its hash map. */
  ghost predicate ListsKeysOnce(order: seq<int>, cache: map<int, seq<Diagnostic>>) {
    && (forall l :: l in cache <==> l in order)
    && (forall i, j :: 0 <= i < j < |order| ==> order[i] != order[j])
  }

  lemma {:induction false} FlattenCount(cache: map<int, seq<Diagnostic>>, order: seq<int>, d: Diagnostic)
    requires KeyedByLine(cache)
    requires forall i, j :: 0 <= i < j < |order| ==> order[i] != order[j]
    ensures multiset(Flatten(cache, order))[d] ==
      if d.range.start.line in order && d.range.start.line in cache then multiset(cache[d.range.start.line])[d] else 0
    decreases |order|
  {
    if |order| > 0 {
      var init := order[..|order| - 1];
      var l := order[|order| - 1];
      assert order == init + [l];
      FlattenCount(cache, init, d);
      if l != d.range.start.line && l in cache {
        assert d !in cache[l];
      }
    }
  }

  /**
   * Reading the cache back loses and duplicates nothing: in whatever order
   * the lines are visited, the diagnostics read back are those cached.
   */
  lemma CacheRoundTrip(ds: seq<Diagnostic>, order: seq<int>)
    requires ListsKeysOnce(order, ByLine(ds))
    ensures multiset(Flatten(ByLine(ds), order)) == multiset(ds)
  {
    ByLineGroups(ds);
    forall d
      ensures multiset(Flatten(ByLine(ds), order))[d] == multiset(ds)[d]
    {
      FlattenCount(ByLine(ds), order, d);
      var l := d.range.start.line;
      OnLineCount(ds, l, d);
      if d in ds {
        assert l in StartLines(ds);
      }
    }
  }

  // ---------------------------------------------------------------------------
  // Highlight notifications

  /** The protocol range of a byte span, both ends through `byteOffsetToPosition`. */
  function RangeOf(text: Bytes, span: ByteRange): Range {
    var ls := Utf16.LineStarts(text);
    Range(Utf16.PositionOf(text, ls, span.startByte), Utf16.PositionOf(text, ls, span.endByte))
  }

  function LspRanges(text: Bytes, spans: seq<ByteRange>): (r: seq<Range>)
    ensures |r| == |spans|
  {
    seq(|spans|, i requires 0 <= i < |spans| => RangeOf(text, spans[i]))
  }

  /** The loop of `sendCommentHighlights` and `sendContentHighlights`: one line table, then each span converted. */
  method ToLspRanges(text: Bytes, spans: seq<ByteRange>) returns (ranges: seq<Range>)
    ensures ranges == LspRanges(text, spans)
  {
    var lineStarts := Utf16.ComputeLineStarts(text);
    ranges := [];
    for i := 0 to |spans|
      invariant |ranges| == i
      invariant forall j :: 0 <= j < i ==> ranges[j] == RangeOf(text, spans[j])
    {
      var start := Utf16.ByteOffsetToPosition(text, lineStarts, spans[i].startByte);
      var end := Utf16.ByteOffsetToPosition(text, lineStarts, spans[i].endByte);
      ranges := ranges + [Range(start, end)];
    }
  }

  /** A span between characters of well-formed text. */
  predicate OnBoundaries(text: Bytes, span: ByteRange) {
    && span.startByte <= |text| && Utf16.IsCharBoundary(text, span.startByte)
    && span.endByte <= |text| && Utf16.IsCharBoundary(text, span.endByte)
  }

  /**
   * A client that maps a highlighted range back to bytes, the way the
   * server reads the positions of its own requests, recovers the span, as
   * long as the text is well-formed UTF-8 and the span lies between
   * characters.
   */
  lemma HighlightRoundTrip(text: Bytes, spans: seq<ByteRange>)
    requires Utf16.WellFormedUtf8(text)
    requires forall s :: s in spans ==> OnBoundaries(text, s)
    ensures forall i :: 0 <= i < |spans| ==>
      && Utf16.ComputeByteOffset(text, LspRanges(text, spans)[i].start.line, LspRanges(text, spans)[i].start.character) == spans[i].startByte
      && Utf16.ComputeByteOffset(text, LspRanges(text, spans)[i].end.line, LspRanges(text, spans)[i].end.character) == spans[i].endByte
  {
    forall i | 0 <= i < |spans|
      ensures && Utf16.ComputeByteOffset(text, LspRanges(text, spans)[i].start.line, LspRanges(text, spans)[i].start.character) == spans[i].startByte
              && Utf16.ComputeByteOffset(text, LspRanges(text, spans)[i].end.line, LspRanges(text, spans)[i].end.character) == spans[i].endByte
    {
      assert spans[i] in spans;
      Utf16.ComputedOffsetOfPosition(text, spans[i].startByte);
      Utf16.ComputedOffsetOfPosition(text, spans[i].endByte);
    }
  }

  /** The notifications that follow an analysis: the diagnostics, the comment and content highlights and the semantic highlights. */
  datatype Published = Published(
    diagnostics: seq<Diagnostic>,
    commentHighlights: seq<Range>,
    contentHighlights: seq<Range>,
    semanticHighlights: seq<TokenData>)

  function OrEmpty<T>(o: Option<seq<T>>): seq<T> {
    if o.Some? then o.value else []
  }

  /** What `analyzeAndPublish` sends for `text` of language `lang`, prepared as `p`, with the analyzer's tokens and diagnostics. */
  function Notifications(text: Bytes, lang: Option<Bytes>, p: Prepared, tokens: seq<TokenData>, diags: seq<Diagnostic>): Published {
    Published(diags,
      LspRanges(text, Spans(OrEmpty(p.comments))),
      LspRanges(text, OrEmpty(p.content)),
      if lang == Some(Japanese) then [] else tokens)
  }

  /** The parse tree the server asks for: none is needed for a document without a language. */
  function TreeOf(lang: Option<Bytes>, text: Bytes, parse: Parser): SyntaxNode {
    match lang
    case None => SyntaxNode([], 0, 0, [])
    case Some(id) => parse(id, text)
  }

  function PreparedFor(lang: Option<Bytes>, text: Bytes, parse: Parser): Prepared {
    Prepare(lang, text, TreeOf(lang, text, parse))
  }

  /**
   * A "japanese" document gets its diagnostics and nothing else: no
   * comment, content or semantic highlights; any other document has its
   * tokens sent as semantic highlights, and only HTML and LaTeX documents
   * have content highlights.
   */
  lemma NotificationsGating(text: Bytes, lang: Option<Bytes>, parse: Parser, tokens: seq<TokenData>, diags: seq<Diagnostic>)
    ensures lang == Some(Japanese) ==>
      Notifications(text, lang, PreparedFor(lang, text, parse), tokens, diags) == Published(diags, [], [], [])
    ensures lang != Some(Japanese) ==>
      Notifications(text, lang, PreparedFor(lang, text, parse), tokens, diags).semanticHighlights == tokens
    ensures (lang.None? || (lang.value != Html && lang.value != Latex)) ==>
      Notifications(text, lang, PreparedFor(lang, text, parse), tokens, diags).contentHighlights == []
  {
  }

  // ---------------------------------------------------------------------------
  // Hover

  /** What the server knows about one open document. */
  datatype DocView = DocView(
    text: Bytes,
    language: Option<Bytes>,
    tokens: Option<seq<TokenData>>,
    comments: Option<seq<CommentSegment>>,
    content: Option<seq<ByteRange>>)

  /** Offset `k` lies in one of the spans. */
  predicate Covers(rs: seq<ByteRange>, k: nat) {
    exists r :: r in rs && r.startByte <= k < r.endByte
  }

  /** Token `t` covers the position (`line`, `character`). */
  predicate OnToken(t: TokenData, line: int, character: int) {
    t.line == line && t.startChar <= character < t.endChar
  }

  /** The index of the first token from `j` on that covers the position. */
  function FirstTokenAt(ts: seq<TokenData>, line: int, character: int, j: nat): (r: Option<nat>)
    ensures r.Some? ==> j <= r.value < |ts| && OnToken(ts[r.value], line, character)
    ensures r.Some? ==> forall k :: j <= k < r.value ==> !OnToken(ts[k], line, character)
    ensures r.None? ==> forall k :: j <= k < |ts| ==> !OnToken(ts[k], line, character)
    decreases |ts| - j
  {
    if j >= |ts| then None
    else if OnToken(ts[j], line, character) then Some(j)
    else FirstTokenAt(ts, line, character, j + 1)
  }

  /**
   * Hover is answered in a "japanese" document everywhere; in any other,
   * only inside a remembered comment, or inside the body text of an HTML or
   * LaTeX document.
   */
  predicate HoverAllowed(v: DocView, line: nat, character: nat) {
    || v.language == Some(Japanese)
    || var offset := Utf16.ComputeByteOffset(v.text, line, character);
       || (v.comments.Some? && InSomeComment(v.comments.value, offset))
       || (v.language.Some? && (v.language.value == Html || v.language.value == Latex)
           && v.content.Some? && Covers(v.content.value, offset))
  }

  /** The token `onHover` describes: the first analysed token at the position, where hover is allowed. */
  function Hover(v: Option<DocView>, line: nat, character: nat): Option<TokenData> {
    if v.None? || v.value.tokens.None? || !HoverAllowed(v.value, line, character) then None
    else
      match FirstTokenAt(v.value.tokens.value, line, character, 0)
      case None => None
      case Some(i) => Some(v.value.tokens.value[i])
  }

  /** The scan of `onHover` over the remembered comments, stopping at the first that holds the offset. */
  method InsideSomeComment(segments: seq<CommentSegment>, offset: nat) returns (inside: bool)
    ensures inside == InSomeComment(segments, offset)
  {
    inside := false;
    var i := 0;
    while i < |segments| && !inside
      invariant 0 <= i <= |segments|
      invariant inside <==> InSomeComment(segments[..i], offset)
    {
      assert segments[..i + 1] == segments[..i] + [segments[i]];
      if offset >= segments[i].startByte && offset < segments[i].endByte {
        inside := true;
      }
      i := i + 1;
    }
    assert !inside ==> segments[..i] == segments;
  }

  /** The scan of `onHover` over the content ranges, stopping at the first that holds the offset. */
  method InsideSomeRange(ranges: seq<ByteRange>, offset: nat) returns (inside: bool)
    ensures inside == Covers(ranges, offset)
  {
    inside := false;
    var i := 0;
    while i < |ranges| && !inside
      invariant 0 <= i <= |ranges|
      invariant inside <==> Covers(ranges[..i], offset)
    {
      assert ranges[..i + 1] == ranges[..i] + [ranges[i]];
      if offset >= ranges[i].startByte && offset < ranges[i].endByte {
        inside := true;
      }
      i := i + 1;
    }
    assert !inside ==> ranges[..i] == ranges;
  }

  /** The token search of `onHover`: the first token covering the position. */
  method FindTokenAt(tokens: seq<TokenData>, line: int, character: int) returns (found: Option<TokenData>)
    ensures found == match FirstTokenAt(tokens, line, character, 0)
                     case None => None
                     case Some(i) => Some(tokens[i])
  {
    for i := 0 to |tokens|
      invariant FirstTokenAt(tokens, line, character, 0) == FirstTokenAt(tokens, line, character, i)
    {
      if tokens[i].line == line && character >= tokens[i].startChar && character < tokens[i].endChar {
        return Some(tokens[i]);
      }
    }
    return None;
  }

  /**
   * Hover names a token exactly when the document is open and analysed,
   * hover is allowed there and some token covers the position; the token
   * named covers the position and no earlier one does.  In a document of
   * another language than "japanese", "html" and "latex" only comments
   * answer.
   */
  lemma HoverSpec(v: Option<DocView>, line: nat, character: nat)
    ensures Hover(v, line, character).Some? <==>
      && v.Some? && v.value.tokens.Some? && HoverAllowed(v.value, line, character)
      && exists t :: t in v.value.tokens.value && OnToken(t, line, character)
    ensures Hover(v, line, character).Some? ==>
      exists i :: 0 <= i < |v.value.tokens.value| && v.value.tokens.value[i] == Hover(v, line, character).value
        && OnToken(v.value.tokens.value[i], line, character)
        && forall k :: 0 <= k < i ==> !OnToken(v.value.tokens.value[k], line, character)
    ensures v.Some? && v.value.language.Some? &&
            v.value.language.value != Japanese && v.value.language.value != Html && v.value.language.value != Latex &&
            Hover(v, line, character).Some? ==>
      v.value.comments.Some? && InSomeComment(v.value.comments.value, Utf16.ComputeByteOffset(v.value.text, line, character))
  {
    if v.Some? && v.value.tokens.Some? {
      var ts := v.value.tokens.value;
      var r := FirstTokenAt(ts, line, character, 0);
      if r.Some? {
        assert ts[r.value] in ts;
      }
    }
  }

  // ---------------------------------------------------------------------------
  // The server

  function Lookup<T>(m: map<Uri, T>, uri: Uri): Option<T> {
    if uri in m then Some(m[uri]) else None
  }

  /** Forgets the entry of `uri` (`None`) or remembers `v` for it. */
  function Remember<T>(m: map<Uri, T>, uri: Uri, v: Option<T>): map<Uri, T> {
    match v
    case None => m - {uri}
    case Some(x) => m[uri := x]
  }

  /** Storing a value for `uri` hides what was stored for it before. */
  lemma OverwriteEntry<V>(a: map<Uri, V>, uri: Uri, w: V, v: V)
    ensures a[uri := w][uri := v] == a[uri := v]
  {
  }

  class Server {
    /** The text of each open document. */
    var docs: map<Uri, Bytes>
    /** The language id the client gave when it opened a document. */
    var docLanguages: map<Uri, Bytes>
    /** The tokens of each document's last analysis, for hover and semantic tokens. */
    var docTokens: map<Uri, seq<TokenData>>
    /** The diagnostics of each document's last analysis, by the line they start on. */
    var docDiagnostics: map<Uri, map<int, seq<Diagnostic>>>
    /** The comments of each document that has them. */
    var docCommentSegments: map<Uri, seq<CommentSegment>>
    /** The highlighted body text (and comments) of HTML and LaTeX documents. */
    var docContentHighlightRanges: map<Uri, seq<ByteRange>>
    const tokenTypes: seq<string>
    const tokenModifiers: seq<string>
    const parse: Parser
    const analyze: Tokenizer
    const check: GrammarCheck

    ghost predicate Valid()
      reads this
    {
      forall u :: u in docDiagnostics ==> KeyedByLine(docDiagnostics[u])
    }

    /** A server with no documents, announcing the token legends of `LspTypes`. */
    constructor(parse: Parser, analyze: Tokenizer, check: GrammarCheck)
      ensures Valid()
      ensures docs == map[] && docLanguages == map[] && docTokens == map[] && docDiagnostics == map[]
      ensures docCommentSegments == map[] && docContentHighlightRanges == map[]
      ensures tokenTypes == TokenTypeLegend && tokenModifiers == ModifierLegend
      ensures this.parse == parse && this.analyze == analyze && this.check == check
    {
      docs := map[];
      docLanguages := map[];
      docTokens := map[];
      docDiagnostics := map[];
      docCommentSegments := map[];
      docContentHighlightRanges := map[];
      tokenTypes := TokenTypeLegend;
      tokenModifiers := ModifierLegend;
      this.parse := parse;
      this.analyze := analyze;
      this.check := check;
    }

    function Language(uri: Uri): Option<Bytes>
      reads this
    {
      Lookup(docLanguages, uri)
    }

    /** What a hover request can see of document `uri`. */
    function View(uri: Uri): Option<DocView>
      reads this
    {
      if uri !in docs then None
      else Some(DocView(docs[uri], Language(uri), Lookup(docTokens, uri),
                        Lookup(docCommentSegments, uri), Lookup(docContentHighlightRanges, uri)))
    }

    /**
     * The state after `analyzeAndPublish(uri, text)`, given the maps before
     * it: the tokens and diagnostics of the prepared text are stored, the
     * comments and highlights of the preparation remembered or forgotten,
     * and the notifications sent.
     */
    ghost predicate AnalysisStored(uri: Uri, text: Bytes,
        tokens0: map<Uri, seq<TokenData>>, diags0: map<Uri, map<int, seq<Diagnostic>>>,
        comments0: map<Uri, seq<CommentSegment>>, content0: map<Uri, seq<ByteRange>>,
        published: Published)
      reads this
    {
      var p := PreparedFor(Language(uri), text, parse);
      var tokens := analyze(p.analysis);
      var diags := check(p.analysis);
      (docTokens, docDiagnostics, docCommentSegments, docContentHighlightRanges, published) ==
      (tokens0[uri := tokens], diags0[uri := ByLine(diags)], Remember(comments0, uri, p.comments),
       Remember(content0, uri, p.content), Notifications(text, Language(uri), p, tokens, diags))
    }

    /** `textDocument/didOpen`: store the text and the language id, if the client sent one, then analyse. */
    method OnDidOpen(uri: Uri, text: Bytes, languageId: Option<Bytes>) returns (published: Published)
      requires Valid()
      modifies this`docs, this`docLanguages, this`docTokens, this`docDiagnostics, this`docCommentSegments, this`docContentHighlightRanges
      ensures Valid()
      ensures docs == old(docs)[uri := text]
      ensures docLanguages == if languageId.Some? then old(docLanguages)[uri := languageId.value] else old(docLanguages)
      ensures AnalysisStored(uri, text, old(docTokens), old(docDiagnostics), old(docCommentSegments),
                             old(docContentHighlightRanges), published)
    {
      docs := docs[uri := text];
      if languageId.Some? {
        docLanguages := docLanguages[uri := languageId.value];
      }
      published := AnalyzeAndPublish(uri, text);
    }

    /**
     * `textDocument/didChange`: the changes are applied to the stored text
     * (an empty text when the document was never opened), the last change
     * first, then the document is analysed again.
     */
    method OnDidChange(uri: Uri, changes: seq<ContentChange>) returns (published: Published)
      requires Valid()
      modifies this`docs, this`docTokens, this`docDiagnostics, this`docCommentSegments, this`docContentHighlightRanges
      ensures Valid()
      ensures docs == old(docs)[uri := ApplyChanges(if uri in old(docs) then old(docs)[uri] else [], changes)]
      ensures AnalysisStored(uri, docs[uri], old(docTokens), old(docDiagnostics), old(docCommentSegments),
                             old(docContentHighlightRanges), published)
    {
      var text := if uri in docs then docs[uri] else [];
      var oldText := text;
      text := ApplyContentChanges(text, changes);
      docs := docs[uri := text];
      published := AnalyzeChangedLines(uri, text, oldText);
    }

    /** `textDocument/didSave`: analyse an open document again. */
    method OnDidSave(uri: Uri) returns (published: Option<Published>)
      requires Valid()
      modifies this`docTokens, this`docDiagnostics, this`docCommentSegments, this`docContentHighlightRanges
      ensures Valid()
      ensures uri !in docs ==>
        && published.None? && docTokens == old(docTokens) && docDiagnostics == old(docDiagnostics)
        && docCommentSegments == old(docCommentSegments) && docContentHighlightRanges == old(docContentHighlightRanges)
      ensures uri in docs ==>
        && published.Some?
        && AnalysisStored(uri, docs[uri], old(docTokens), old(docDiagnostics), old(docCommentSegments),
                          old(docContentHighlightRanges), published.value)
    {
      published := None;
      if uri in docs {
        var p := AnalyzeAndPublish(uri, docs[uri]);
        published := Some(p);
      }
    }

    /**
     * `analyzeChangedLines`: the cached diagnostics of the lines that differ
     * are dropped, then the whole document is analysed again, which replaces
     * the document's whole cache anyway.
     */
    method AnalyzeChangedLines(uri: Uri, newText: Bytes, oldText: Bytes) returns (published: Published)
      requires Valid()
      modifies this`docTokens, this`docDiagnostics, this`docCommentSegments, this`docContentHighlightRanges
      ensures Valid()
      ensures AnalysisStored(uri, newText, old(docTokens), old(docDiagnostics), old(docCommentSegments),
                             old(docContentHighlightRanges), published)
    {
      var changedLines := LineDiff.FindChangedLines(oldText, newText);
      RemoveDiagnosticsForLines(uri, changedLines);
      ghost var pruned := docDiagnostics;
      published := AnalyzeAndPublish(uri, newText);
      if uri in old(docDiagnostics) {
        OverwriteEntry(old(docDiagnostics), uri, pruned[uri], docDiagnostics[uri]);
      }
    }

    /** `analyzeAndPublish`: prepare the text, analyse it, store the results and send the notifications. */
    method AnalyzeAndPublish(uri: Uri, text: Bytes) returns (published: Published)
      requires Valid()
      modifies this`docTokens, this`docDiagnostics, this`docCommentSegments, this`docContentHighlightRanges
      ensures Valid()
      ensures AnalysisStored(uri, text, old(docTokens), old(docDiagnostics), old(docCommentSegments),
                             old(docContentHighlightRanges), published)
    {
      var analysisText := PrepareAnalysisText(uri, text);
      var tokens := analyze(analysisText);
      var diags := check(analysisText);
      docTokens := docTokens[uri := tokens];
      CacheDiagnostics(uri, diags);
      published := PublishAnalysis(uri, text, tokens, diags);
    }

    /**
     * The notifications that close an analysis: the diagnostics, the
     * remembered comments and highlight ranges as protocol ranges (none
     * when nothing is remembered) and, except for a "japanese" document,
     * the tokens (`sendCommentHighlights`, `sendContentHighlights`,
     * `sendSemanticHighlights`).
     */
    method PublishAnalysis(uri: Uri, text: Bytes, tokens: seq<TokenData>, diags: seq<Diagnostic>) returns (published: Published)
      ensures published == Published(diags,
        LspRanges(text, Spans(OrEmpty(Lookup(docCommentSegments, uri)))),
        LspRanges(text, OrEmpty(Lookup(docContentHighlightRanges, uri))),
        if Language(uri) == Some(Japanese) then [] else tokens)
    {
      var commentSpans := if uri in docCommentSegments then Spans(docCommentSegments[uri]) else [];
      var commentRanges := ToLspRanges(text, commentSpans);
      var contentSpans := if uri in docContentHighlightRanges then docContentHighlightRanges[uri] else [];
      var contentRanges := ToLspRanges(text, contentSpans);
      var semantic := if Language(uri) == Some(Japanese) then [] else tokens;
      published := Published(diags, commentRanges, contentRanges, semantic);
    }

    /**
     * `prepareAnalysisText`: the text the analyzer reads for document
     * `uri`, remembering the comments and highlight ranges found on the
     * way, or forgetting them for documents that have none.
     */
    method PrepareAnalysisText(uri: Uri, text: Bytes) returns (analysis: Bytes)
      modifies this`docCommentSegments, this`docContentHighlightRanges
      ensures var p := PreparedFor(Language(uri), text, parse);
        && analysis == p.analysis
        && docCommentSegments == Remember(old(docCommentSegments), uri, p.comments)
        && docContentHighlightRanges == Remember(old(docContentHighlightRanges), uri, p.content)
    {
      var lang := Language(uri);
      if lang.None? || lang.value == Japanese {
        docCommentSegments := docCommentSegments - {uri};
        docContentHighlightRanges := docContentHighlightRanges - {uri};
        return text;
      }
      var id := lang.value;
      if id == Html {
        var root := parse(id, text);
        var comments := ExtractComments(id, text, root);
        docCommentSegments := docCommentSegments[uri := comments];
        var ranges := HtmlContent.CollectHtmlContentRanges(text, root);
        docContentHighlightRanges := docContentHighlightRanges[uri := ranges + Spans(comments)];
        analysis := BuildAnalysisText(text, ranges, comments);
        return;
      }
      if id == Latex {
        var comments := LatexScan.CollectLatexComments(text);
        docCommentSegments := docCommentSegments[uri := comments];
        var ranges := LatexScan.CollectLatexContentRanges(text);
        docContentHighlightRanges := docContentHighlightRanges[uri := ranges + Spans(comments)];
        analysis := BuildAnalysisText(text, ranges, comments);
        return;
      }
      if !IsLanguageSupported(id) {
        docCommentSegments := docCommentSegments - {uri};
        docContentHighlightRanges := docContentHighlightRanges - {uri};
        return text;
      }
      var root := parse(id, text);
      var comments := ExtractComments(id, text, root);
      docCommentSegments := docCommentSegments[uri := comments];
      docContentHighlightRanges := docContentHighlightRanges - {uri};
      analysis := BuildAnalysisText(text, [], comments);
    }

    /** `cacheDiagnostics`: the document's cache is emptied, then each diagnostic appended under the line it starts on. */
    method CacheDiagnostics(uri: Uri, diags: seq<Diagnostic>)
      requires Valid()
      modifies this`docDiagnostics
      ensures Valid()
      ensures docDiagnostics == old(docDiagnostics)[uri := ByLine(diags)]
    {
      var lines: map<int, seq<Diagnostic>> := map[];
      for i := 0 to |diags|
        invariant lines == ByLine(diags[..i])
      {
        var line := diags[i].range.start.line;
        var onLine := if line in lines then lines[line] else [];
        assert diags[..i + 1][..i] == diags[..i];
        lines := lines[line := onLine + [diags[i]]];
      }
      assert diags[..|diags|] == diags;
      ByLineGroups(diags);
      docDiagnostics := docDiagnostics[uri := lines];
    }

    /** `removeDiagnosticsForLines`: drop the cached lists of the given lines, if the document has a cache. */
    method RemoveDiagnosticsForLines(uri: Uri, lines: set<int>)
      requires Valid()
      modifies this`docDiagnostics
      ensures Valid()
      ensures docDiagnostics ==
        if uri in old(docDiagnostics) then old(docDiagnostics)[uri := old(docDiagnostics)[uri] - lines]
        else old(docDiagnostics)
    {
      if uri !in docDiagnostics {
        return;
      }
      var uriDiags := docDiagnostics[uri];
      var rest := lines;
      while exists l :: l in rest
        invariant rest <= lines
        invariant uriDiags == docDiagnostics[uri] - (lines - rest)
        decreases |rest|
      {
        var line: int :| line in rest;
        uriDiags := uriDiags - {line};
        rest := rest - {line};
      }
      assert lines - rest == lines;
      docDiagnostics := docDiagnostics[uri := uriDiags];
    }

    /**
     * `getAllDiagnostics`: every cached list of the document, one after
     * another, visiting the lines in `lineOrder`, the order the hash map
     * happens to hold them in.
     */
    method GetAllDiagnostics(uri: Uri, lineOrder: seq<int>) returns (allDiags: seq<Diagnostic>)
      requires uri in docDiagnostics ==> ListsKeysOnce(lineOrder, docDiagnostics[uri])
      ensures allDiags == if uri in docDiagnostics then Flatten(docDiagnostics[uri], lineOrder) else []
    {
      allDiags := [];
      if uri !in docDiagnostics {
        return;
      }
      var cache := docDiagnostics[uri];
      for i := 0 to |lineOrder|
        invariant allDiags == Flatten(cache, lineOrder[..i])
      {
        assert lineOrder[..i + 1][..i] == lineOrder[..i];
        var line := lineOrder[i];
        if line in cache {
          var diags := cache[line];
          for j := 0 to |diags|
            invariant allDiags == Flatten(cache, lineOrder[..i]) + diags[..j]
          {
            assert diags[..j + 1] == diags[..j] + [diags[j]];
            allDiags := allDiags + [diags[j]];
          }
          assert diags[..|diags|] == diags;
        }
      }
      assert lineOrder[..|lineOrder|] == lineOrder;
    }

    /**
     * `buildSemanticTokens`: the encoding of the document's cached tokens;
     * a document without them is prepared and analysed first, and its
     * tokens cached.  An unknown document has no tokens.
     */
    method BuildSemanticTokens(uri: Uri) returns (data: seq<int>)
      modifies this`docTokens, this`docCommentSegments, this`docContentHighlightRanges
      ensures uri !in docs || uri in old(docTokens) ==>
        && docTokens == old(docTokens)
        && docCommentSegments == old(docCommentSegments)
        && docContentHighlightRanges == old(docContentHighlightRanges)
      ensures uri !in docs ==> data == []
      ensures uri in docs && uri in old(docTokens) ==> data == SemanticTokens.Encode(tokenTypes, old(docTokens)[uri])
      ensures uri in docs && uri !in old(docTokens) ==>
        var p := PreparedFor(Language(uri), docs[uri], parse);
        && docTokens == old(docTokens)[uri := analyze(p.analysis)]
        && docCommentSegments == Remember(old(docCommentSegments), uri, p.comments)
        && docContentHighlightRanges == Remember(old(docContentHighlightRanges), uri, p.content)
        && data == SemanticTokens.Encode(tokenTypes, analyze(p.analysis))
    {
      if uri !in docs {
        return [];
      }
      if uri in docTokens {
        data := SemanticTokens.BuildSemanticTokensFromTokens(tokenTypes, docTokens[uri]);
        return;
      }
      var analysisText := PrepareAnalysisText(uri, docs[uri]);
      var tokens := analyze(analysisText);
      docTokens := docTokens[uri := tokens];
      data := SemanticTokens.BuildSemanticTokensFromTokens(tokenTypes, tokens);
    }

    /**
     * `textDocument/semanticTokens/full`: answered (`Some`) only for an open
     * "japanese" document, with the encoding of its tokens; other languages
     * are highlighted by the client from the `semanticHighlights`
     * notification instead.
     */
    method OnSemanticTokensFull(uri: Uri) returns (result: Option<seq<int>>)
      modifies this`docTokens, this`docCommentSegments, this`docContentHighlightRanges
      ensures result.Some? <==> uri in docs && Language(uri) == Some(Japanese)
      ensures result.None? ==> docTokens == old(docTokens)
      ensures result.Some? ==> uri in docTokens && result.value == SemanticTokens.Encode(tokenTypes, docTokens[uri])
      ensures result.Some? ==>
        docTokens == old(docTokens)[uri := if uri in old(docTokens) then old(docTokens)[uri] else analyze(docs[uri])]
      ensures result.None? || uri in old(docTokens) ==>
        docCommentSegments == old(docCommentSegments) && docContentHighlightRanges == old(docContentHighlightRanges)
      ensures result.Some? && uri !in old(docTokens) ==>
        && docCommentSegments == old(docCommentSegments) - {uri}
        && docContentHighlightRanges == old(docContentHighlightRanges) - {uri}
    {
      if uri !in docs {
        return None;
      }
      var lang := Language(uri);
      if lang.None? || lang.value != Japanese {
        return None;
      }
      var data := BuildSemanticTokens(uri);
      result := Some(data);
    }

    /** `textDocument/semanticTokens/range`: the same answer as for the whole document; the range is not looked at. */
    method OnSemanticTokensRange(uri: Uri, range: Range) returns (result: Option<seq<int>>)
      modifies this`docTokens, this`docCommentSegments, this`docContentHighlightRanges
      ensures result.Some? <==> uri in docs && Language(uri) == Some(Japanese)
      ensures result.None? ==> docTokens == old(docTokens)
      ensures result.Some? ==> uri in docTokens && result.value == SemanticTokens.Encode(tokenTypes, docTokens[uri])
      ensures result.Some? ==>
        docTokens == old(docTokens)[uri := if uri in old(docTokens) then old(docTokens)[uri] else analyze(docs[uri])]
      ensures result.None? || uri in old(docTokens) ==>
        docCommentSegments == old(docCommentSegments) && docContentHighlightRanges == old(docContentHighlightRanges)
      ensures result.Some? && uri !in old(docTokens) ==>
        && docCommentSegments == old(docCommentSegments) - {uri}
        && docContentHighlightRanges == old(docContentHighlightRanges) - {uri}
    {
      result := OnSemanticTokensFull(uri);
    }

    /**
     * `textDocument/hover`: the token the hover describes (its Markdown
     * rendering is not modelled), searched only where hover is allowed.
     */
    method OnHover(uri: Uri, line: nat, character: nat) returns (hovered: Option<TokenData>)
      ensures hovered == Hover(View(uri), line, character)
    {
      if uri !in docs || uri !in docTokens {
        return None;
      }
      var lang := Language(uri);
      var isJapanese := lang == Some(Japanese);
      if !isJapanese {
        var offset := Utf16.ComputeByteOffset(docs[uri], line, character);
        var insideComment := false;
        if uri in docCommentSegments {
          insideComment := InsideSomeComment(docCommentSegments[uri], offset);
        }
        var insideContent := false;
        if lang.Some? && (lang.value == Html || lang.value == Latex) && uri in docContentHighlightRanges {
          insideContent := InsideSomeRange(docContentHighlightRanges[uri], offset);
        }
        if !insideComment && !insideContent {
          return None;
        }
      }
      hovered := FindTokenAt(docTokens[uri], line, character);
    }
  }
}
