/**
 * The text the analysers see (`prepareAnalysisText`).  A plain Japanese
 * document is analysed as it is.  Otherwise the document is masked: every
 * byte but a line break becomes a space, so byte offsets and line numbers
 * stay those of the document; the body text of an HTML or LaTeX document
 * is then copied back, and every comment is written back with its comment
 * marks blanked.  The server also remembers the comments and the ranges
 * it highlights for the document.
 */
module AnalysisText {
  import opened ByteText
  import opened LspTypes
  import opened CommentExtractor
  import LatexScan
  import HtmlContent

  // ---------------------------------------------------------------------------
  // Masking, restoring and overlaying
  // ---------------------------------------------------------------------------

  /** The document with every byte but `\n` and `\r` turned into a space. */
  function Masked(text: Bytes): (r: Bytes)
    ensures |r| == |text|
  {
    Blank(text, 0, |text|)
  }

  /**
   * Byte `k` of a buffer of `n` bytes is copied back by range `r`.  The
   * source copies `min(end - start, n - start)` bytes from `start` with
   * `size_t` arithmetic, so a range that ends before it starts reaches the
   * end of the buffer.
   */
  predicate Restores(r: ByteRange, n: nat, k: nat) {
    r.startByte <= k < n && (r.endByte < r.startByte || k < r.endByte)
  }

  /** `m` with the bytes of `text` copied back over range `r`. */
  function Restore(m: Bytes, text: Bytes, r: ByteRange): (res: Bytes)
    requires |m| == |text|
    ensures |res| == |m|
  {
    seq(|m|, k requires 0 <= k < |m| => if Restores(r, |m|, k) then text[k] else m[k])
  }

  /** `m` with the content ranges copied back from `text`, one range after another. */
  function RestoreAll(m: Bytes, text: Bytes, rs: seq<ByteRange>): (res: Bytes)
    requires |m| == |text|
    ensures |res| == |m|
  {
    if |rs| == 0 then m else Restore(RestoreAll(m, text, rs[..|rs| - 1]), text, rs[|rs| - 1])
  }

  /**
   * Byte `k` of a buffer of `n` bytes is written by comment `g`: the source
   * copies `min(|sanitized|, n - start)` bytes from `start`.
   */
  predicate Writes(g: CommentSegment, n: nat, k: nat) {
    g.startByte <= k < n && k - g.startByte < |g.sanitized|
  }

  /** `m` with the sanitised text of comment `g` written over it. */
  function Overlay(m: Bytes, g: CommentSegment): (res: Bytes)
    ensures |res| == |m|
  {
    seq(|m|, k requires 0 <= k < |m| => if Writes(g, |m|, k) then g.sanitized[k - g.startByte] else m[k])
  }

  /** `m` with the comments written over it, one after another. */
  function OverlayAll(m: Bytes, gs: seq<CommentSegment>): (res: Bytes)
    ensures |res| == |m|
  {
    if |gs| == 0 then m else Overlay(OverlayAll(m, gs[..|gs| - 1]), gs[|gs| - 1])
  }

  /** The masked document with its content ranges restored and its comments written back. */
  function Analysed(text: Bytes, ranges: seq<ByteRange>, comments: seq<CommentSegment>): (r: Bytes)
    ensures |r| == |text|
  {
    OverlayAll(RestoreAll(Masked(text), text, ranges), comments)
  }

  // ---------------------------------------------------------------------------
  // The loops of the source, on a buffer
  // ---------------------------------------------------------------------------

  /** The masking loop: every byte but a line break becomes a space. */
  method MaskText(a: array<Byte>)
    modifies a
    ensures a[..] == Masked(old(a[..]))
  {
    for i := 0 to a.Length
      invariant a[..] == Blank(old(a[..]), 0, i)
    {
      a[i] := if a[i] != NL && a[i] != CR then SPACE else a[i];
    }
  }

  /** One content range copied back from `text`, `min(end - start, size - start)` bytes long. */
  method RestoreRange(a: array<Byte>, text: Bytes, r: ByteRange)
    requires a.Length == |text|
    modifies a
    ensures a[..] == Restore(old(a[..]), text, r)
  {
    if r.startByte >= a.Length {
      return;
    }
    var span := if r.endByte >= r.startByte then r.endByte - r.startByte else a.Length - r.startByte;
    var len := if span < a.Length - r.startByte then span else a.Length - r.startByte;
    for i := 0 to len
      invariant forall k :: 0 <= k < a.Length ==>
        a[k] == if r.startByte <= k < r.startByte + i then text[k] else old(a[k])
    {
      a[r.startByte + i] := text[r.startByte + i];
    }
  }

  /** Every content range copied back, in order. */
  method RestoreRanges(a: array<Byte>, text: Bytes, rs: seq<ByteRange>)
    requires a.Length == |text|
    modifies a
    ensures a[..] == RestoreAll(old(a[..]), text, rs)
  {
    for j := 0 to |rs|
      invariant a[..] == RestoreAll(old(a[..]), text, rs[..j])
    {
      assert rs[..j + 1][..j] == rs[..j];
      RestoreRange(a, text, rs[j]);
    }
    assert rs[..|rs|] == rs;
  }

  /** One comment written back, `min(|sanitized|, size - start)` bytes of it. */
  method OverlaySegment(a: array<Byte>, g: CommentSegment)
    modifies a
    ensures a[..] == Overlay(old(a[..]), g)
  {
    if g.startByte >= a.Length {
      return;
    }
    var len := if |g.sanitized| < a.Length - g.startByte then |g.sanitized| else a.Length - g.startByte;
    for i := 0 to len
      invariant forall k :: 0 <= k < a.Length ==>
        a[k] == if g.startByte <= k < g.startByte + i then g.sanitized[k - g.startByte] else old(a[k])
    {
      a[g.startByte + i] := g.sanitized[i];
    }
  }

  /** Every comment written back, in order. */
  method OverlaySegments(a: array<Byte>, gs: seq<CommentSegment>)
    modifies a
    ensures a[..] == OverlayAll(old(a[..]), gs)
  {
    for j := 0 to |gs|
      invariant a[..] == OverlayAll(old(a[..]), gs[..j])
    {
      assert gs[..j + 1][..j] == gs[..j];
      OverlaySegment(a, gs[j]);
    }
    assert gs[..|gs|] == gs;
  }

  /** The masked copy of the document, with its content ranges restored and its comments written back. */
  method BuildAnalysisText(text: Bytes, ranges: seq<ByteRange>, comments: seq<CommentSegment>) returns (masked: Bytes)
    ensures masked == Analysed(text, ranges, comments)
  {
    var a := new Byte[|text|](k requires 0 <= k < |text| => text[k]);
    assert a[..] == text;
    MaskText(a);
    RestoreRanges(a, text, ranges);
    OverlaySegments(a, comments);
    masked := a[..];
  }

  // ---------------------------------------------------------------------------
  // What the analysed text keeps of the document
  // ---------------------------------------------------------------------------

  /**
   * `m` is `text` with some bytes blanked: same length, and every byte is
   * the document's own or a space that replaced a byte other than a line
   * break.
   */
  predicate BlankedFrom(text: Bytes, m: Bytes) {
    && |m| == |text|
    && forall k :: 0 <= k < |text| ==> m[k] == text[k] || (m[k] == SPACE && !IsNewline(text[k]))
  }

  /** Comment `g` holds the document's bytes at its place, some of them blanked. */
  predicate SegmentBlanks(text: Bytes, g: CommentSegment) {
    forall k :: g.startByte <= k < |text| && k - g.startByte < |g.sanitized| ==>
      g.sanitized[k - g.startByte] == text[k] || (g.sanitized[k - g.startByte] == SPACE && !IsNewline(text[k]))
  }

  /** A comment whose text is its span's bytes with some marks blanked blanks the document. */
  lemma BlanksOnlySegment(text: Bytes, g: CommentSegment, marks: set<Byte>)
    requires g.startByte <= g.endByte <= |text|
    requires BlanksOnly(text[g.startByte..g.endByte], g.sanitized, marks)
    ensures SegmentBlanks(text, g)
  {
    forall k | g.startByte <= k < |text| && k - g.startByte < |g.sanitized|
      ensures g.sanitized[k - g.startByte] == text[k] || (g.sanitized[k - g.startByte] == SPACE && !IsNewline(text[k]))
    {
      assert text[g.startByte..g.endByte][k - g.startByte] == text[k];
    }
  }

  /** Byte `k` of a buffer of `n` bytes is copied back by one of the ranges. */
  predicate InSomeRange(rs: seq<ByteRange>, n: nat, k: nat) {
    exists i :: 0 <= i < |rs| && Restores(rs[i], n, k)
  }

  /** After the restores, a byte is the document's own when some range copies it back, and the buffer's otherwise. */
  lemma {:induction false} RestoreAllAt(m: Bytes, text: Bytes, rs: seq<ByteRange>)
    requires |m| == |text|
    ensures forall k :: 0 <= k < |m| ==>
      RestoreAll(m, text, rs)[k] == if InSomeRange(rs, |m|, k) then text[k] else m[k]
    decreases |rs|
  {
    if |rs| > 0 {
      var init := rs[..|rs| - 1];
      RestoreAllAt(m, text, init);
      forall k | 0 <= k < |m|
        ensures RestoreAll(m, text, rs)[k] == if InSomeRange(rs, |m|, k) then text[k] else m[k]
      {
        if exists i :: 0 <= i < |init| && Restores(init[i], |m|, k) {
          var i :| 0 <= i < |init| && Restores(init[i], |m|, k);
          assert rs[i] == init[i];
        }
        if exists i :: 0 <= i < |rs| && Restores(rs[i], |m|, k) {
          var i :| 0 <= i < |rs| && Restores(rs[i], |m|, k);
          if i < |init| {
            assert init[i] == rs[i];
          }
        }
      }
    }
  }

  /** The last comment of `gs` that writes byte `k` of a buffer of `n` bytes, if any. */
  function LastWriter(gs: seq<CommentSegment>, n: nat, k: nat): (r: Option<nat>)
    ensures r.Some? ==> r.value < |gs| && Writes(gs[r.value], n, k)
    ensures r.Some? ==> forall j :: r.value < j < |gs| ==> !Writes(gs[j], n, k)
    ensures r.None? ==> forall j :: 0 <= j < |gs| ==> !Writes(gs[j], n, k)
  {
    if |gs| == 0 then None
    else if Writes(gs[|gs| - 1], n, k) then Some(|gs| - 1)
    else LastWriter(gs[..|gs| - 1], n, k)
  }

  /** Each byte after the overlays is the one the last comment writing it put there, or the buffer's own. */
  lemma {:induction false} OverlayAllAt(m: Bytes, gs: seq<CommentSegment>)
    ensures forall k :: 0 <= k < |m| ==>
      OverlayAll(m, gs)[k] == match LastWriter(gs, |m|, k)
        case None => m[k]
        case Some(i) => gs[i].sanitized[k - gs[i].startByte]
    decreases |gs|
  {
    if |gs| > 0 {
      var init := gs[..|gs| - 1];
      OverlayAllAt(m, init);
      forall k | 0 <= k < |m| && !Writes(gs[|gs| - 1], |m|, k)
        ensures LastWriter(gs, |m|, k) == LastWriter(init, |m|, k)
      {
      }
    }
  }

  /**
   * The analysed text of a document whose comments each blank the document
   * is the document with some bytes blanked: it keeps the length and every
   * line break, and a byte is either the document's own or a space.  A byte
   * in no content range and no comment is masked; a byte in a content range
   * and no comment is the document's own.
   */
  lemma AnalysedShape(text: Bytes, ranges: seq<ByteRange>, comments: seq<CommentSegment>)
    requires forall g :: g in comments ==> SegmentBlanks(text, g)
    ensures BlankedFrom(text, Analysed(text, ranges, comments))
    ensures forall k :: 0 <= k < |text| ==> (IsNewline(Analysed(text, ranges, comments)[k]) <==> IsNewline(text[k]))
    ensures forall k :: 0 <= k < |text| && (forall j :: 0 <= j < |comments| ==> !Writes(comments[j], |text|, k)) ==>
      Analysed(text, ranges, comments)[k] ==
        if InSomeRange(ranges, |text|, k) then text[k] else SetSpace(text[k])
  {
    var restored := RestoreAll(Masked(text), text, ranges);
    var r := Analysed(text, ranges, comments);
    RestoreAllAt(Masked(text), text, ranges);
    OverlayAllAt(restored, comments);
    forall k | 0 <= k < |text|
      ensures r[k] == text[k] || (r[k] == SPACE && !IsNewline(text[k]))
    {
      match LastWriter(comments, |text|, k)
      case None =>
      case Some(i) =>
        assert comments[i] in comments;
    }
  }

  // ---------------------------------------------------------------------------
  // The choice by language
  // ---------------------------------------------------------------------------

  const Japanese: Bytes := Ascii("japanese")
  const Html: Bytes := Ascii("html")
  const Latex: Bytes := Ascii("latex")

  /**
   * What `prepareAnalysisText` produces for a document: the text to
   * analyse, the comments the server remembers for the document (`None`:
   * it forgets them) and the ranges it highlights (`None`: it forgets them).
   */
  datatype Prepared = Prepared(analysis: Bytes, comments: Option<seq<CommentSegment>>, content: Option<seq<ByteRange>>)

  /** The spans of a list of comments. */
  function Spans(gs: seq<CommentSegment>): (r: seq<ByteRange>)
    ensures |r| == |gs|
    ensures forall i :: 0 <= i < |gs| ==> r[i] == ByteRange(gs[i].startByte, gs[i].endByte)
  {
    seq(|gs|, i requires 0 <= i < |gs| => ByteRange(gs[i].startByte, gs[i].endByte))
  }

  /**
   * The text to analyse for a document of language `languageId` (`None`
   * when the server knows no language for it) whose parse tree is `root`:
   * HTML and LaTeX keep their body text and their comments, the other
   * comment languages their comments only, anything else is analysed as it
   * is.  The language ids "html" and "latex" are compared exactly; other
   * ids go through the comment extractor's case-blind table.
   */
  function Prepare(languageId: Option<Bytes>, text: Bytes, root: SyntaxNode): Prepared {
    match languageId
    case None => Prepared(text, None, None)
    case Some(id) =>
      if id == Japanese then Prepared(text, None, None)
      else if id == Html then
        var comments := ExtractedComments(id, text, root);
        var ranges := HtmlContent.TreeRanges(text, root);
        Prepared(Analysed(text, ranges, comments), Some(comments), Some(ranges + Spans(comments)))
      else if id == Latex then
        var comments := LatexScan.LatexComments(text);
        var ranges := LatexScan.LatexContentRanges(text);
        Prepared(Analysed(text, ranges, comments), Some(comments), Some(ranges + Spans(comments)))
      else if !IsLanguageSupported(id) then Prepared(text, None, None)
      else
        var comments := ExtractedComments(id, text, root);
        Prepared(Analysed(text, [], comments), Some(comments), None)
  }

  /**
   * The analysed text always has the document's length and line breaks:
   * each byte is the document's own or a space over a byte that is not a
   * line break.  Documents of no language, of "japanese" or of a language
   * without comments are analysed unchanged and leave nothing remembered.
   */
  lemma PrepareShape(languageId: Option<Bytes>, text: Bytes, root: SyntaxNode)
    ensures BlankedFrom(text, Prepare(languageId, text, root).analysis)
    ensures forall k :: 0 <= k < |text| ==> (IsNewline(Prepare(languageId, text, root).analysis[k]) <==> IsNewline(text[k]))
    ensures (languageId.None? || languageId == Some(Japanese) ||
             (languageId.value != Html && languageId.value != Latex && !IsLanguageSupported(languageId.value))) ==>
      Prepare(languageId, text, root) == Prepared(text, None, None)
  {
    var p := Prepare(languageId, text, root);
    if languageId.Some? && languageId.value != Japanese {
      var id := languageId.value;
      if id == Latex {
        var comments := LatexScan.LatexComments(text);
        LatexCommentsBlank(text);
        AnalysedShape(text, LatexScan.LatexContentRanges(text), comments);
      } else if id == Html || IsLanguageSupported(id) {
        var comments := ExtractedComments(id, text, root);
        ExtractedCommentsShape(id, text, root);
        forall g | g in comments ensures SegmentBlanks(text, g) {
          BlanksOnlySegment(text, g, CommentMarks);
        }
        if id == Html {
          AnalysedShape(text, HtmlContent.TreeRanges(text, root), comments);
        } else {
          AnalysedShape(text, [], comments);
        }
      }
    }
  }

  /** The comments of a LaTeX document are spans of it with some marks blanked. */
  lemma LatexCommentsBlank(text: Bytes)
    ensures forall g :: g in LatexScan.LatexComments(text) ==>
      SegmentBlanks(text, g) && g.startByte < g.endByte <= |text| && |g.sanitized| == g.endByte - g.startByte
  {
    LatexScan.LatexCommentsShape(text);
    forall g | g in LatexScan.LatexComments(text)
      ensures SegmentBlanks(text, g) && g.startByte < g.endByte <= |text| && |g.sanitized| == g.endByte - g.startByte
    {
      BlanksOnlySegment(text, g, {PERCENT, TAB});
    }
  }

  /**
   * In a LaTeX document every byte outside the comments is masked unless
   * a content range restores it, and the remembered highlights are the
   * content ranges followed by the comments' spans.
   */
  lemma PrepareLatex(text: Bytes, root: SyntaxNode)
    ensures Prepare(Some(Latex), text, root).comments == Some(LatexScan.LatexComments(text))
    ensures Prepare(Some(Latex), text, root).content ==
      Some(LatexScan.LatexContentRanges(text) + Spans(LatexScan.LatexComments(text)))
    ensures forall k :: 0 <= k < |text| && !InSomeComment(LatexScan.LatexComments(text), k) ==>
      Prepare(Some(Latex), text, root).analysis[k] ==
        if InSomeRange(LatexScan.LatexContentRanges(text), |text|, k) then text[k] else SetSpace(text[k])
  {
    var comments := LatexScan.LatexComments(text);
    var ranges := LatexScan.LatexContentRanges(text);
    assert Prepare(Some(Latex), text, root).analysis == Analysed(text, ranges, comments);
    LatexCommentsBlank(text);
    AnalysedShape(text, ranges, comments);
    forall k, j | 0 <= k < |text| && !InSomeComment(comments, k) && 0 <= j < |comments|
      ensures !Writes(comments[j], |text|, k)
    {
      assert comments[j] in comments;
    }
  }

  /** Byte `k` lies in the span of one of the comments. */
  predicate InSomeComment(gs: seq<CommentSegment>, k: nat) {
    exists g :: g in gs && g.startByte <= k < g.endByte
  }

  // A comment is the only text a C document keeps: with the comment marks
  // blanked in its sanitised text, "x=1 /*a*/" is analysed as spaces and "a".
  lemma CommentOnlyExample()
    ensures Analysed([0x78, 0x3D, 0x31, SPACE, SLASH, STAR, 0x61, STAR, SLASH], [],
                     [CommentSegment(4, 9, [SPACE, SPACE, 0x61, SPACE, SPACE])])
         == [SPACE, SPACE, SPACE, SPACE, SPACE, SPACE, 0x61, SPACE, SPACE]
  {
    var text: Bytes := [0x78, 0x3D, 0x31, SPACE, SLASH, STAR, 0x61, STAR, SLASH];
    var g := CommentSegment(4, 9, [SPACE, SPACE, 0x61, SPACE, SPACE]);
    var masked := Masked(text);
    assert masked == [SPACE, SPACE, SPACE, SPACE, SPACE, SPACE, SPACE, SPACE, SPACE];
    assert [g][..0] == [];
    assert OverlayAll(masked, [g]) == Overlay(masked, g);
  }
}
