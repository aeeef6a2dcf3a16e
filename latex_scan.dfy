/**
 * The LaTeX scanners of the server (`lsp.cpp`): backslash escapes, the
 * search for closing `$` and `$$`, the `%` comments of a document and the
 * byte ranges of its plain text, which are what the server highlights and
 * analyses in a LaTeX document.
 */
module LatexScan {
  import opened ByteText
  import opened LspTypes
  import opened CommentExtractor

  // ---------------------------------------------------------------------------
  // Escapes

  /** The number of backslashes immediately before `pos`. */
  function EscapeRun(text: Bytes, pos: nat): (n: nat)
    requires pos <= |text|
    ensures n <= pos
  {
    if pos > 0 && text[pos - 1] == BACKSLASH then EscapeRun(text, pos - 1) + 1 else 0
  }

  /** The run is all backslashes, and the byte before it, if any, is not one. */
  lemma {:induction false} EscapeRunShape(text: Bytes, pos: nat)
    requires pos <= |text|
    ensures forall k :: pos - EscapeRun(text, pos) <= k < pos ==> text[k] == BACKSLASH
    ensures EscapeRun(text, pos) < pos ==> text[pos - EscapeRun(text, pos) - 1] != BACKSLASH
  {
    if pos > 0 && text[pos - 1] == BACKSLASH {
      EscapeRunShape(text, pos - 1);
    }
  }

  /** `isEscaped`: an odd number of backslashes immediately precede `pos`. */
  predicate Escaped(text: Bytes, pos: nat)
    requires pos <= |text|
  {
    EscapeRun(text, pos) % 2 == 1
  }

  method IsEscaped(text: Bytes, pos: nat) returns (escaped: bool)
    requires pos <= |text|
    ensures escaped == Escaped(text, pos)
  {
    var count := 0;
    while pos > count && text[pos - count - 1] == BACKSLASH
      invariant count <= pos
      invariant EscapeRun(text, pos - count) + count == EscapeRun(text, pos)
      decreases pos - count
    {
      count := count + 1;
    }
    escaped := count % 2 == 1;
  }

  lemma EscapeExamples()
    ensures Escaped([BACKSLASH, DOLLAR], 1)
    ensures !Escaped([BACKSLASH, BACKSLASH, DOLLAR], 2)
    ensures !Escaped([DOLLAR], 0)
  {
    assert EscapeRun([BACKSLASH, DOLLAR], 0) == 0;
    assert EscapeRun([BACKSLASH, BACKSLASH, DOLLAR], 0) == 0;
    assert EscapeRun([BACKSLASH, BACKSLASH, DOLLAR], 1) == 1;
  }

  // ---------------------------------------------------------------------------
  // Closing dollars

  /** An unescaped `$` at `i`. */
  predicate UnescapedDollar(text: Bytes, i: nat) {
    i < |text| && text[i] == DOLLAR && !Escaped(text, i)
  }

  /** An unescaped `$$` starting at `i`. */
  predicate UnescapedDoubleDollar(text: Bytes, i: nat) {
    i + 1 < |text| && text[i] == DOLLAR && text[i + 1] == DOLLAR && !Escaped(text, i)
  }

  /** The first unescaped `$` at or after `pos`. */
  function FirstDollar(text: Bytes, pos: nat): (r: Option<nat>)
    ensures r.Some? ==> pos <= r.value && UnescapedDollar(text, r.value)
    ensures r.Some? ==> forall k :: pos <= k < r.value ==> !UnescapedDollar(text, k)
    ensures r.None? ==> forall k :: pos <= k ==> !UnescapedDollar(text, k)
    decreases |text| - pos
  {
    if pos >= |text| then None
    else if UnescapedDollar(text, pos) then Some(pos)
    else FirstDollar(text, pos + 1)
  }

  /** The first unescaped `$$` at or after `pos`. */
  function FirstDoubleDollar(text: Bytes, pos: nat): (r: Option<nat>)
    ensures r.Some? ==> pos <= r.value && UnescapedDoubleDollar(text, r.value)
    ensures r.Some? ==> forall k :: pos <= k < r.value ==> !UnescapedDoubleDollar(text, k)
    ensures r.None? ==> forall k :: pos <= k ==> !UnescapedDoubleDollar(text, k)
    decreases |text| - pos
  {
    if pos + 1 >= |text| then None
    else if UnescapedDoubleDollar(text, pos) then Some(pos)
    else FirstDoubleDollar(text, pos + 1)
  }

  /** `findClosingDollar`; `None` stands for `npos`. */
  method FindClosingDollar(text: Bytes, pos: nat) returns (r: Option<nat>)
    ensures r == FirstDollar(text, pos)
  {
    var i := pos;
    while i < |text|
      invariant pos <= i
      invariant FirstDollar(text, i) == FirstDollar(text, pos)
      decreases |text| - i
    {
      if text[i] == DOLLAR {
        var escaped := IsEscaped(text, i);
        if !escaped {
          return Some(i);
        }
      }
      i := i + 1;
    }
    return None;
  }

  /** `findClosingDoubleDollar`; `None` stands for `npos`. */
  method FindClosingDoubleDollar(text: Bytes, pos: nat) returns (r: Option<nat>)
    ensures r == FirstDoubleDollar(text, pos)
  {
    var i := pos;
    while i + 1 < |text|
      invariant pos <= i
      invariant FirstDoubleDollar(text, i) == FirstDoubleDollar(text, pos)
      decreases |text| - i
    {
      if text[i] == DOLLAR && text[i + 1] == DOLLAR {
        var escaped := IsEscaped(text, i);
        if !escaped {
          return Some(i);
        }
      }
      i := i + 1;
    }
    return None;
  }

  // ---------------------------------------------------------------------------
  // Comments

  /** Where the blanked head of a LaTeX comment ends: byte 0, the `%` run after it, then spaces and tabs. */
  function LatexMarkEnd(raw: Bytes): (e: nat)
    ensures e <= |raw|
    ensures |raw| > 0 ==> e >= 1
  {
    if |raw| == 0 then 0 else RunEnd(raw, RunEnd(raw, 1, |raw|, {PERCENT}), |raw|, Blanks)
  }

  /** The first `n` bytes set to spaces. */
  function SpacedPrefix(raw: Bytes, n: nat): (r: Bytes)
    requires n <= |raw|
    ensures |r| == |raw|
    ensures forall k :: 0 <= k < |raw| ==> r[k] == if k < n then SPACE else raw[k]
  {
    seq(|raw|, k => if n <= k < |raw| then raw[k] else SPACE)
  }

  /** `sanitizeLatexCommentText`. */
  function LatexCommentSanitized(raw: Bytes): Bytes {
    SpacedPrefix(raw, LatexMarkEnd(raw))
  }

  method SanitizeLatexCommentText(raw: Bytes) returns (sanitized: Bytes)
    ensures sanitized == LatexCommentSanitized(raw)
  {
    if |raw| == 0 {
      return raw;
    }
    var a := new Byte[|raw|](k requires 0 <= k < |raw| => raw[k]);
    a[0] := SPACE;
    assert a[..] == SpacedPrefix(raw, 1);
    var idx := SpaceRun(a, raw, 1, {PERCENT});
    idx := SpaceRun(a, raw, idx, Blanks);
    sanitized := a[..];
  }

  /** Turns the run of `bs` bytes at `from` into spaces, returning where the run ends. */
  method SpaceRun(a: array<Byte>, ghost raw: Bytes, from: nat, bs: set<Byte>) returns (idx: nat)
    requires from <= a.Length == |raw| && a[..] == SpacedPrefix(raw, from)
    modifies a
    ensures idx == RunEnd(raw, from, |raw|, bs)
    ensures a[..] == SpacedPrefix(raw, idx)
  {
    idx := from;
    while idx < a.Length && a[idx] in bs
      invariant from <= idx <= a.Length
      invariant a[..] == SpacedPrefix(raw, idx)
      invariant RunEnd(raw, idx, |raw|, bs) == RunEnd(raw, from, |raw|, bs)
      decreases a.Length - idx
    {
      a[idx] := SPACE;
      idx := idx + 1;
    }
  }

  /**
   * A comment that starts with `%` keeps its length and newlines; only its
   * `%` run and the blanks after it turn into spaces, and the byte after
   * them is neither a space nor a tab.
   */
  lemma LatexCommentSanitizedShape(raw: Bytes)
    requires |raw| > 0 && raw[0] == PERCENT
    ensures BlanksOnly(raw, LatexCommentSanitized(raw), {PERCENT, TAB})
    ensures forall k :: 0 <= k < LatexMarkEnd(raw) ==> LatexCommentSanitized(raw)[k] == SPACE
    ensures forall k :: LatexMarkEnd(raw) <= k < |raw| ==> LatexCommentSanitized(raw)[k] == raw[k]
    ensures LatexMarkEnd(raw) < |raw| ==> raw[LatexMarkEnd(raw)] != SPACE && raw[LatexMarkEnd(raw)] != TAB
  {
    var m := RunEnd(raw, 1, |raw|, {PERCENT});
    forall k | 0 <= k < LatexMarkEnd(raw)
      ensures raw[k] == PERCENT || raw[k] == SPACE || raw[k] == TAB
    {
      if k >= m {
        assert raw[k] in Blanks;
      } else if k > 0 {
        assert raw[k] in {PERCENT};
      }
    }
  }

  /** An unescaped `%` at `k`. */
  predicate UnescapedPercent(text: Bytes, k: nat) {
    k < |text| && text[k] == PERCENT && !Escaped(text, k)
  }

  /** The first unescaped `%` in `[i, hi)`. */
  function FirstPercent(text: Bytes, i: nat, hi: nat): (r: Option<nat>)
    requires hi <= |text|
    ensures r.Some? ==> i <= r.value < hi
    decreases hi - i
  {
    if i >= hi then None
    else if UnescapedPercent(text, i) then Some(i)
    else FirstPercent(text, i + 1, hi)
  }

  /** `FirstPercent` finds an unescaped `%` with none before it in the span, or says there is none. */
  lemma {:induction false} FirstPercentFirst(text: Bytes, i: nat, hi: nat)
    requires hi <= |text|
    ensures match FirstPercent(text, i, hi)
      case Some(c) => UnescapedPercent(text, c) && forall k :: i <= k < c ==> !UnescapedPercent(text, k)
      case None => forall k :: i <= k < hi ==> !UnescapedPercent(text, k)
    decreases hi - i
  {
    if i < hi && !UnescapedPercent(text, i) {
      FirstPercentFirst(text, i + 1, hi);
    }
  }

  /** The comment of the line `[pos, lineEnd)`: from its first unescaped `%` to the line's end. */
  function LineComment(text: Bytes, pos: nat, lineEnd: nat): (r: seq<CommentSegment>)
    requires pos <= lineEnd <= |text|
    ensures |r| <= 1
  {
    match FirstPercent(text, pos, lineEnd)
    case None => []
    case Some(c) => [CommentSegment(c, lineEnd, LatexCommentSanitized(text[c..lineEnd]))]
  }

  /** The comments found before byte `pos`, `found`, followed by those of the lines from `pos` on. */
  function LatexCommentsAfter(text: Bytes, pos: nat, found: seq<CommentSegment>): seq<CommentSegment>
    decreases |text| - pos
  {
    if pos >= |text| then found
    else
      var lineEnd := LineEndAt(text, pos);
      var more := found + LineComment(text, pos, lineEnd);
      if lineEnd >= |text| then more else LatexCommentsAfter(text, lineEnd + 1, more)
  }

  /** `collectLatexComments`. */
  function LatexComments(text: Bytes): seq<CommentSegment> {
    LatexCommentsAfter(text, 0, [])
  }

  method CollectLatexComments(text: Bytes) returns (segments: seq<CommentSegment>)
    ensures segments == LatexComments(text)
  {
    segments := [];
    var pos := 0;
    while pos < |text|
      invariant pos <= |text|
      invariant LatexCommentsAfter(text, pos, segments) == LatexComments(text)
      decreases |text| - pos
    {
      var lineEnd := LineEndAt(text, pos);
      var found := LineCommentAt(text, pos, lineEnd);
      segments := segments + found;
      if lineEnd >= |text| {
        break;
      }
      pos := lineEnd + 1;
    }
  }

  /** The body of the line loop of `collectLatexComments`: the line's comment, if it has one. */
  method LineCommentAt(text: Bytes, lineStart: nat, lineEnd: nat) returns (found: seq<CommentSegment>)
    requires lineStart <= lineEnd <= |text|
    ensures found == LineComment(text, lineStart, lineEnd)
  {
    found := [];
    var current := FindUnescapedPercent(text, lineStart, lineEnd);
    if current < lineEnd {
      var sanitized := SanitizeLatexCommentText(text[current..lineEnd]);
      found := [CommentSegment(current, lineEnd, sanitized)];
    }
  }

  /** The inner search of `collectLatexComments`: the first unescaped `%` of the line, or `hi`. */
  method FindUnescapedPercent(text: Bytes, i: nat, hi: nat) returns (current: nat)
    requires i <= hi <= |text|
    ensures current == match FirstPercent(text, i, hi) case None => hi case Some(c) => c
  {
    current := i;
    while current < hi
      invariant i <= current <= hi
      invariant FirstPercent(text, current, hi) == FirstPercent(text, i, hi)
      decreases hi - current
    {
      if text[current] == PERCENT {
        var escaped := IsEscaped(text, current);
        if !escaped {
          return;
        }
      }
      current := current + 1;
    }
  }

  /**
   * A LaTeX comment of `text`: it starts at an unescaped `%` with no
   * unescaped `%` before it on its line, runs to the end of the line (a
   * '\n' or the end of the text) without a newline inside, and its text is
   * its bytes with only the `%` run and the blanks after it turned to spaces.
   */
  predicate LatexCommentOf(text: Bytes, g: CommentSegment) {
    && g.startByte < g.endByte <= |text|
    && UnescapedPercent(text, g.startByte)
    && (forall k :: g.startByte <= k < g.endByte ==> text[k] != NL)
    && (g.endByte == |text| || text[g.endByte] == NL)
    && (forall k :: LineStartBefore(text, g.startByte) <= k < g.startByte ==> !UnescapedPercent(text, k))
    && BlanksOnly(text[g.startByte..g.endByte], g.sanitized, {PERCENT, TAB})
  }

  /** The start of the line holding byte `p`: just after the last '\n' before `p`, or 0. */
  function LineStartBefore(text: Bytes, p: nat): (r: nat)
    requires p <= |text|
    ensures r <= p
    ensures forall k :: r <= k < p ==> text[k] != NL
    ensures r > 0 ==> text[r - 1] == NL
  {
    if p > 0 && text[p - 1] != NL then LineStartBefore(text, p - 1) else p
  }

  /** Segments in text order, each ending before the next starts. */
  predicate Ordered(segs: seq<CommentSegment>) {
    forall i :: 0 <= i < |segs| - 1 ==> segs[i].endByte < segs[i + 1].startByte
  }

  /** Comments of the text, in order, all before byte `pos`. */
  predicate CommentsBefore(text: Bytes, segs: seq<CommentSegment>, pos: nat) {
    && Ordered(segs)
    && forall g :: g in segs ==> LatexCommentOf(text, g) && g.endByte < pos
  }

  /** Every byte of the line that starts at `pos` has its line start at `pos`. */
  lemma {:induction false} LineStartOfLine(text: Bytes, pos: nat, p: nat)
    requires pos <= p <= |text| && (pos == 0 || text[pos - 1] == NL)
    requires forall k :: pos <= k < p ==> text[k] != NL
    ensures LineStartBefore(text, p) == pos
    decreases p - pos
  {
    if p > pos {
      LineStartOfLine(text, pos, p - 1);
    }
  }

  /** The comment of a line is a comment of the text, starting on that line and ending at its end. */
  lemma LineCommentShape(text: Bytes, pos: nat)
    requires pos < |text| && (pos == 0 || text[pos - 1] == NL)
    ensures forall g :: g in LineComment(text, pos, LineEndAt(text, pos)) ==>
      LatexCommentOf(text, g) && pos <= g.startByte && g.endByte == LineEndAt(text, pos)
  {
    var lineEnd := LineEndAt(text, pos);
    FirstPercentFirst(text, pos, lineEnd);
    match FirstPercent(text, pos, lineEnd)
    case None =>
    case Some(c) =>
      LineStartOfLine(text, pos, c);
      LatexCommentSanitizedShape(text[c..lineEnd]);
  }

  /** Adding a line's comment to comments that all end before the line keeps them comments, in order. */
  lemma CommentsBeforeStep(text: Bytes, pos: nat, found: seq<CommentSegment>)
    requires pos < |text| && (pos == 0 || text[pos - 1] == NL)
    requires CommentsBefore(text, found, pos)
    ensures CommentsBefore(text, found + LineComment(text, pos, LineEndAt(text, pos)), LineEndAt(text, pos) + 1)
  {
    var lineEnd := LineEndAt(text, pos);
    var line := LineComment(text, pos, lineEnd);
    LineCommentShape(text, pos);
    var all := found + line;
    forall i | 0 <= i < |all| - 1
      ensures all[i].endByte < all[i + 1].startByte
    {
      if i + 1 < |found| {
        assert all[i] == found[i] && all[i + 1] == found[i + 1];
      } else {
        assert all[i] in found && all[i + 1] in line;
      }
    }
  }

  lemma CommentsBeforeWeaken(text: Bytes, segs: seq<CommentSegment>, p: nat, q: nat)
    requires p <= q && CommentsBefore(text, segs, p)
    ensures CommentsBefore(text, segs, q)
  {
  }

  /** One line of the scan: its comment joins the list, and the scan goes on after the line's '\n'. */
  lemma LatexCommentsAfterStep(text: Bytes, pos: nat, found: seq<CommentSegment>)
    requires pos < |text| && (pos == 0 || text[pos - 1] == NL)
    requires CommentsBefore(text, found, pos)
    requires LineEndAt(text, pos) < |text|
    ensures var lineEnd := LineEndAt(text, pos);
      && text[lineEnd] == NL
      && CommentsBefore(text, found + LineComment(text, pos, lineEnd), lineEnd + 1)
  {
    CommentsBeforeStep(text, pos, found);
  }

  /** The scan goes on after the line: what it finds from there is what it finds from `pos`. */
  lemma LatexCommentsAfterChain(text: Bytes, pos: nat, found: seq<CommentSegment>)
    requires pos < |text| && LineEndAt(text, pos) < |text|
    requires CommentsBefore(text,
      LatexCommentsAfter(text, LineEndAt(text, pos) + 1, found + LineComment(text, pos, LineEndAt(text, pos))), |text| + 1)
    ensures CommentsBefore(text, LatexCommentsAfter(text, pos, found), |text| + 1)
  {
  }

  /** The last line of the scan: its comment joins the list and the scan stops. */
  lemma LatexCommentsAfterLast(text: Bytes, pos: nat, found: seq<CommentSegment>)
    requires pos < |text| && (pos == 0 || text[pos - 1] == NL)
    requires CommentsBefore(text, found, pos)
    requires LineEndAt(text, pos) >= |text|
    ensures CommentsBefore(text, LatexCommentsAfter(text, pos, found), |text| + 1)
  {
    CommentsBeforeStep(text, pos, found);
  }

  lemma {:induction false} LatexCommentsAfterShape(text: Bytes, pos: nat, found: seq<CommentSegment>)
    requires pos <= |text| && (pos == 0 || text[pos - 1] == NL)
    requires CommentsBefore(text, found, pos)
    ensures CommentsBefore(text, LatexCommentsAfter(text, pos, found), |text| + 1)
    decreases |text| - pos
  {
    if pos == |text| {
      CommentsBeforeWeaken(text, found, pos, |text| + 1);
    } else if LineEndAt(text, pos) >= |text| {
      LatexCommentsAfterLast(text, pos, found);
    } else {
      LatexCommentsAfterStep(text, pos, found);
      var lineEnd := LineEndAt(text, pos);
      LatexCommentsAfterShape(text, lineEnd + 1, found + LineComment(text, pos, lineEnd));
      LatexCommentsAfterChain(text, pos, found);
    }
  }

  /**
   * Every LaTeX comment found is a comment of the text as described by
   * `LatexCommentOf`, and they come in text order, at most one per line:
   * a newline lies between any two of them.
   */
  lemma LatexCommentsShape(text: Bytes)
    ensures forall g :: g in LatexComments(text) ==> LatexCommentOf(text, g)
    ensures Ordered(LatexComments(text))
  {
    LatexCommentsAfterShape(text, 0, []);
  }

  // ---------------------------------------------------------------------------
  // Content ranges

  /** `utf8CharLen`: the length a lead byte announces; 1 for ASCII and for bytes that lead nothing. */
  function Utf8CharLen(c: Byte): (n: nat)
    ensures 1 <= n <= 4
    ensures c < 0x80 ==> n == 1
  {
    if c < 0x80 then 1
    else if 0xC0 <= c < 0xE0 then 2
    else if 0xE0 <= c < 0xF0 then 3
    else if 0xF0 <= c < 0xF8 then 4
    else 1
  }

  /** The byte at `k` ends a run of plain text. */
  predicate WordStop(text: Bytes, k: nat)
    requires k < |text|
  {
    var d := text[k];
    || d == BACKSLASH || d == DOLLAR || d == LBRACE || d == RBRACE
    || (d == PERCENT && !Escaped(text, k))
    || (d < 0x80 && (IsCSpace(d) || IsCPunct(d)))
  }

  /** The end of the run of plain text from `i`, stepping a whole character at a time. */
  function WordEnd(text: Bytes, i: nat): (r: nat)
    requires i <= |text| + 3
    ensures i <= r <= |text| + 3
    decreases |text| + 3 - i
  {
    if i < |text| && !WordStop(text, i) then WordEnd(text, i + Utf8CharLen(text[i])) else i
  }

  /** The end of the letters and `@` of a command name starting at `i`. */
  function CommandNameEnd(text: Bytes, i: nat): (r: nat)
    requires i <= |text|
    ensures i <= r <= |text|
    decreases |text| - i
  {
    if i < |text| && (IsCAlpha(text[i]) || text[i] == AT) then CommandNameEnd(text, i + 1) else i
  }

  /** What the scanner does at byte `i`: stop, skip to a later byte, or record plain text up to a later byte. */
  datatype Move = Stop | Skip(next: nat) | Word(next: nat)

  function LatexMove(text: Bytes, i: nat): (m: Move)
    requires i < |text|
    ensures m.Skip? || m.Word? ==> m.next > i
    ensures m.Word? ==> m.next <= |text| + 3
  {
    var c := text[i];
    if c == PERCENT && !Escaped(text, i) then
      match FindByte(text, NL, i)
      case None => Stop
      case Some(e) => Skip(e + 1)
    else if c == DOLLAR && !Escaped(text, i) then
      if i + 1 < |text| && text[i + 1] == DOLLAR then
        match FirstDoubleDollar(text, i + 2)
        case None => Stop
        case Some(closing) => Skip(closing + 2)
      else
        match FirstDollar(text, i + 1)
        case None => Stop
        case Some(closing) => Skip(closing + 1)
    else if c == BACKSLASH then
      var j := CommandNameEnd(text, i + 1);
      Skip(if j < |text| && text[j] == STAR then j + 1 else j)
    else if c == LBRACE || c == RBRACE || IsCSpace(c) then Skip(i + 1)
    else
      var e := WordEnd(text, i);
      if e > i then Word(e) else Skip(i + 1)
  }

  /** The plain-text ranges the scanner records from byte `i` on. */
  function LatexRangesFrom(text: Bytes, i: nat): seq<ByteRange>
    decreases |text| - i
  {
    if i >= |text| then []
    else
      match LatexMove(text, i)
      case Stop => []
      case Skip(n) => LatexRangesFrom(text, n)
      case Word(n) => [ByteRange(i, n)] + LatexRangesFrom(text, n)
  }

  /** `collectLatexContentRanges`. */
  function LatexContentRanges(text: Bytes): seq<ByteRange> {
    LatexRangesFrom(text, 0)
  }

  method CollectLatexContentRanges(text: Bytes) returns (ranges: seq<ByteRange>)
    ensures ranges == LatexContentRanges(text)
  {
    ranges := [];
    var i := 0;
    while i < |text|
      invariant ranges + LatexRangesFrom(text, i) == LatexContentRanges(text)
      decreases |text| - i
    {
      var m := ScanAt(text, i);
      match m
      case Stop =>
        break;
      case Skip(n) =>
        i := n;
      case Word(n) =>
        ranges := ranges + [ByteRange(i, n)];
        i := n;
    }
  }

  /** One pass of the loop of `collectLatexContentRanges`, with its branches in the source's order. */
  method ScanAt(text: Bytes, i: nat) returns (m: Move)
    requires i < |text|
    ensures m == LatexMove(text, i)
  {
    var c := text[i];
    if c == PERCENT {
      var escaped := IsEscaped(text, i);
      if !escaped {
        var lineEnd := FindByte(text, NL, i);
        if lineEnd.None? {
          return Stop;
        }
        return Skip(lineEnd.value + 1);
      }
    }
    if c == DOLLAR {
      var escaped := IsEscaped(text, i);
      if !escaped {
        m := SkipMath(text, i);
        return;
      }
    }
    if c == BACKSLASH {
      var j := SkipCommandName(text, i + 1);
      if j < |text| && text[j] == STAR {
        j := j + 1;
      }
      return Skip(j);
    }
    if c == LBRACE || c == RBRACE || IsCSpace(c) {
      return Skip(i + 1);
    }
    var e := ScanWord(text, i);
    if e > i {
      return Word(e);
    }
    return Skip(i + 1);
  }

  /** The math branch: skip past the closing `$$` or `$`, or stop when there is none. */
  method SkipMath(text: Bytes, i: nat) returns (m: Move)
    requires UnescapedDollar(text, i)
    ensures m == LatexMove(text, i)
  {
    if i + 1 < |text| && text[i + 1] == DOLLAR {
      var closing := FindClosingDoubleDollar(text, i + 2);
      if closing.None? {
        return Stop;
      }
      return Skip(closing.value + 2);
    } else {
      var closing := FindClosingDollar(text, i + 1);
      if closing.None? {
        return Stop;
      }
      return Skip(closing.value + 1);
    }
  }

  /** The loop over a command's letters and `@`. */
  method SkipCommandName(text: Bytes, i: nat) returns (j: nat)
    requires i <= |text|
    ensures j == CommandNameEnd(text, i)
  {
    j := i;
    while j < |text| && (IsCAlpha(text[j]) || text[j] == AT)
      invariant i <= j <= |text|
      invariant CommandNameEnd(text, j) == CommandNameEnd(text, i)
      decreases |text| - j
    {
      j := j + 1;
    }
  }

  /** The loop over a run of plain text, a character at a time. */
  method ScanWord(text: Bytes, i: nat) returns (j: nat)
    requires i < |text|
    ensures j == WordEnd(text, i)
  {
    j := i;
    while j < |text|
      invariant i <= j <= |text| + 3
      invariant WordEnd(text, j) == WordEnd(text, i)
      decreases |text| + 3 - j
    {
      var d := text[j];
      if d == BACKSLASH || d == DOLLAR || d == LBRACE || d == RBRACE {
        break;
      }
      if d == PERCENT {
        var escaped := IsEscaped(text, j);
        if !escaped {
          break;
        }
      }
      if d < 0x80 && (IsCSpace(d) || IsCPunct(d)) {
        break;
      }
      j := j + Utf8CharLen(d);
    }
  }

  /** Ranges in text order, none empty and none overlapping the next. */
  predicate RangesOrdered(rs: seq<ByteRange>) {
    && (forall i :: 0 <= i < |rs| ==> rs[i].startByte < rs[i].endByte)
    && (forall i :: 0 <= i < |rs| - 1 ==> rs[i].endByte <= rs[i + 1].startByte)
  }

  lemma {:induction false} LatexRangesFromOrdered(text: Bytes, i: nat)
    ensures RangesOrdered(LatexRangesFrom(text, i))
    ensures forall r :: r in LatexRangesFrom(text, i) ==> i <= r.startByte < |text| && r.endByte <= |text| + 3
    decreases |text| - i
  {
    if i < |text| {
      match LatexMove(text, i)
      case Stop =>
      case Skip(n) =>
        LatexRangesFromOrdered(text, n);
      case Word(n) =>
        LatexRangesFromOrdered(text, n);
        var rest := LatexRangesFrom(text, n);
        var all := [ByteRange(i, n)] + rest;
        assert LatexRangesFrom(text, i) == all;
        forall k | 0 <= k < |all| - 1
          ensures all[k].endByte <= all[k + 1].startByte
        {
          if k > 0 {
            assert all[k] == rest[k - 1] && all[k + 1] == rest[k];
          } else {
            assert all[1] in rest;
          }
        }
    }
  }

  /**
   * The lead bytes of `text` are followed by non-ASCII bytes for as long as
   * they announce, as in well-formed UTF-8: no ASCII byte hides inside a
   * character.
   */
  predicate ContinuationsNonAscii(text: Bytes) {
    forall k, j :: 0 <= k < j < |text| && j < k + Utf8CharLen(text[k]) ==> !IsAscii(text[j])
  }

  /** Every ASCII byte of a run of plain text is neither whitespace nor punctuation. */
  lemma {:induction false} WordBytes(text: Bytes, i: nat)
    requires i <= |text| && ContinuationsNonAscii(text)
    ensures forall k :: i <= k < WordEnd(text, i) && k < |text| && IsAscii(text[k]) ==>
      !IsCSpace(text[k]) && !IsCPunct(text[k])
    decreases |text| - i
  {
    if i < |text| && !WordStop(text, i) {
      var n := i + Utf8CharLen(text[i]);
      if n <= |text| {
        WordBytes(text, n);
      }
      forall k | i < k < n && k < |text|
        ensures !IsAscii(text[k])
      {
      }
    }
  }

  lemma {:induction false} LatexRangesFromBytes(text: Bytes, i: nat)
    requires ContinuationsNonAscii(text)
    ensures forall r, k :: r in LatexRangesFrom(text, i) && r.startByte <= k < r.endByte && k < |text| && IsAscii(text[k]) ==>
      !IsCSpace(text[k]) && !IsCPunct(text[k])
    decreases |text| - i
  {
    if i < |text| {
      match LatexMove(text, i)
      case Stop =>
      case Skip(n) =>
        LatexRangesFromBytes(text, n);
      case Word(n) =>
        LatexRangesFromBytes(text, n);
        WordBytes(text, i);
    }
  }

  /**
   * The plain-text ranges of a LaTeX document come in text order, are not
   * empty and do not overlap; each starts inside the text, and on text
   * whose characters hide no ASCII byte, no ASCII whitespace or punctuation
   * (so no `\`, `$`, `{`, `}` or `%`) lies inside one.  A range may end up
   * to three bytes past the text when the text ends inside a character.
   */
  lemma LatexContentRangesShape(text: Bytes)
    ensures RangesOrdered(LatexContentRanges(text))
    ensures forall r :: r in LatexContentRanges(text) ==> r.startByte < |text| && r.endByte <= |text| + 3
    ensures ContinuationsNonAscii(text) ==>
      forall r, k :: r in LatexContentRanges(text) && r.startByte <= k < r.endByte && k < |text| && IsAscii(text[k]) ==>
        !IsCSpace(text[k]) && !IsCPunct(text[k])
  {
    LatexRangesFromOrdered(text, 0);
    if ContinuationsNonAscii(text) {
      LatexRangesFromBytes(text, 0);
    }
  }

  /** The scan started at byte `i` comes to byte `j`: `j` is `i`, or the scan moves on from `i` and comes to `j` from there. */
  predicate Reaches(text: Bytes, i: nat, j: nat)
    decreases |text| - i
  {
    i == j ||
    (i < j && i < |text| &&
      match LatexMove(text, i)
      case Stop => false
      case Skip(n) => Reaches(text, n, j)
      case Word(n) => Reaches(text, n, j))
  }

  /** No plain-text range of the document meets the bytes `[lo, hi)`. */
  predicate Uncovered(text: Bytes, lo: nat, hi: nat) {
    forall r :: r in LatexContentRanges(text) ==> r.endByte <= lo || hi <= r.startByte
  }

  /** Every range recorded from byte `i` on ends by a byte `j` the scan comes to, or is recorded from `j` on. */
  lemma {:induction false} RangesAroundVisit(text: Bytes, i: nat, j: nat)
    requires Reaches(text, i, j)
    ensures forall r :: r in LatexRangesFrom(text, i) ==> r.endByte <= j || r in LatexRangesFrom(text, j)
    decreases |text| - i
  {
    if i != j {
      match LatexMove(text, i)
      case Skip(n) =>
        RangesAroundVisit(text, n, j);
      case Word(n) =>
        RangesAroundVisit(text, n, j);
        assert n <= j;
    }
  }

  /**
   * At a byte the scan comes to, what it skips holds no plain text, and
   * where it stops, no plain text follows.
   */
  lemma LatexSkipsUncovered(text: Bytes, j: nat)
    requires j < |text| && Reaches(text, 0, j)
    ensures LatexMove(text, j).Skip? ==> Uncovered(text, j, LatexMove(text, j).next)
    ensures LatexMove(text, j).Stop? ==> Uncovered(text, j, |text|)
  {
    RangesAroundVisit(text, 0, j);
    LatexRangesFromOrdered(text, 0);
    match LatexMove(text, j)
    case Skip(n) =>
      LatexRangesFromOrdered(text, n);
    case Stop =>
    case Word(n) =>
  }

  /**
   * What the scan skips, byte by byte, at a byte it comes to: an unescaped
   * `%` through the end of its line (or to the end of the text), inline
   * math `$...$` and display math `$$...$$` through the closing delimiter
   * (or to the end of the text when it is unclosed), and a `\` with its
   * command name and an optional `*`.  No plain-text range meets any of
   * them.
   */
  lemma LatexMarkupUncovered(text: Bytes, j: nat)
    requires j < |text| && Reaches(text, 0, j)
    ensures UnescapedPercent(text, j) ==>
      Uncovered(text, j, match FindByte(text, NL, j) case None => |text| case Some(e) => e + 1)
    ensures UnescapedDoubleDollar(text, j) ==>
      Uncovered(text, j, match FirstDoubleDollar(text, j + 2) case None => |text| case Some(c) => c + 2)
    ensures UnescapedDollar(text, j) && !UnescapedDoubleDollar(text, j) ==>
      Uncovered(text, j, match FirstDollar(text, j + 1) case None => |text| case Some(c) => c + 1)
    ensures text[j] == BACKSLASH ==>
      var e := CommandNameEnd(text, j + 1);
      Uncovered(text, j, if e < |text| && text[e] == STAR then e + 1 else e)
  {
    LatexSkipsUncovered(text, j);
  }

  /** Plain text around inline math: `a$x$b` yields `a` and `b`, and the math is skipped. */
  lemma InlineMathExample()
    ensures LatexContentRanges([0x61, DOLLAR, 0x78, DOLLAR, 0x62]) == [ByteRange(0, 1), ByteRange(4, 5)]
  {
    var t: Bytes := [0x61, DOLLAR, 0x78, DOLLAR, 0x62];
    assert WordEnd(t, 1) == 1;
    assert LatexMove(t, 0) == Word(1);
    assert EscapeRun(t, 1) == 0;
    assert FirstDollar(t, 2) == Some(3);
    assert LatexMove(t, 1) == Skip(4);
    assert WordEnd(t, 5) == 5;
    assert LatexMove(t, 4) == Word(5);
    assert LatexRangesFrom(t, 5) == [];
    assert LatexRangesFrom(t, 4) == [ByteRange(4, 5)];
    assert LatexRangesFrom(t, 1) == [ByteRange(4, 5)];
  }

  /** An unclosed `$` ends the scan: nothing after it is plain text. */
  lemma UnclosedMathExample()
    ensures LatexContentRanges([0x61, SPACE, DOLLAR, 0x78]) == [ByteRange(0, 1)]
  {
    var t: Bytes := [0x61, SPACE, DOLLAR, 0x78];
    assert WordEnd(t, 1) == 1;
    assert LatexMove(t, 0) == Word(1);
    assert LatexMove(t, 1) == Skip(2);
    assert EscapeRun(t, 2) == 0;
    assert FirstDollar(t, 3) == None;
    assert LatexMove(t, 2) == Stop;
    assert LatexRangesFrom(t, 2) == [];
    assert LatexRangesFrom(t, 1) == [];
  }

  /** A comment on the last line, with no newline after it, ends the scan. */
  lemma FinalCommentExample()
    ensures LatexContentRanges([0x61, PERCENT, 0x62]) == [ByteRange(0, 1)]
  {
    var t: Bytes := [0x61, PERCENT, 0x62];
    assert EscapeRun(t, 1) == 0;
    assert WordEnd(t, 1) == 1;
    assert LatexMove(t, 0) == Word(1);
    assert FindByte(t, NL, 1) == None;
    assert LatexMove(t, 1) == Stop;
    assert LatexRangesFrom(t, 1) == [];
  }

  /** A text cut inside a character yields a range that runs past its end. */
  lemma TruncatedCharacterExample()
    ensures LatexContentRanges([0xE3]) == [ByteRange(0, 3)]
  {
    var t: Bytes := [0xE3];
    assert WordEnd(t, 0) == 3;
    assert LatexMove(t, 0) == Word(3);
  }

  /** The comments of a two-line text: only the unescaped `%` of each line starts one. */
  lemma LatexCommentsExample()
    ensures LatexComments([0x61, BACKSLASH, PERCENT, NL, PERCENT, SPACE, 0x62])
      == [CommentSegment(4, 7, [SPACE, SPACE, 0x62])]
  {
    var t: Bytes := [0x61, BACKSLASH, PERCENT, NL, PERCENT, SPACE, 0x62];
    FindByteAt(t, NL, 0, 3);
    assert EscapeRun(t, 2) == 1;
    assert !UnescapedPercent(t, 0) && !UnescapedPercent(t, 1) && !UnescapedPercent(t, 2);
    assert FirstPercent(t, 0, 3) == None;
    assert LineComment(t, 0, 3) == [];
    assert FindByte(t, NL, 4) == None;
    assert EscapeRun(t, 4) == 0;
    assert FirstPercent(t, 4, 7) == Some(4);
    assert t[4..7] == [PERCENT, SPACE, 0x62];
    assert LatexMarkEnd([PERCENT, SPACE, 0x62]) == 2;
    assert LatexCommentSanitized([PERCENT, SPACE, 0x62]) == [SPACE, SPACE, 0x62];
    assert LatexCommentsAfter(t, 4, []) == [CommentSegment(4, 7, [SPACE, SPACE, 0x62])];
    assert LineEndAt(t, 0) == 3;
    assert [] + LineComment(t, 0, 3) == [];
  }
}
