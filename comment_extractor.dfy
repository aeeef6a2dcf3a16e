/**
 * The comment side of `comment_extractor.cpp`: the table of languages whose
 * comments the server checks, and the sanitisers that blank a comment's
 * markers in place so that only its prose is analysed.  Blanking turns a
 * byte into a space, except that '\n' and '\r' are kept, so a sanitised
 * comment has the length and the line structure of the original.
 *
 * The tree-sitter parse that finds the comment nodes is not part of this
 * model: the nodes it visits are an input.
 */
module CommentExtractor {
  import opened ByteText

  // ---------------------------------------------------------------------------
  // Languages

  /** `std::tolower` in the C locale: only 'A'..'Z' change. */
  function LowerByte(b: Byte): (r: Byte)
    ensures 0x41 <= b <= 0x5A ==> r == b + 32
    ensures !(0x41 <= b <= 0x5A) ==> r == b
  {
    if 0x41 <= b <= 0x5A then b + 32 else b
  }

  /** `toLower`: every byte through `std::tolower`. */
  function ToLower(s: Bytes): (r: Bytes)
    ensures |r| == |s|
    ensures forall k :: 0 <= k < |s| ==> r[k] == LowerByte(s[k])
  {
    seq(|s|, k requires 0 <= k < |s| => LowerByte(s[k]))
  }

  /** Lower-casing twice is lower-casing once. */
  lemma ToLowerIdempotent(s: Bytes)
    ensures ToLower(ToLower(s)) == ToLower(s)
  {
  }

  /** The language ids of `languageMap`. */
  const LanguageIds: set<Bytes> := {
    Ascii("c"), Ascii("cpp"), Ascii("html"), Ascii("c++"), Ascii("javascript"), Ascii("javascriptreact"),
    Ascii("typescript"), Ascii("typescriptreact"), Ascii("tsx"), Ascii("python"), Ascii("rust"), Ascii("latex")
  }

  /** `isLanguageSupported`: the lower-cased id is in the language table. */
  predicate IsLanguageSupported(languageId: Bytes) {
    ToLower(languageId) in LanguageIds
  }

  /** Ids are compared without regard to ASCII case. */
  lemma LanguageIdsIgnoreCase(id: Bytes)
    ensures IsLanguageSupported(id) <==> IsLanguageSupported(ToLower(id))
  {
    ToLowerIdempotent(id);
  }

  /** No language id of the table has eight letters. */
  lemma NoEightByteId(id: Bytes)
    requires |id| == 8
    ensures !IsLanguageSupported(id)
  {
    assert |ToLower(id)| == 8;
  }

  /** "japanese", the id of plain Japanese documents, and "markdown" are not comment languages. */
  lemma PlainLanguages()
    ensures !IsLanguageSupported(Ascii("japanese"))
    ensures !IsLanguageSupported(Ascii("markdown"))
  {
    NoEightByteId(Ascii("japanese"));
    NoEightByteId(Ascii("markdown"));
  }

  /** Mixed-case ids of the table are supported. */
  lemma MixedCaseLanguages()
    ensures IsLanguageSupported(Ascii("C++"))
    ensures IsLanguageSupported(Ascii("LaTeX"))
  {
    assert ToLower(Ascii("C++")) == Ascii("c++");
    assert ToLower(Ascii("LaTeX")) == Ascii("latex");
  }

  // ---------------------------------------------------------------------------
  // Blanking

  predicate IsNewline(b: Byte) { b == NL || b == CR }

  /** `setSpace`: a space, unless the byte is a newline. */
  function SetSpace(b: Byte): (r: Byte)
    ensures IsNewline(b) ==> r == b
    ensures !IsNewline(b) ==> r == SPACE
  {
    if IsNewline(b) then b else SPACE
  }

  /** The bytes at `[lo, hi)` blanked. */
  function Blank(s: Bytes, lo: nat, hi: nat): (r: Bytes)
    requires lo <= hi <= |s|
    ensures |r| == |s|
    ensures forall k :: 0 <= k < |s| ==> r[k] == if lo <= k < hi then SetSpace(s[k]) else s[k]
  {
    seq(|s|, k requires 0 <= k < |s| => if lo <= k < hi then SetSpace(s[k]) else s[k])
  }

  /**
   * `t` is `s` with some bytes blanked: same length, every changed byte is a
   * space, newlines never change, and only bytes of `marks` change.
   */
  predicate BlanksOnly(s: Bytes, t: Bytes, marks: set<Byte>) {
    && |t| == |s|
    && forall k :: 0 <= k < |s| ==>
         (IsNewline(s[k]) ==> t[k] == s[k]) && (t[k] != s[k] ==> t[k] == SPACE && s[k] in marks)
  }

  lemma BlanksOnlyTrans(s: Bytes, t: Bytes, u: Bytes, marks: set<Byte>)
    requires BlanksOnly(s, t, marks) && BlanksOnly(t, u, marks)
    ensures BlanksOnly(s, u, marks)
  {
  }

  /** Blanking a span whose bytes are spaces, newlines or marks changes only marks. */
  lemma BlankBlanksOnly(s: Bytes, lo: nat, hi: nat, marks: set<Byte>)
    requires lo <= hi <= |s|
    requires forall k :: lo <= k < hi ==> s[k] in marks || s[k] == SPACE || IsNewline(s[k])
    ensures BlanksOnly(s, Blank(s, lo, hi), marks)
  {
  }

  /** Blanking two adjacent spans is blanking their union. */
  lemma BlankJoin(s: Bytes, lo: nat, mid: nat, hi: nat)
    requires lo <= mid <= hi <= |s|
    ensures Blank(Blank(s, lo, mid), mid, hi) == Blank(s, lo, hi)
    ensures Blank(Blank(s, mid, hi), lo, mid) == Blank(s, lo, hi)
  {
  }

  /** Blanking one byte of an array, as `setSpace(segment[k])` does. */
  lemma BlankOne(s: Bytes, k: nat)
    requires k < |s|
    ensures s[k := SetSpace(s[k])] == Blank(s, k, k + 1)
  {
  }

  /**
   * The end of the run of bytes of `bs` starting at `i`, stopping at `hi`:
   * the loop `while (i < hi && bs contains segment[i]) ++i`.
   */
  function RunEnd(s: Bytes, i: nat, hi: nat, bs: set<Byte>): (r: nat)
    requires i <= hi <= |s|
    ensures i <= r <= hi
    ensures forall k :: i <= k < r ==> s[k] in bs
    ensures r < hi ==> s[r] !in bs
    decreases hi - i
  {
    if i < hi && s[i] in bs then RunEnd(s, i + 1, hi, bs) else i
  }

  /** The run end reads only the bytes from `i` to `hi`. */
  lemma {:induction false} RunEndSame(s: Bytes, t: Bytes, i: nat, hi: nat, bs: set<Byte>)
    requires i <= hi <= |s| == |t|
    requires forall k :: i <= k < hi ==> s[k] == t[k]
    ensures RunEnd(s, i, hi, bs) == RunEnd(t, i, hi, bs)
    decreases hi - i
  {
    if i < hi && s[i] in bs {
      RunEndSame(s, t, i + 1, hi, bs);
    }
  }

  /** The start of the run of bytes of `bs` that ends just before `j`, read backwards. */
  function RunStart(s: Bytes, j: nat, bs: set<Byte>): (r: nat)
    requires j <= |s|
    ensures r <= j
    ensures forall k :: r <= k < j ==> s[k] in bs
    ensures r > 0 ==> s[r - 1] !in bs
  {
    if j > 0 && s[j - 1] in bs then RunStart(s, j - 1, bs) else j
  }

  lemma {:induction false} RunStartSame(s: Bytes, t: Bytes, j: nat, bs: set<Byte>)
    requires j <= |s| == |t|
    requires forall k :: 0 <= k < j ==> s[k] == t[k]
    ensures RunStart(s, j, bs) == RunStart(t, j, bs)
  {
    if j > 0 && s[j - 1] in bs {
      RunStartSame(s, t, j - 1, bs);
    }
  }

  /** A forward blanking loop: blank the run of `bs` from `i`, stopping at `hi`, and return where it stopped. */
  method BlankRun(a: array<Byte>, i: nat, hi: nat, bs: set<Byte>) returns (j: nat)
    requires i <= hi <= a.Length
    modifies a
    ensures j == RunEnd(old(a[..]), i, hi, bs)
    ensures a[..] == Blank(old(a[..]), i, j)
  {
    j := i;
    while j < hi && a[j] in bs
      invariant i <= j <= hi
      invariant a[..] == Blank(old(a[..]), i, j)
      invariant RunEnd(old(a[..]), j, hi, bs) == RunEnd(old(a[..]), i, hi, bs)
      decreases hi - j
    {
      BlankJoin(old(a[..]), i, j, j + 1);
      BlankOne(a[..], j);
      a[j] := SetSpace(a[j]);
      j := j + 1;
    }
  }

  /**
   * A backward blanking loop: blank the run of `bs` that ends just before
   * `j`, and return where it starts.  The source counts an unsigned index
   * down from `j - 1` and stops at 0 or at a byte outside `bs`; `k` here is
   * that index plus one, which needs no wrap-around sentinel.
   */
  method BlankRunBack(a: array<Byte>, j: nat, bs: set<Byte>) returns (k: nat)
    requires j <= a.Length
    modifies a
    ensures k == RunStart(old(a[..]), j, bs)
    ensures a[..] == Blank(old(a[..]), k, j)
  {
    k := j;
    while k > 0 && a[k - 1] in bs
      invariant k <= j
      invariant a[..] == Blank(old(a[..]), k, j)
      invariant RunStart(old(a[..]), k, bs) == RunStart(old(a[..]), j, bs)
    {
      BlankJoin(old(a[..]), k - 1, k, j);
      BlankOne(a[..], k - 1);
      a[k - 1] := SetSpace(a[k - 1]);
      k := k - 1;
    }
  }

  // ---------------------------------------------------------------------------
  // Line comments

  const LineMarks: set<Byte> := {SLASH, BANG, HASH, PERCENT, DASH, TAB}
  const Blanks: set<Byte> := {SPACE, TAB}

  /** Where the marker of a line comment ends, before the blanks after it. */
  function LineMarkerEnd(s: Bytes): (r: nat)
    requires |s| > 0
    ensures r <= |s|
  {
    if |s| >= 2 && s[0] == SLASH && s[1] == SLASH then RunEnd(s, 2, |s|, {SLASH, BANG})
    else if s[0] == HASH then
      var i := RunEnd(s, 0, |s|, {HASH});
      if i < |s| && s[i] == BANG then i + 1 else i
    else if s[0] == PERCENT then RunEnd(s, 1, |s|, Blanks)
    else if |s| >= 2 && s[0] == DASH && s[1] == DASH then 2
    else 0
  }

  /** Where the blanked prefix of a line comment ends: the marker and the spaces and tabs after it. */
  function LineBlankEnd(s: Bytes): (r: nat)
    ensures r <= |s|
  {
    if |s| == 0 then 0 else RunEnd(s, LineMarkerEnd(s), |s|, Blanks)
  }

  /** `sanitizeLineComment` on a segment's bytes. */
  function LineSanitized(s: Bytes): Bytes {
    Blank(s, 0, LineBlankEnd(s))
  }

  method SanitizeLineComment(a: array<Byte>)
    modifies a
    ensures a[..] == LineSanitized(old(a[..]))
  {
    ghost var s := a[..];
    var len := a.Length;
    if len == 0 {
      return;
    }
    var i := BlankLineMarker(a);
    RunEndSame(s, a[..], i, len, Blanks);
    var e := BlankRun(a, i, len, Blanks);
    BlankJoin(s, 0, i, e);
  }

  /** The marker branches of `sanitizeLineComment`. */
  method BlankLineMarker(a: array<Byte>) returns (i: nat)
    requires a.Length > 0
    modifies a
    ensures i == LineMarkerEnd(old(a[..]))
    ensures a[..] == Blank(old(a[..]), 0, i)
  {
    ghost var s := a[..];
    var len := a.Length;
    if len >= 2 && a[0] == SLASH && a[1] == SLASH {
      SetSpaceAt(a, 0);
      SetSpaceAt(a, 1);
      BlankJoin(s, 0, 1, 2);
      i := BlankPrefixRun(a, s, 2, {SLASH, BANG});
    } else if a[0] == HASH {
      i := BlankRun(a, 0, len, {HASH});
      if i < len && a[i] == BANG {
        SetSpaceAt(a, i);
        BlankJoin(s, 0, i, i + 1);
        i := i + 1;
      }
    } else if a[0] == PERCENT {
      SetSpaceAt(a, 0);
      i := BlankPrefixRun(a, s, 1, Blanks);
    } else if len >= 2 && a[0] == DASH && a[1] == DASH {
      SetSpaceAt(a, 0);
      SetSpaceAt(a, 1);
      BlankJoin(s, 0, 1, 2);
      i := 2;
    } else {
      i := 0;
      assert Blank(s, 0, 0) == s;
    }
  }

  /** After a blanked prefix `[0, n)`: blank the run of `run` bytes that follows it. */
  method BlankPrefixRun(a: array<Byte>, ghost s: Bytes, n: nat, run: set<Byte>) returns (j: nat)
    requires n <= |s| == a.Length && a[..] == Blank(s, 0, n)
    modifies a
    ensures j == RunEnd(s, n, |s|, run)
    ensures a[..] == Blank(s, 0, j)
  {
    RunEndSame(s, a[..], n, a.Length, run);
    j := BlankRun(a, n, a.Length, run);
    BlankJoin(s, 0, n, j);
  }

  /**
   * A line comment keeps every byte after its leading marker and the spaces
   * and tabs that follow it; the blanked prefix holds only marker bytes,
   * spaces and tabs, and the first byte after it is neither a space nor a tab.
   */
  lemma LineSanitizedShape(s: Bytes)
    ensures var e := LineBlankEnd(s);
      var t := LineSanitized(s);
      && BlanksOnly(s, t, LineMarks)
      && (forall k :: e <= k < |s| ==> t[k] == s[k])
      && (forall k :: 0 <= k < e ==> t[k] == SPACE)
      && (e < |s| ==> s[e] != SPACE && s[e] != TAB)
  {
    if |s| > 0 {
      var m := LineMarkerEnd(s);
      forall k | 0 <= k < LineBlankEnd(s)
        ensures s[k] in LineMarks || s[k] == SPACE
      {
        if k >= m {
          assert s[k] in Blanks;
        } else if |s| >= 2 && s[0] == SLASH && s[1] == SLASH {
          assert k < 2 || s[k] in {SLASH, BANG};
        } else if s[0] == HASH {
          assert k < RunEnd(s, 0, |s|, {HASH}) ==> s[k] == HASH;
        } else if s[0] == PERCENT {
          assert k == 0 || s[k] in Blanks;
        }
      }
      BlankBlanksOnly(s, 0, LineBlankEnd(s), LineMarks);
    }
  }

  lemma SlashLineExample()
    ensures LineSanitized(Ascii("// hi")) == Ascii("   hi")
  {
    var s := Ascii("// hi");
    assert RunEnd(s, 2, 5, {SLASH, BANG}) == 2;
    assert RunEnd(s, 2, 5, Blanks) == 3;
    assert LineBlankEnd(s) == 3;
  }

  lemma HashLineExample()
    ensures LineSanitized(Ascii("#! x")) == Ascii("   x")
  {
    var h := Ascii("#! x");
    assert RunEnd(h, 0, 4, {HASH}) == 1;
    assert RunEnd(h, 2, 4, Blanks) == 3;
    assert LineBlankEnd(h) == 3;
  }

  /** A segment that does not open with a marker is left alone. */
  lemma UnmarkedLineExample()
    ensures LineSanitized(Ascii("a // b")) == Ascii("a // b")
  {
    var a := Ascii("a // b");
    assert RunEnd(a, 0, 6, Blanks) == 0;
    assert Blank(a, 0, 0) == a;
  }

  // ---------------------------------------------------------------------------
  // Block comments

  const BlockMarks: set<Byte> := {LT, BANG, DASH, SLASH, STAR, GT, TAB}

  /** `setSpace(segment[k])`. */
  method SetSpaceAt(a: array<Byte>, k: nat)
    requires k < a.Length
    modifies a
    ensures a[..] == Blank(old(a[..]), k, k + 1)
  {
    BlankOne(a[..], k);
    a[k] := SetSpace(a[k]);
  }

  // Where the opening `<!--` or `/*` ends, with its run of dashes or stars and the blanks after it; 0 without one.
  function OpenEnd(s: Bytes): (r: nat)
    ensures r <= |s|
  {
    if |s| >= 4 && s[0] == LT && s[1] == BANG && s[2] == DASH && s[3] == DASH then
      RunEnd(s, RunEnd(s, 4, |s|, {DASH}), |s|, Blanks)
    else if |s| >= 2 && s[0] == SLASH && s[1] == STAR then
      RunEnd(s, RunEnd(s, 2, |s|, {STAR}), |s|, Blanks)
    else 0
  }

  /**
   * Where the closing `-->` or `* /` starts, with the dashes or stars and
   * blanks before it; the length of the text without one.
   */
  function CloseStart(t: Bytes): (r: nat)
    ensures r <= |t|
  {
    var n := |t|;
    if n >= 3 && t[n - 3] == DASH && t[n - 2] == DASH && t[n - 1] == GT then RunStart(t, n - 3, {DASH, SPACE, TAB})
    else if n >= 2 && t[n - 2] == STAR && t[n - 1] == SLASH then RunStart(t, n - 2, {STAR, SPACE, TAB})
    else n
  }

  /** The end of the line that starts at `pos`: the next '\n', or the end of the text. */
  function LineEndAt(t: Bytes, pos: nat): (r: nat)
    requires pos <= |t|
    ensures pos <= r <= |t|
  {
    match FindByte(t, NL, pos)
    case None => |t|
    case Some(c) => c
  }

  /**
   * Where the blanked lead of the line `[lo, hi)` ends: its spaces, tabs
   * and '\r', then one `*` or `-` and one space after it.
   */
  function LeadEnd(t: Bytes, lo: nat, hi: nat): (r: nat)
    requires lo <= hi <= |t|
    ensures lo <= r <= hi
  {
    var i := RunEnd(t, lo, hi, {SPACE, TAB, CR});
    if i < hi && (t[i] == STAR || t[i] == DASH) then
      if i + 1 < hi && t[i + 1] == SPACE then i + 2 else i + 1
    else i
  }

  /** The line loop of `sanitizeBlockComment` from byte `pos` on. */
  function LeadsFrom(t: Bytes, pos: nat): (r: Bytes)
    ensures |r| == |t|
    decreases |t| - pos
  {
    if pos >= |t| then t
    else
      var e := LineEndAt(t, pos);
      LeadsFrom(Blank(t, pos, LeadEnd(t, pos, e)), if e < |t| then e + 1 else |t|)
  }

  /**
   * `sanitizeBlockComment` on a segment's bytes: the opening, then the
   * closing of what that leaves, then each line's lead of what those leave.
   */
  function BlockSanitized(s: Bytes): Bytes {
    if |s| == 0 then s
    else
      var s1 := Blank(s, 0, OpenEnd(s));
      var s2 := Blank(s1, CloseStart(s1), |s1|);
      LeadsFrom(s2, 0)
  }

  method SanitizeBlockComment(a: array<Byte>)
    modifies a
    ensures a[..] == BlockSanitized(old(a[..]))
  {
    if a.Length == 0 {
      return;
    }
    BlankOpening(a);
    BlankClosing(a);
    BlankLineLeads(a);
  }

  /** The opening part of `sanitizeBlockComment`. */
  method BlankOpening(a: array<Byte>)
    modifies a
    ensures a[..] == Blank(old(a[..]), 0, OpenEnd(old(a[..])))
  {
    ghost var s := a[..];
    var len := a.Length;
    if len >= 4 && a[0] == LT && a[1] == BANG && a[2] == DASH && a[3] == DASH {
      SetSpaceAt(a, 0);
      SetSpaceAt(a, 1);
      BlankJoin(s, 0, 1, 2);
      SetSpaceAt(a, 2);
      BlankJoin(s, 0, 2, 3);
      SetSpaceAt(a, 3);
      BlankJoin(s, 0, 3, 4);
      var j := BlankOpenRuns(a, s, 4, {DASH});
    } else if len >= 2 && a[0] == SLASH && a[1] == STAR {
      SetSpaceAt(a, 0);
      SetSpaceAt(a, 1);
      BlankJoin(s, 0, 1, 2);
      var j := BlankOpenRuns(a, s, 2, {STAR});
    } else {
      assert Blank(s, 0, 0) == s;
    }
  }

  /** After an opening marker `[0, n)`: blank its run of `run` bytes, then the spaces and tabs after it. */
  method BlankOpenRuns(a: array<Byte>, ghost s: Bytes, n: nat, run: set<Byte>) returns (j: nat)
    requires n <= |s| == a.Length && a[..] == Blank(s, 0, n)
    modifies a
    ensures j == RunEnd(s, RunEnd(s, n, |s|, run), |s|, Blanks)
    ensures a[..] == Blank(s, 0, j)
  {
    var i := BlankPrefixRun(a, s, n, run);
    j := BlankPrefixRun(a, s, i, Blanks);
  }

  /** The closing part of `sanitizeBlockComment`. */
  method BlankClosing(a: array<Byte>)
    modifies a
    ensures a[..] == Blank(old(a[..]), CloseStart(old(a[..])), a.Length)
  {
    ghost var t := a[..];
    var len := a.Length;
    if len >= 3 && a[len - 3] == DASH && a[len - 2] == DASH && a[len - 1] == GT {
      assert CloseStart(t) == RunStart(t, len - 3, {DASH, SPACE, TAB});
      BlankHtmlClosing(a);
    } else if len >= 2 && a[len - 2] == STAR && a[len - 1] == SLASH {
      assert CloseStart(t) == RunStart(t, len - 2, {STAR, SPACE, TAB});
      BlankCClosing(a);
    } else {
      assert Blank(a[..], len, len) == a[..];
    }
  }

  /** A closing `-->`, with the dashes, spaces and tabs before it. */
  method BlankHtmlClosing(a: array<Byte>)
    requires a.Length >= 3
    modifies a
    ensures a[..] == Blank(old(a[..]), RunStart(old(a[..]), a.Length - 3, {DASH, SPACE, TAB}), a.Length)
  {
    ghost var t := a[..];
    var len := a.Length;
    SetSpaceAt(a, len - 3);
    SetSpaceAt(a, len - 2);
    BlankJoin(t, len - 3, len - 2, len - 1);
    SetSpaceAt(a, len - 1);
    BlankJoin(t, len - 3, len - 1, len);
    var k := BlankCloseRun(a, t, len - 3, {DASH, SPACE, TAB});
  }

  // A closing `*/`, with the stars, spaces and tabs before it.
  method BlankCClosing(a: array<Byte>)
    requires a.Length >= 2
    modifies a
    ensures a[..] == Blank(old(a[..]), RunStart(old(a[..]), a.Length - 2, {STAR, SPACE, TAB}), a.Length)
  {
    ghost var t := a[..];
    var len := a.Length;
    SetSpaceAt(a, len - 2);
    SetSpaceAt(a, len - 1);
    BlankJoin(t, len - 2, len - 1, len);
    var k := BlankCloseRun(a, t, len - 2, {STAR, SPACE, TAB});
  }

  /** Before a closing marker `[m, |t|)`: the backward loop over the run of `run` bytes. */
  method BlankCloseRun(a: array<Byte>, ghost t: Bytes, m: nat, run: set<Byte>) returns (k: nat)
    requires m <= |t| == a.Length && a[..] == Blank(t, m, |t|)
    modifies a
    ensures k == RunStart(t, m, run)
    ensures a[..] == Blank(t, k, |t|)
  {
    RunStartSame(t, a[..], m, run);
    k := BlankRunBack(a, m, run);
    BlankJoin(t, k, m, |t|);
  }

  /** The line loop of `sanitizeBlockComment`. */
  method BlankLineLeads(a: array<Byte>)
    modifies a
    ensures a[..] == LeadsFrom(old(a[..]), 0)
  {
    var len := a.Length;
    var pos := 0;
    while pos < len
      invariant pos <= len
      invariant LeadsFrom(a[..], pos) == LeadsFrom(old(a[..]), 0)
      decreases len - pos
    {
      ghost var t := a[..];
      var lineEnd := LineEnd(a, pos);
      BlankLineLead(a, pos, lineEnd);
      var next := if lineEnd < len then lineEnd + 1 else len;
      LeadsFromStep(t, pos, next);
      pos := next;
    }
  }

  /** One unfolding of `LeadsFrom`. */
  lemma LeadsFromStep(t: Bytes, pos: nat, next: nat)
    requires pos < |t|
    requires next == if LineEndAt(t, pos) < |t| then LineEndAt(t, pos) + 1 else |t|
    ensures LeadsFrom(t, pos) == LeadsFrom(Blank(t, pos, LeadEnd(t, pos, LineEndAt(t, pos))), next)
  {
  }

  /** `segment.find('\n', pos)`, or the length when there is none. */
  method LineEnd(a: array<Byte>, pos: nat) returns (e: nat)
    requires pos <= a.Length
    ensures e == LineEndAt(a[..], pos)
  {
    var found := FindByte(a[..], NL, pos);
    e := if found.None? then a.Length else found.value;
  }

  /** One pass of the line loop: blank the lead of the line `[pos, lineEnd)`. */
  method BlankLineLead(a: array<Byte>, pos: nat, lineEnd: nat)
    requires pos <= lineEnd <= a.Length
    modifies a
    ensures a[..] == Blank(old(a[..]), pos, LeadEnd(old(a[..]), pos, lineEnd))
  {
    ghost var t := a[..];
    var idx := BlankRun(a, pos, lineEnd, {SPACE, TAB, CR});
    if idx < lineEnd && (a[idx] == STAR || a[idx] == DASH) {
      BlankBullet(a, t, pos, idx, lineEnd);
    }
  }

  /** The `*` or `-` at `idx` that ends a line's blanks, and one space after it. */
  method BlankBullet(a: array<Byte>, ghost t: Bytes, pos: nat, idx: nat, lineEnd: nat)
    requires pos <= idx < lineEnd <= |t| == a.Length
    requires a[..] == Blank(t, pos, idx)
    modifies a
    ensures a[..] == Blank(t, pos, if idx + 1 < lineEnd && t[idx + 1] == SPACE then idx + 2 else idx + 1)
  {
    SetSpaceAt(a, idx);
    BlankJoin(t, pos, idx, idx + 1);
    if idx + 1 < lineEnd && a[idx + 1] == SPACE {
      SetSpaceAt(a, idx + 1);
      BlankJoin(t, pos, idx + 1, idx + 2);
    }
  }

  /** The opening marker holds only marks and blanks. */
  lemma OpenBytes(s: Bytes)
    ensures forall k :: 0 <= k < OpenEnd(s) ==> s[k] in BlockMarks || s[k] == SPACE
  {
    forall k | 0 <= k < OpenEnd(s)
      ensures s[k] in BlockMarks || s[k] == SPACE
    {
      if |s| >= 4 && s[0] == LT && s[1] == BANG && s[2] == DASH && s[3] == DASH {
        assert k < 4 || k < RunEnd(s, 4, |s|, {DASH}) || s[k] in Blanks;
      } else {
        assert k < 2 || k < RunEnd(s, 2, |s|, {STAR}) || s[k] in Blanks;
      }
    }
  }

  /** The closing marker, with the run before it, holds only marks and blanks. */
  lemma CloseBytes(t: Bytes)
    ensures forall k :: CloseStart(t) <= k < |t| ==> t[k] in BlockMarks || t[k] == SPACE
  {
  }

  /** A line's lead holds only blanks, '\r' and one `*` or `-`. */
  lemma LeadBytes(t: Bytes, lo: nat, hi: nat)
    requires lo <= hi <= |t|
    ensures forall k :: lo <= k < LeadEnd(t, lo, hi) ==> t[k] in BlockMarks || t[k] == SPACE || IsNewline(t[k])
  {
    var i := RunEnd(t, lo, hi, {SPACE, TAB, CR});
    forall k | lo <= k < LeadEnd(t, lo, hi)
      ensures t[k] in BlockMarks || t[k] == SPACE || IsNewline(t[k])
    {
      assert k < i ==> t[k] in {SPACE, TAB, CR};
    }
  }

  lemma {:induction false} LeadsFromBlanksOnly(t: Bytes, pos: nat)
    ensures BlanksOnly(t, LeadsFrom(t, pos), BlockMarks)
    decreases |t| - pos
  {
    if pos < |t| {
      var e := LineEndAt(t, pos);
      var u := Blank(t, pos, LeadEnd(t, pos, e));
      LeadBytes(t, pos, e);
      BlankBlanksOnly(t, pos, LeadEnd(t, pos, e), BlockMarks);
      LeadsFromBlanksOnly(u, if e < |t| then e + 1 else |t|);
      BlanksOnlyTrans(t, u, LeadsFrom(t, pos), BlockMarks);
    }
  }

  lemma OpenPhase(s: Bytes)
    ensures BlanksOnly(s, Blank(s, 0, OpenEnd(s)), BlockMarks)
  {
    OpenBytes(s);
    BlankBlanksOnly(s, 0, OpenEnd(s), BlockMarks);
  }

  lemma ClosePhase(t: Bytes)
    ensures BlanksOnly(t, Blank(t, CloseStart(t), |t|), BlockMarks)
  {
    CloseBytes(t);
    BlankBlanksOnly(t, CloseStart(t), |t|, BlockMarks);
  }

  /** A block comment only loses marker bytes to spaces, and keeps its newlines and its length. */
  lemma BlockSanitizedShape(s: Bytes)
    ensures BlanksOnly(s, BlockSanitized(s), BlockMarks)
  {
    if |s| > 0 {
      var s1 := Blank(s, 0, OpenEnd(s));
      var s2 := Blank(s1, CloseStart(s1), |s1|);
      OpenPhase(s);
      ClosePhase(s1);
      LeadsFromBlanksOnly(s2, 0);
      BlanksOnlyTrans(s1, s2, BlockSanitized(s), BlockMarks);
      BlanksOnlyTrans(s, s1, BlockSanitized(s), BlockMarks);
    }
  }

  lemma HtmlBlockExample()
    ensures BlockSanitized(Ascii("<!-- hi -->")) == Ascii("     hi    ")
  {
    HtmlOpenPhase();
    HtmlClosePhase();
    HtmlLeadPhase();
  }

  lemma HtmlOpenPhase()
    ensures Blank(Ascii("<!-- hi -->"), 0, OpenEnd(Ascii("<!-- hi -->"))) == Ascii("     hi -->")
  {
    var h := Ascii("<!-- hi -->");
    assert RunEnd(h, 4, 11, {DASH}) == 4;
    assert RunEnd(h, 4, 11, Blanks) == 5;
  }

  lemma HtmlClosePhase()
    ensures Blank(Ascii("     hi -->"), CloseStart(Ascii("     hi -->")), 11) == Ascii("     hi    ")
  {
    var h1 := Ascii("     hi -->");
    assert RunStart(h1, 8, {DASH, SPACE, TAB}) == 7;
  }

  lemma HtmlLeadPhase()
    ensures LeadsFrom(Ascii("     hi    "), 0) == Ascii("     hi    ")
  {
    var h2 := Ascii("     hi    ");
    assert FindByte(h2, NL, 0) == None;
    assert RunEnd(h2, 0, 11, {SPACE, TAB, CR}) == 5;
    assert Blank(h2, 0, 5) == h2;
    assert LeadsFrom(h2, 0) == LeadsFrom(h2, 11);
  }

  lemma CBlockExample()
    ensures BlockSanitized(Ascii("/* a */")) == Ascii("   a   ")
  {
    COpenPhase();
    CClosePhase();
    CLeadPhase();
  }

  lemma COpenPhase()
    ensures Blank(Ascii("/* a */"), 0, OpenEnd(Ascii("/* a */"))) == Ascii("   a */")
  {
    var c := Ascii("/* a */");
    assert RunEnd(c, 2, 7, {STAR}) == 2;
    assert RunEnd(c, 2, 7, Blanks) == 3;
  }

  lemma CClosePhase()
    ensures Blank(Ascii("   a */"), CloseStart(Ascii("   a */")), 7) == Ascii("   a   ")
  {
    var c1 := Ascii("   a */");
    assert RunStart(c1, 5, {STAR, SPACE, TAB}) == 4;
  }

  lemma CLeadPhase()
    ensures LeadsFrom(Ascii("   a   "), 0) == Ascii("   a   ")
  {
    var c2 := Ascii("   a   ");
    assert FindByte(c2, NL, 0) == None;
    assert RunEnd(c2, 0, 7, {SPACE, TAB, CR}) == 3;
    assert Blank(c2, 0, 3) == c2;
    assert LeadsFrom(c2, 0) == LeadsFrom(c2, 7);
  }

  // ---------------------------------------------------------------------------
  // Choosing a sanitiser

  // Words looked for in the parser's node type names.
  const CommentWord: Bytes := [0x63, 0x6F, 0x6D, 0x6D, 0x65, 0x6E, 0x74]  // "comment"
  const BlockWord: Bytes := [0x62, 0x6C, 0x6F, 0x63, 0x6B]               // "block"
  const LineWord: Bytes := [0x6C, 0x69, 0x6E, 0x65]                      // "line"

  // The segment looks like a block comment: its node type says "block", or it opens with `/*` or `<!--`.
  predicate IsBlockLike(s: Bytes, nodeType: Bytes) {
    || Contains(nodeType, BlockWord)
    || (|s| >= 2 && s[0] == SLASH && s[1] == STAR)
    || (|s| >= 4 && s[0] == LT && s[1] == BANG && s[2] == DASH && s[3] == DASH)
  }

  /** The segment looks like a line comment: its node type says "line", or it opens with `#` or `//`. */
  predicate IsLineLike(s: Bytes, nodeType: Bytes) {
    || Contains(nodeType, LineWord)
    || (|s| > 0 && s[0] == HASH)
    || (|s| >= 2 && s[0] == SLASH && s[1] == SLASH)
  }

  /** `sanitizeComment`: the block sanitiser only for a block-like segment that is not line-like. */
  function CommentSanitized(s: Bytes, nodeType: Bytes): Bytes {
    if IsBlockLike(s, nodeType) && !IsLineLike(s, nodeType) then BlockSanitized(s) else LineSanitized(s)
  }

  method SanitizeComment(a: array<Byte>, nodeType: Bytes)
    modifies a
    ensures a[..] == CommentSanitized(old(a[..]), nodeType)
  {
    var len := a.Length;
    var isBlock :=
      || Contains(nodeType, BlockWord)
      || (len >= 2 && a[0] == SLASH && a[1] == STAR)
      || (len >= 4 && a[0] == LT && a[1] == BANG && a[2] == DASH && a[3] == DASH);
    var isLine :=
      || Contains(nodeType, LineWord)
      || (len > 0 && a[0] == HASH)
      || (len >= 2 && a[0] == SLASH && a[1] == SLASH);
    if isBlock && !isLine {
      SanitizeBlockComment(a);
    } else {
      SanitizeLineComment(a);
    }
  }

  /** Every mark either sanitiser may blank. */
  const CommentMarks: set<Byte> := LineMarks + BlockMarks

  lemma BlanksOnlyWiden(s: Bytes, t: Bytes, marks: set<Byte>, wider: set<Byte>)
    requires BlanksOnly(s, t, marks) && marks <= wider
    ensures BlanksOnly(s, t, wider)
  {
  }

  /** Whichever sanitiser runs, a comment keeps its length and its newlines and only marks turn into spaces. */
  lemma CommentSanitizedShape(s: Bytes, nodeType: Bytes)
    ensures BlanksOnly(s, CommentSanitized(s, nodeType), CommentMarks)
  {
    if IsBlockLike(s, nodeType) && !IsLineLike(s, nodeType) {
      BlockSanitizedShape(s);
      BlanksOnlyWiden(s, BlockSanitized(s), BlockMarks, CommentMarks);
    } else {
      LineSanitizedShape(s);
      BlanksOnlyWiden(s, LineSanitized(s), LineMarks, CommentMarks);
    }
  }

  /** A `#` comment goes to the line sanitiser even when it also looks like a block. */
  lemma HashIsLineComment(s: Bytes, nodeType: Bytes)
    requires |s| > 0 && s[0] == HASH
    ensures CommentSanitized(s, nodeType) == LineSanitized(s)
  {
  }

  // ---------------------------------------------------------------------------
  // Extraction

  /**
   * A node of the syntax tree the parser builds for the document: its type
   * name, its byte span and its children.  The parser is not part of this
   * model; its tree is an input.
   */
  datatype SyntaxNode = SyntaxNode(nodeType: Bytes, startByte: nat, endByte: nat, children: seq<SyntaxNode>)

  /** A comment found in a document: its byte span and its text with the markers blanked. */
  datatype CommentSegment = CommentSegment(startByte: nat, endByte: nat, sanitized: Bytes)

  predicate IsCommentNode(n: SyntaxNode) {
    Contains(n.nodeType, CommentWord)
  }

  /** The segments a comment node gives: one when its span is a non-empty span of the text, none otherwise. */
  function NodeSegments(text: Bytes, n: SyntaxNode): (r: seq<CommentSegment>)
    ensures |r| <= 1
  {
    if n.startByte < n.endByte <= |text| then
      [CommentSegment(n.startByte, n.endByte, CommentSanitized(text[n.startByte..n.endByte], n.nodeType))]
    else []
  }

  /** The nodes of a tree and of a forest, counted for the traversal's termination. */
  function Size(n: SyntaxNode): (r: nat)
    ensures r >= 1
    decreases n
  {
    1 + ForestSize(n.children)
  }

  function ForestSize(ns: seq<SyntaxNode>): nat
    decreases ns
  {
    if |ns| == 0 then 0 else ForestSize(ns[..|ns| - 1]) + Size(ns[|ns| - 1])
  }

  /**
   * The comments of a tree in the order a depth-first walk that takes
   * children from a stack meets them: a comment node's own segment, which
   * hides anything below it; otherwise the comments of its children, the
   * last child first.
   */
  function TreeComments(text: Bytes, n: SyntaxNode): seq<CommentSegment>
    decreases n
  {
    if IsCommentNode(n) then NodeSegments(text, n) else StackComments(text, n.children)
  }

  /** The comments of the trees on a stack, the top (last) tree first. */
  function StackComments(text: Bytes, ns: seq<SyntaxNode>): seq<CommentSegment>
    decreases ns
  {
    if |ns| == 0 then [] else TreeComments(text, ns[|ns| - 1]) + StackComments(text, ns[..|ns| - 1])
  }

  /** Pushing trees onto a stack puts their comments first, the last pushed first of all. */
  lemma {:induction false} StackAppend(text: Bytes, xs: seq<SyntaxNode>, cs: seq<SyntaxNode>)
    ensures StackComments(text, xs + cs) == StackComments(text, cs) + StackComments(text, xs)
    ensures ForestSize(xs + cs) == ForestSize(xs) + ForestSize(cs)
    decreases |cs|
  {
    if |cs| == 0 {
      assert xs + cs == xs;
    } else {
      var init := cs[..|cs| - 1];
      assert (xs + cs)[..|xs + cs| - 1] == xs + init;
      assert (xs + cs)[|xs + cs| - 1] == cs[|cs| - 1];
      StackAppend(text, xs, init);
    }
  }

  /** Popping the top tree of a stack. */
  lemma StackPop(text: Bytes, ns: seq<SyntaxNode>)
    requires |ns| > 0
    ensures StackComments(text, ns) == TreeComments(text, ns[|ns| - 1]) + StackComments(text, ns[..|ns| - 1])
    ensures ForestSize(ns) == ForestSize(ns[..|ns| - 1]) + Size(ns[|ns| - 1])
    ensures !IsCommentNode(ns[|ns| - 1]) ==> TreeComments(text, ns[|ns| - 1]) == StackComments(text, ns[|ns| - 1].children)
    ensures IsCommentNode(ns[|ns| - 1]) ==> TreeComments(text, ns[|ns| - 1]) == NodeSegments(text, ns[|ns| - 1])
  {
  }

  /** `extractComments` on a document whose parse tree is `root`. */
  function ExtractedComments(languageId: Bytes, text: Bytes, root: SyntaxNode): seq<CommentSegment> {
    if IsLanguageSupported(languageId) then TreeComments(text, root) else []
  }

  /** The walk of `extractComments`, with its explicit stack. */
  method ExtractComments(languageId: Bytes, text: Bytes, root: SyntaxNode) returns (segments: seq<CommentSegment>)
    ensures segments == ExtractedComments(languageId, text, root)
  {
    segments := [];
    if !IsLanguageSupported(languageId) {
      return;
    }
    var stack := [root];
    assert stack[..0] == [];
    while |stack| > 0
      invariant segments + StackComments(text, stack) == TreeComments(text, root)
      decreases ForestSize(stack)
    {
      var node := stack[|stack| - 1];
      StackPop(text, stack);
      stack := stack[..|stack| - 1];
      if Contains(node.nodeType, CommentWord) {
        var found := CommentNodeSegments(text, node);
        segments := segments + found;
      } else {
        StackAppend(text, stack, node.children);
        stack := stack + node.children;
      }
    }
  }

  /** A comment node met by the walk: its segment, when its span lies inside the text. */
  method CommentNodeSegments(text: Bytes, node: SyntaxNode) returns (found: seq<CommentSegment>)
    ensures found == NodeSegments(text, node)
  {
    found := [];
    if node.startByte < node.endByte <= |text| {
      var segment := SanitizedCopy(text, node.startByte, node.endByte, node.nodeType);
      found := [CommentSegment(node.startByte, node.endByte, segment)];
    }
  }

  /** `text.substr(start, end - start)` copied into a buffer and sanitised there. */
  method SanitizedCopy(text: Bytes, start: nat, end: nat, nodeType: Bytes) returns (r: Bytes)
    requires start < end <= |text|
    ensures r == CommentSanitized(text[start..end], nodeType)
  {
    var buf := new Byte[end - start](k requires 0 <= k < end - start => text[start + k]);
    assert buf[..] == text[start..end];
    SanitizeComment(buf, nodeType);
    r := buf[..];
  }

  /** A segment of `text`: a non-empty span inside it, holding that span with some marks blanked. */
  predicate SegmentOfText(text: Bytes, g: CommentSegment) {
    && g.startByte < g.endByte <= |text|
    && BlanksOnly(text[g.startByte..g.endByte], g.sanitized, CommentMarks)
  }

  lemma {:induction false} TreeCommentsShape(text: Bytes, n: SyntaxNode)
    ensures forall g :: g in TreeComments(text, n) ==> SegmentOfText(text, g)
    decreases n
  {
    if IsCommentNode(n) {
      if n.startByte < n.endByte <= |text| {
        CommentSanitizedShape(text[n.startByte..n.endByte], n.nodeType);
      }
    } else {
      StackCommentsShape(text, n.children);
    }
  }

  lemma {:induction false} StackCommentsShape(text: Bytes, ns: seq<SyntaxNode>)
    ensures forall g :: g in StackComments(text, ns) ==> SegmentOfText(text, g)
    decreases ns
  {
    if |ns| > 0 {
      TreeCommentsShape(text, ns[|ns| - 1]);
      StackCommentsShape(text, ns[..|ns| - 1]);
    }
  }

  /**
   * Every extracted segment is a non-empty span `[startByte, endByte)` of
   * the text whose sanitised text has the span's length, keeps its newlines
   * and differs only where a comment mark became a space; an unsupported
   * language gives no segments.
   */
  lemma ExtractedCommentsShape(languageId: Bytes, text: Bytes, root: SyntaxNode)
    ensures !IsLanguageSupported(languageId) ==> ExtractedComments(languageId, text, root) == []
    ensures forall g :: g in ExtractedComments(languageId, text, root) ==>
      && g.startByte < g.endByte <= |text|
      && |g.sanitized| == g.endByte - g.startByte
      && BlanksOnly(text[g.startByte..g.endByte], g.sanitized, CommentMarks)
  {
    TreeCommentsShape(text, root);
  }
}
