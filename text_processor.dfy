/**
 * `TextProcessor` of `text_processor.cpp`: the byte-dropping UTF-8
 * sanitiser and the sentence segmenter that cuts a document at newlines,
 * tabs and the full-width sentence enders 。？！.
 */
module TextProcessor {
  import opened ByteText
  import opened LspTypes
  import Utf16

  // ---------------------------------------------------------------------------
  // UTF-8 sanitiser

  /** ASCII bytes the sanitiser keeps: everything but the control bytes other than tab, LF and CR. */
  predicate KeepsAsciiByte(c: Byte) {
    c >= 0x20 || c == TAB || c == NL || c == CR
  }

  /**
   * The sequence length a lead byte announces: 110xxxxx two, 1110xxxx three,
   * 11110xxx four; 0 for a byte that cannot start a sequence.
   */
  function LeadLength(c: Byte): (n: nat)
    ensures n == 0 || 2 <= n <= 4
    ensures n > 0 ==> c >= 0xC0
  {
    if 0xC0 <= c <= 0xDF then 2
    else if 0xE0 <= c <= 0xEF then 3
    else if 0xF0 <= c <= 0xF7 then 4
    else 0
  }

  /** A continuation byte, 10xxxxxx. */
  predicate IsContinuation(b: Byte) { 0x80 <= b <= 0xBF }

  /** The `seqLen` bytes at `pos` fit in `s` and all but the first are continuation bytes. */
  predicate ContinuationsAt(s: Bytes, pos: nat, seqLen: nat) {
    pos + seqLen <= |s| && forall k :: pos + 1 <= k < pos + seqLen ==> IsContinuation(s[k])
  }

  /** `isValidUtf8Sequence`. */
  method IsValidUtf8Sequence(input: Bytes, pos: nat, seqLen: nat) returns (ok: bool)
    ensures ok <==> ContinuationsAt(input, pos, seqLen)
  {
    if pos + seqLen > |input| {
      return false;
    }
    var j := 1;
    while j < seqLen
      invariant 1 <= j
      invariant forall k :: pos + 1 <= k < pos + j && k < pos + seqLen ==> IsContinuation(input[k])
    {
      if !IsContinuation(input[pos + j]) {
        return false;
      }
      j := j + 1;
    }
    return true;
  }

  /** What the sanitiser emits for the bytes from `i` on. */
  function SanitizeFrom(input: Bytes, i: nat): Bytes
    decreases |input| - i
  {
    if i >= |input| then []
    else
      var c := input[i];
      if c < 0x80 then
        (if KeepsAsciiByte(c) then [c] else []) + SanitizeFrom(input, i + 1)
      else
        var n := LeadLength(c);
        if n == 0 then SanitizeFrom(input, i + 1)
        else if i + n > |input| then []
        else if ContinuationsAt(input, i, n) then input[i..i + n] + SanitizeFrom(input, i + n)
        else SanitizeFrom(input, i + 1)
  }

  function Sanitized(input: Bytes): Bytes {
    SanitizeFrom(input, 0)
  }

  /** `sanitizeUTF8`: one forward scan appending the bytes it keeps. */
  method SanitizeUtf8(input: Bytes) returns (result: Bytes)
    ensures result == Sanitized(input)
  {
    if |input| == 0 {
      return input;
    }
    result := [];
    var i := 0;
    while i < |input|
      invariant i <= |input|
      invariant result + SanitizeFrom(input, i) == Sanitized(input)
      decreases |input| - i
    {
      var c := input[i];
      if c < 0x80 {
        if KeepsAsciiByte(c) {
          result := result + [c];
        }
        i := i + 1;
      } else {
        var seqLen := LeadLength(c);
        if seqLen == 0 {
          i := i + 1;
        } else if i + seqLen > |input| {
          break;
        } else {
          var ok := IsValidUtf8Sequence(input, i, seqLen);
          if ok {
            result := result + input[i..i + seqLen];
            i := i + seqLen;
          } else {
            i := i + 1;
          }
        }
      }
    }
  }

  /** `a` is obtained from `b` by deleting bytes. */
  predicate IsSubsequence(a: Bytes, b: Bytes)
    decreases |b|
  {
    if |a| == 0 then true
    else if |b| == 0 then false
    else (a[0] == b[0] && IsSubsequence(a[1..], b[1..])) || IsSubsequence(a, b[1..])
  }

  lemma SubsequenceSkip(a: Bytes, b: Bytes, x: Byte)
    requires IsSubsequence(a, b)
    ensures IsSubsequence(a, [x] + b)
  {
    assert ([x] + b)[1..] == b;
  }

  lemma {:induction false} SubsequencePrefix(p: Bytes, a: Bytes, b: Bytes)
    requires IsSubsequence(a, b)
    ensures IsSubsequence(p + a, p + b)
    decreases |p|
  {
    if |p| > 0 {
      SubsequencePrefix(p[1..], a, b);
      assert (p + a)[0] == (p + b)[0];
      assert (p + a)[1..] == p[1..] + a;
      assert (p + b)[1..] == p[1..] + b;
    } else {
      assert p + a == a && p + b == b;
    }
  }

  lemma {:induction false} SubsequenceLength(a: Bytes, b: Bytes)
    requires IsSubsequence(a, b)
    ensures |a| <= |b|
    decreases |b|
  {
    if |a| > 0 {
      if a[0] == b[0] && IsSubsequence(a[1..], b[1..]) {
        SubsequenceLength(a[1..], b[1..]);
      } else {
        SubsequenceLength(a, b[1..]);
      }
    }
  }

  lemma {:induction false} SanitizeFromIsSubsequence(input: Bytes, i: nat)
    requires i <= |input|
    ensures IsSubsequence(SanitizeFrom(input, i), input[i..])
    decreases |input| - i
  {
    if i < |input| {
      var c := input[i];
      assert input[i..] == [c] + input[i + 1..];
      var n := LeadLength(c);
      if c < 0x80 {
        SanitizeFromIsSubsequence(input, i + 1);
        if KeepsAsciiByte(c) {
          SubsequencePrefix([c], SanitizeFrom(input, i + 1), input[i + 1..]);
        } else {
          assert SanitizeFrom(input, i) == SanitizeFrom(input, i + 1);
          SubsequenceSkip(SanitizeFrom(input, i + 1), input[i + 1..], c);
        }
      } else if n == 0 || (i + n <= |input| && !ContinuationsAt(input, i, n)) {
        SanitizeFromIsSubsequence(input, i + 1);
        SubsequenceSkip(SanitizeFrom(input, i + 1), input[i + 1..], c);
      } else if i + n <= |input| {
        SanitizeFromIsSubsequence(input, i + n);
        assert input[i..] == input[i..i + n] + input[i + n..];
        SubsequencePrefix(input[i..i + n], SanitizeFrom(input, i + n), input[i + n..]);
      }
    }
  }

  /** The sanitiser only deletes bytes, so its output is never longer than its input. */
  lemma SanitizedIsSubsequence(input: Bytes)
    ensures IsSubsequence(Sanitized(input), input)
    ensures |Sanitized(input)| <= |input|
  {
    SanitizeFromIsSubsequence(input, 0);
    assert input[0..] == input;
    SubsequenceLength(Sanitized(input), input);
  }

  /** The ASCII filter: drop the control bytes, keep every other byte. */
  function KeepAscii(s: Bytes): Bytes
    decreases |s|
  {
    if |s| == 0 then []
    else (if KeepsAsciiByte(s[0]) then [s[0]] else []) + KeepAscii(s[1..])
  }

  lemma {:induction false} SanitizeFromAscii(s: Bytes, i: nat)
    requires i <= |s| && AllAscii(s)
    ensures SanitizeFrom(s, i) == KeepAscii(s[i..])
    decreases |s| - i
  {
    if i < |s| {
      assert s[i..][1..] == s[i + 1..];
      SanitizeFromAscii(s, i + 1);
    }
  }

  /** On ASCII input the sanitiser is exactly the control-byte filter. */
  lemma SanitizeAscii(s: Bytes)
    requires AllAscii(s)
    ensures Sanitized(s) == KeepAscii(s)
  {
    SanitizeFromAscii(s, 0);
    assert s[0..] == s;
  }

  /**
   * Sanitised text: kept ASCII bytes, and multi-byte leads each followed by
   * the continuation bytes it announces.
   */
  predicate Clean(s: Bytes)
    decreases |s|
  {
    || |s| == 0
    || (s[0] < 0x80 && KeepsAsciiByte(s[0]) && Clean(s[1..]))
    || (LeadLength(s[0]) > 0 && ContinuationsAt(s, 0, LeadLength(s[0]))
        && Clean(s[LeadLength(s[0])..]))
  }

  lemma {:induction false} SanitizeFromIsClean(input: Bytes, i: nat)
    ensures Clean(SanitizeFrom(input, i))
    decreases |input| - i
  {
    if i < |input| {
      var c := input[i];
      var n := LeadLength(c);
      if c < 0x80 {
        SanitizeFromIsClean(input, i + 1);
        if KeepsAsciiByte(c) {
          CleanAsciiCons(c, SanitizeFrom(input, i + 1));
        } else {
          assert SanitizeFrom(input, i) == SanitizeFrom(input, i + 1);
        }
      } else if n == 0 || i + n > |input| || !ContinuationsAt(input, i, n) {
        SanitizeFromIsClean(input, i + 1);
      } else {
        SanitizeFromIsClean(input, i + n);
        CleanSequenceCons(input, i, n, SanitizeFrom(input, i + n));
      }
    }
  }

  /** One step of the sanitiser over a complete multi-byte sequence. */
  lemma SanitizeFromSequence(input: Bytes, i: nat)
    requires i < |input| && input[i] >= 0x80 && LeadLength(input[i]) > 0
    requires ContinuationsAt(input, i, LeadLength(input[i]))
    ensures SanitizeFrom(input, i) == input[i..i + LeadLength(input[i])] + SanitizeFrom(input, i + LeadLength(input[i]))
  {
  }

  /** A kept ASCII byte in front of clean text. */
  lemma CleanAsciiCons(c: Byte, r: Bytes)
    requires c < 0x80 && KeepsAsciiByte(c) && Clean(r)
    ensures Clean([c] + r)
  {
    assert ([c] + r)[1..] == r;
  }

  /** A complete multi-byte sequence of `input` in front of clean text. */
  lemma CleanSequenceCons(input: Bytes, i: nat, n: nat, r: Bytes)
    requires i < |input| && n == LeadLength(input[i]) && n > 0 && ContinuationsAt(input, i, n)
    requires Clean(r)
    ensures Clean(input[i..i + n] + r)
  {
    var t := input[i..i + n] + r;
    assert t[0] == input[i];
    forall k | 1 <= k < n
      ensures IsContinuation(t[k])
    {
      assert t[k] == input[i + k];
    }
    assert t[n..] == r;
  }

  /** Clean text that starts with an ASCII byte: the byte is kept and the rest is clean. */
  lemma CleanAsciiTail(s: Bytes, i: nat)
    requires i < |s| && s[i] < 0x80 && Clean(s[i..])
    ensures KeepsAsciiByte(s[i]) && Clean(s[i + 1..])
  {
    assert s[i..][1..] == s[i + 1..];
  }

  /** Clean text that starts with a non-ASCII byte: a complete sequence, then clean text. */
  lemma CleanSequenceTail(s: Bytes, i: nat)
    requires i < |s| && s[i] >= 0x80 && Clean(s[i..])
    ensures LeadLength(s[i]) > 0 && ContinuationsAt(s, i, LeadLength(s[i]))
    ensures Clean(s[i + LeadLength(s[i])..])
  {
    var t := s[i..];
    var n := LeadLength(s[i]);
    forall k | i + 1 <= k < i + n
      ensures IsContinuation(s[k])
    {
      assert s[k] == t[k - i];
    }
    assert t[n..] == s[i + n..];
  }

  lemma {:induction false} CleanIsFixedFrom(s: Bytes, i: nat)
    requires i <= |s| && Clean(s[i..])
    ensures SanitizeFrom(s, i) == s[i..]
    decreases |s| - i, 1
  {
    if i < |s| {
      if s[i] < 0x80 {
        CleanAsciiIsFixed(s, i);
      } else {
        CleanSequenceIsFixed(s, i);
      }
    }
  }

  lemma {:induction false} CleanAsciiIsFixed(s: Bytes, i: nat)
    requires i < |s| && s[i] < 0x80 && Clean(s[i..])
    ensures SanitizeFrom(s, i) == s[i..]
    decreases |s| - i, 0
  {
    CleanAsciiTail(s, i);
    CleanIsFixedFrom(s, i + 1);
    assert s[i..] == [s[i]] + s[i + 1..];
  }

  lemma {:induction false} CleanSequenceIsFixed(s: Bytes, i: nat)
    requires i < |s| && s[i] >= 0x80 && Clean(s[i..])
    ensures SanitizeFrom(s, i) == s[i..]
    decreases |s| - i, 0
  {
    var n := LeadLength(s[i]);
    CleanSequenceTail(s, i);
    CleanIsFixedFrom(s, i + n);
    SanitizeFromSequence(s, i);
    RejoinSlices(s, i, n, SanitizeFrom(s, i), SanitizeFrom(s, i + n));
  }

  lemma RejoinSlices(s: Bytes, i: nat, n: nat, whole: Bytes, rest: Bytes)
    requires i + n <= |s| && whole == s[i..i + n] + rest && rest == s[i + n..]
    ensures whole == s[i..]
  {
    assert s[i..] == s[i..i + n] + s[i + n..];
  }

  /** Sanitised text is a fixed point: sanitising twice is sanitising once. */
  lemma SanitizeIdempotent(input: Bytes)
    ensures Clean(Sanitized(input))
    ensures Sanitized(Sanitized(input)) == Sanitized(input)
  {
    var s := Sanitized(input);
    SanitizeFromIsClean(input, 0);
    assert s[0..] == s;
    CleanIsFixedFrom(s, 0);
  }

  lemma {:induction false} WellFormedIsClean(s: Bytes, i: nat)
    requires Utf16.WellFormedFrom(s, i)
    requires forall k :: 0 <= k < |s| && s[k] < 0x80 ==> KeepsAsciiByte(s[k])
    ensures i <= |s| && Clean(s[i..])
    decreases |s| - i
  {
    if i < |s| {
      var n := Utf16.WellFormedSeqLen(s, i);
      WellFormedIsClean(s, i + n);
      WellFormedStepIsClean(s, i);
    }
  }

  /** One well-formed character in front of clean text. */
  lemma WellFormedStepIsClean(s: Bytes, i: nat)
    requires i < |s| && Utf16.WellFormedSeqLen(s, i) > 0
    requires s[i] < 0x80 ==> KeepsAsciiByte(s[i])
    requires Clean(s[i + Utf16.WellFormedSeqLen(s, i)..])
    ensures Clean(s[i..])
  {
    var n := Utf16.WellFormedSeqLen(s, i);
    if n == 1 {
      CleanAsciiCons(s[i], s[i + 1..]);
      assert s[i..] == [s[i]] + s[i + 1..];
    } else {
      assert LeadLength(s[i]) == n;
      CleanSequenceCons(s, i, n, s[i + n..]);
      assert s[i..] == s[i..i + n] + s[i + n..];
    }
  }

  /** Well-formed UTF-8 without stray control bytes passes through the sanitiser unchanged. */
  lemma SanitizeKeepsWellFormed(s: Bytes)
    requires Utf16.WellFormedUtf8(s)
    requires forall k :: 0 <= k < |s| && s[k] < 0x80 ==> KeepsAsciiByte(s[k])
    ensures Sanitized(s) == s
  {
    WellFormedIsClean(s, 0);
    assert s[0..] == s;
    CleanIsFixedFrom(s, 0);
  }

  /**
   * A stray continuation byte is skipped, while a sequence cut off by the end
   * of the input ends the scan.
   */
  lemma SanitizeExamples()
    ensures Sanitized([0x41, 0x80, 0x42]) == [0x41, 0x42]
    ensures Sanitized([0x41, 0xE3, 0x81]) == [0x41]
    ensures Sanitized([0xE3, 0x41, 0x01, 0x42]) == [0x41, 0x42]
  {
    assert Sanitized([0x41, 0xE3, 0x81]) == [0x41] + SanitizeFrom([0x41, 0xE3, 0x81], 1);
  }

  // ---------------------------------------------------------------------------
  // Sentence segmenter

  /** `isJapanesePunctuation`: 。, ？ or ！ (three UTF-8 bytes) starts at `pos`. */
  predicate IsJapanesePunctuation(text: Bytes, pos: nat) {
    && pos + 2 < |text|
    && ((text[pos] == 0xE3 && text[pos + 1] == 0x80 && text[pos + 2] == 0x82)
        || (text[pos] == 0xEF && text[pos + 1] == 0xBC && text[pos + 2] == 0x9F)
        || (text[pos] == 0xEF && text[pos + 1] == 0xBC && text[pos + 2] == 0x81))
  }

  /** The blanks `skipWhitespace` and the front trim pass over. */
  predicate IsBlank(b: Byte) { b == SPACE || b == TAB || b == CR }

  /** The end of a run of at most `budget` blanks from `pos`. */
  function BlankRunEnd(text: Bytes, pos: nat, budget: nat): (r: nat)
    ensures pos <= r <= pos + budget
    ensures pos <= |text| ==> r <= |text|
    ensures forall k :: pos <= k < r ==> k < |text| && IsBlank(text[k])
    ensures r == pos + budget || r >= |text| || !IsBlank(text[r])
    decreases budget
  {
    if budget > 0 && pos < |text| && IsBlank(text[pos]) then BlankRunEnd(text, pos + 1, budget - 1)
    else pos
  }

  /** `skipWhitespace`: skip at most 100 spaces, tabs and carriage returns. */
  method SkipWhitespace(text: Bytes, pos: nat) returns (r: nat)
    ensures r == BlankRunEnd(text, pos, 100)
  {
    r := pos;
    var skipCount := 0;
    while r < |text| && skipCount < 100 && IsBlank(text[r])
      invariant 0 <= skipCount <= 100 && r == pos + skipCount
      invariant BlankRunEnd(text, r, 100 - skipCount) == BlankRunEnd(text, pos, 100)
      decreases 100 - skipCount
    {
      r := r + 1;
      skipCount := skipCount + 1;
    }
  }

  /** The segmenter's search window is this many bytes. */
  const SearchLimit := 10000

  /** A sentence boundary starts at byte `k`. */
  predicate BreakAt(text: Bytes, k: nat) {
    k < |text| && (text[k] == NL || text[k] == TAB || IsJapanesePunctuation(text, k))
  }

  /** Bytes a boundary occupies: 1 for a newline or tab, 3 for 。？！. */
  function BreakWidth(text: Bytes, k: nat): nat
    requires k < |text|
  {
    if text[k] == NL || text[k] == TAB then 1 else 3
  }

  /** The first boundary in `[from, bound)`. */
  function FirstBreak(text: Bytes, from: nat, bound: nat): (r: Option<nat>)
    ensures r.Some? ==> from <= r.value < bound && BreakAt(text, r.value)
    ensures r.Some? ==> forall k :: from <= k < r.value ==> !BreakAt(text, k)
    ensures r.None? ==> forall k :: from <= k < bound ==> !BreakAt(text, k)
    decreases bound - from
  {
    if from >= bound then None
    else if BreakAt(text, from) then Some(from)
    else FirstBreak(text, from + 1, bound)
  }

  /**
   * Where the sentence starting at `start` ends: just after the first
   * boundary inside the 10,000-byte window, or at the window's end.  An end
   * at or past the window's end that is still short of the text's end is
   * moved to the text's end, even when a boundary was found.
   */
  function SentenceEnd(text: Bytes, start: nat): (e: nat)
    requires start < |text|
    ensures start < e <= |text|
  {
    var maxSearch := if |text| < start + SearchLimit then |text| else start + SearchLimit;
    var e := match FirstBreak(text, start, maxSearch)
      case None => maxSearch
      case Some(k) => k + BreakWidth(text, k);
    if e >= maxSearch && e < |text| then |text| else e
  }

  /** With no boundary inside the window, the sentence runs to the end of the text. */
  lemma SentenceEndWithoutBreak(text: Bytes, start: nat)
    requires start < |text|
    requires forall k :: start <= k < start + SearchLimit ==> !BreakAt(text, k)
    ensures SentenceEnd(text, start) == |text|
  {
  }

  /** A boundary well inside the window ends the sentence just after it. */
  lemma SentenceEndAtBreak(text: Bytes, start: nat, k: nat)
    requires start <= k && BreakAt(text, k) && k + BreakWidth(text, k) < start + SearchLimit
    requires forall j :: start <= j < k ==> !BreakAt(text, j)
    ensures SentenceEnd(text, start) == k + BreakWidth(text, k)
  {
    var maxSearch := if |text| < start + SearchLimit then |text| else start + SearchLimit;
    assert FirstBreak(text, start, maxSearch) == Some(k);
  }

  /** The blank bytes the back trim removes: the front ones and newlines. */
  predicate IsTrailingBlank(b: Byte) { IsBlank(b) || b == NL }

  /** Index of the first byte at or after `a` that is not a blank. */
  function TrimStart(t: Bytes, a: nat): (r: nat)
    requires a <= |t|
    ensures a <= r <= |t|
    ensures forall k :: a <= k < r ==> IsBlank(t[k])
    ensures r == |t| || !IsBlank(t[r])
    decreases |t| - a
  {
    if a < |t| && IsBlank(t[a]) then TrimStart(t, a + 1) else a
  }

  /** The end after dropping trailing blanks and newlines from `t[lo..b]`. */
  function TrimEnd(t: Bytes, lo: nat, b: nat): (r: nat)
    requires lo <= b <= |t|
    ensures lo <= r <= b
    ensures forall k :: r <= k < b ==> IsTrailingBlank(t[k])
    ensures r == lo || !IsTrailingBlank(t[r - 1])
    decreases b
  {
    if b > lo && IsTrailingBlank(t[b - 1]) then TrimEnd(t, lo, b - 1) else b
  }

  /** A span with leading space/tab/CR and trailing space/tab/CR/LF removed. */
  function Trimmed(t: Bytes): (r: Bytes)
    ensures |r| <= |t|
    ensures |r| > 0 ==> !IsBlank(r[0]) && !IsTrailingBlank(r[|r| - 1])
  {
    var a := TrimStart(t, 0);
    t[a..TrimEnd(t, a, |t|)]
  }

  /**
   * One emitted sentence: a span of the text that ends where the segmenter
   * cuts, carrying the span's trimmed bytes, which are never empty.
   */
  predicate WellCut(text: Bytes, s: SentenceBoundary) {
    && s.start < s.end <= |text|
    && s.end == SentenceEnd(text, s.start)
    && s.text == Trimmed(text[s.start..s.end])
    && |s.text| > 0
  }

  /**
   * The sentences from byte `start` on, numbered from `id`: one round per
   * span, each round taking the next id even when its span trims to nothing.
   */
  function SentencesFrom(text: Bytes, start: nat, id: int): seq<SentenceBoundary>
    decreases |text| - start
  {
    if start >= |text| then []
    else
      var end := SentenceEnd(text, start);
      var text' := Trimmed(text[start..end]);
      var here := if |text'| > 0 then [SentenceBoundary(start, end, id, text')] else [];
      here + SentencesFrom(text, BlankRunEnd(text, end, 100), id + 1)
  }

  /** `splitIntoSentences` of a whole text. */
  function Sentences(text: Bytes): seq<SentenceBoundary> {
    SentencesFrom(text, 0, 0)
  }

  /** The boundary search of `splitIntoSentences` for the sentence starting at `start`. */
  method FindSentenceEnd(text: Bytes, start: nat) returns (end: nat)
    requires start < |text|
    ensures end == SentenceEnd(text, start)
  {
    end := start;
    var maxSearch := if |text| < start + SearchLimit then |text| else start + SearchLimit;
    while end < maxSearch
      invariant start <= end <= maxSearch
      invariant FirstBreak(text, end, maxSearch) == FirstBreak(text, start, maxSearch)
      decreases maxSearch - end
    {
      if text[end] == NL || text[end] == TAB {
        end := end + 1;
        break;
      }
      if IsJapanesePunctuation(text, end) {
        end := end + 3;
        break;
      }
      end := end + 1;
    }
    if end >= maxSearch && end < |text| {
      end := |text|;
    }
  }

  /** The trim loops of `splitIntoSentences`: the bounds of a span's trimmed bytes. */
  method TrimBounds(span: Bytes) returns (textStart: nat, textEnd: nat)
    ensures textStart == TrimStart(span, 0)
    ensures textEnd == TrimEnd(span, textStart, |span|)
  {
    textStart := 0;
    while textStart < |span| && IsBlank(span[textStart])
      invariant textStart <= |span|
      invariant TrimStart(span, textStart) == TrimStart(span, 0)
      decreases |span| - textStart
    {
      textStart := textStart + 1;
    }
    textEnd := |span|;
    while textEnd > textStart && IsTrailingBlank(span[textEnd - 1])
      invariant textStart <= textEnd <= |span|
      invariant TrimEnd(span, textStart, textEnd) == TrimEnd(span, textStart, |span|)
      decreases textEnd
    {
      textEnd := textEnd - 1;
    }
  }

  lemma AppendAssociative<T>(a: seq<T>, b: seq<T>, c: seq<T>)
    ensures (a + b) + c == a + (b + c)
  {
  }

  /** `splitIntoSentences`: a forward scan from `start`, cutting one sentence per round. */
  method SplitIntoSentences(text: Bytes) returns (sentences: seq<SentenceBoundary>)
    ensures sentences == Sentences(text)
  {
    sentences := [];
    if |text| == 0 {
      return;
    }
    var start := 0;
    var sentenceId := 0;
    while start < |text|
      invariant sentences + SentencesFrom(text, start, sentenceId) == Sentences(text)
      decreases |text| - start
    {
      var end, found, nextId := CutSentence(text, start, sentenceId);
      SentencesFromUnfold(text, start, sentenceId);
      AppendAssociative(sentences, found, SentencesFrom(text, BlankRunEnd(text, end, 100), nextId));
      sentences := sentences + found;
      sentenceId := nextId;
      start := end;
      start := SkipWhitespace(text, start);
      if start >= |text| {
        break;
      }
    }
  }

  /**
   * One round of `splitIntoSentences`: the end of the span starting at
   * `start`, the sentence it yields if its trimmed bytes are not empty, and
   * the next id, taken whether or not the span yields a sentence.
   */
  method CutSentence(text: Bytes, start: nat, sentenceId: int)
    returns (end: nat, found: seq<SentenceBoundary>, nextId: int)
    requires start < |text|
    ensures end == SentenceEnd(text, start) && nextId == sentenceId + 1
    ensures found == if |Trimmed(text[start..end])| > 0
      then [SentenceBoundary(start, end, sentenceId, Trimmed(text[start..end]))] else []
  {
    end := FindSentenceEnd(text, start);
    found := [];
    nextId := sentenceId;
    if end > start {
      var span := text[start..end];
      var id := nextId;
      nextId := nextId + 1;
      var textStart, textEnd := TrimBounds(span);
      if textEnd > textStart {
        found := [SentenceBoundary(start, end, id, span[textStart..textEnd])];
      }
    }
  }

  /** The sentences of one round of the segmenter, followed by those of the rounds after it. */
  lemma SentencesFromUnfold(text: Bytes, start: nat, id: int)
    requires start < |text|
    ensures var end := SentenceEnd(text, start);
      var t := Trimmed(text[start..end]);
      SentencesFrom(text, start, id)
        == (if |t| > 0 then [SentenceBoundary(start, end, id, t)] else [])
           + SentencesFrom(text, BlankRunEnd(text, end, 100), id + 1)
  {
  }

  /** Every sentence of `r` is well cut, starts at or after `start` and has an id of at least `id`. */
  predicate AllWellCutFrom(text: Bytes, r: seq<SentenceBoundary>, start: nat, id: int) {
    forall k :: 0 <= k < |r| ==> WellCut(text, r[k]) && start <= r[k].start && id <= r[k].sentenceId
  }

  /** Sentences that do not overlap, in text order, with increasing ids. */
  predicate InOrder(r: seq<SentenceBoundary>) {
    forall j, k :: 0 <= j < k < |r| ==> r[j].end <= r[k].start && r[j].sentenceId < r[k].sentenceId
  }

  lemma AllWellCutConcat(text: Bytes, a: seq<SentenceBoundary>, b: seq<SentenceBoundary>, start: nat, id: int)
    requires AllWellCutFrom(text, a, start, id) && AllWellCutFrom(text, b, start, id)
    ensures AllWellCutFrom(text, a + b, start, id)
  {
    forall k | 0 <= k < |a + b|
      ensures WellCut(text, (a + b)[k]) && start <= (a + b)[k].start && id <= (a + b)[k].sentenceId
    {
      if k < |a| {
        assert (a + b)[k] == a[k];
      } else {
        assert (a + b)[k] == b[k - |a|];
      }
    }
  }

  lemma AllWellCutWeaken(text: Bytes, r: seq<SentenceBoundary>, start: nat, id: int, start': nat, id': int)
    requires start' <= start && id' <= id && AllWellCutFrom(text, r, start, id)
    ensures AllWellCutFrom(text, r, start', id')
  {
  }

  /** A sentence that ends before every later one starts, with a smaller id, stays in order in front. */
  lemma InOrderCons(s: SentenceBoundary, rest: seq<SentenceBoundary>)
    requires InOrder(rest)
    requires forall k :: 0 <= k < |rest| ==> s.end <= rest[k].start && s.sentenceId < rest[k].sentenceId
    ensures InOrder([s] + rest)
  {
    var r := [s] + rest;
    forall j, k | 0 <= j < k < |r|
      ensures r[j].end <= r[k].start && r[j].sentenceId < r[k].sentenceId
    {
      assert r[k] == rest[k - 1];
      if j > 0 {
        assert r[j] == rest[j - 1];
      }
    }
  }

  lemma {:induction false} SentencesFromWellCut(text: Bytes, start: nat, id: int)
    ensures AllWellCutFrom(text, SentencesFrom(text, start, id), start, id)
    decreases |text| - start
  {
    if start < |text| {
      var end := SentenceEnd(text, start);
      var next := BlankRunEnd(text, end, 100);
      var t := Trimmed(text[start..end]);
      var here := if |t| > 0 then [SentenceBoundary(start, end, id, t)] else [];
      var rest := SentencesFrom(text, next, id + 1);
      SentencesFromUnfold(text, start, id);
      SentencesFromWellCut(text, next, id + 1);
      AllWellCutWeaken(text, rest, next, id + 1, start, id);
      AllWellCutConcat(text, here, rest, start, id);
    }
  }

  lemma {:induction false} SentencesFromOrdered(text: Bytes, start: nat, id: int)
    ensures InOrder(SentencesFrom(text, start, id))
    decreases |text| - start
  {
    if start < |text| {
      var end := SentenceEnd(text, start);
      var next := BlankRunEnd(text, end, 100);
      var t := Trimmed(text[start..end]);
      var rest := SentencesFrom(text, next, id + 1);
      SentencesFromUnfold(text, start, id);
      SentencesFromWellCut(text, next, id + 1);
      SentencesFromOrdered(text, next, id + 1);
      if |t| > 0 {
        InOrderCons(SentenceBoundary(start, end, id, t), rest);
      } else {
        assert [] + rest == rest;
      }
    }
  }

  /**
   * The segmenter's promises over a whole text: every sentence is a non-empty
   * trimmed span inside the text, sentences do not overlap and come in text
   * order, and ids strictly increase (skipping the ids of spans that trimmed
   * to nothing).
   */
  lemma SentencesOrdered(text: Bytes)
    ensures var r := Sentences(text);
      && (forall k :: 0 <= k < |r| ==> WellCut(text, r[k]))
      && (forall j, k :: 0 <= j < k < |r| ==> r[j].end <= r[k].start && r[j].sentenceId < r[k].sentenceId)
  {
    SentencesFromWellCut(text, 0, 0);
    SentencesFromOrdered(text, 0, 0);
  }
}
