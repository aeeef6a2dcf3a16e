/**
 * The position codec of `utf16.cpp`: byte offsets in UTF-8 text against the
 * protocol's (line, UTF-16 column) positions.
 *
 * The C++ decoder reads continuation bytes without checking the string's
 * length; the model reads every byte past the end as 0 (`At`).  Its lead-byte
 * rule is coarser than UTF-8's: any lead byte that is not ASCII, 110xxxxx or
 * 1110xxxx (so also the continuation bytes 0x80-0xBF and 0xF8-0xFF) is taken
 * as the start of a four-byte sequence.
 */
module Utf16 {
  import opened ByteText
  import opened LspTypes

  /** Byte `k` of `s`, reading 0 past either end. */
  function At(s: Bytes, k: int): Byte {
    if 0 <= k < |s| then s[k] else 0
  }

  datatype Decoded = Decoded(cp: nat, len: nat)

  /** The code point starting at byte `i` and the number of bytes it occupies. */
  function DecodeCodePoint(s: Bytes, i: nat): (d: Decoded)
    ensures 1 <= d.len <= 4
    ensures d.len == 1 <==> At(s, i) < 0x80
    ensures d.cp < 0x200000
    ensures d.len < 4 ==> d.cp <= 0xFFFF
    ensures d.len == 1 ==> d.cp == At(s, i)
  {
    var c := At(s, i);
    if c < 0x80 then Decoded(c, 1)
    else if c / 32 == 6 then Decoded((c % 32) * 64 + At(s, i + 1) % 64, 2)
    else if c / 16 == 0xE then
      Decoded((c % 16) * 4096 + (At(s, i + 1) % 64) * 64 + At(s, i + 2) % 64, 3)
    else
      Decoded((c % 8) * 262144 + (At(s, i + 1) % 64) * 4096 + (At(s, i + 2) % 64) * 64
              + At(s, i + 3) % 64, 4)
  }

  /** UTF-16 code units of a code point: 1 inside the BMP, 2 for a surrogate pair. */
  function Utf16Units(cp: nat): (u: nat)
    ensures u == 1 || u == 2
  {
    if cp <= 0xFFFF then 1 else 2
  }

  datatype Step = Step(len: nat, units: nat)

  /**
   * One step of the scanning loops at byte `i`: an ASCII byte is one byte and
   * one unit; anything else is decoded.  Every step advances, so the guard the
   * loops carry against a decode that does not advance never fires.
   */
  function ScanStep(s: Bytes, i: nat): (st: Step)
    requires i < |s|
    ensures 1 <= st.len <= 4 && 1 <= st.units <= 2
    ensures st.units == 2 ==> st.len == 4
    ensures s[i] < 0x80 <==> st.len == 1
  {
    if s[i] < 0x80 then Step(1, 1)
    else
      var d := DecodeCodePoint(s, i);
      Step(d.len, Utf16Units(d.cp))
  }

  // ---------------------------------------------------------------------------
  // Line table

  /** Number of newline bytes in `t`. */
  function NewlineCount(t: Bytes): nat
    decreases |t|
  {
    if |t| == 0 then 0
    else NewlineCount(t[..|t| - 1]) + (if t[|t| - 1] == NL then 1 else 0)
  }

  /** A table of line starts: begins at 0 and strictly increases. */
  predicate ValidLineTable(ls: seq<nat>) {
    && |ls| > 0
    && ls[0] == 0
    && forall j, k :: 0 <= j < k < |ls| ==> ls[j] < ls[k]
  }

  /**
   * The start offsets of the lines of `t`: offset 0, then one past every
   * newline.
   */
  function LineStarts(t: Bytes): (r: seq<nat>)
    ensures ValidLineTable(r)
    ensures |r| == NewlineCount(t) + 1
    ensures forall k :: 0 <= k < |r| ==> r[k] <= |t|
    ensures forall p :: 0 < p <= |t| ==> (p in r <==> t[p - 1] == NL)
    decreases |t|
  {
    if |t| == 0 then [0]
    else
      var prev := LineStarts(t[..|t| - 1]);
      if t[|t| - 1] == NL then prev + [|t|] else prev
  }

  /** `computeLineStarts`: one scan recording the byte after each newline. */
  method ComputeLineStarts(text: Bytes) returns (lineStarts: seq<nat>)
    ensures lineStarts == LineStarts(text)
  {
    lineStarts := [0];
    var i := 0;
    while i < |text|
      invariant 0 <= i <= |text|
      invariant lineStarts == LineStarts(text[..i])
    {
      assert text[..i + 1][..i] == text[..i];
      if text[i] == NL {
        lineStarts := lineStarts + [i + 1];
      }
      i := i + 1;
    }
    assert text[..|text|] == text;
  }

  /** The prefix of a text has a prefix of its line table; the later lines start further on. */
  lemma {:induction false} LineStartsOfPrefix(t: Bytes, o: nat)
    requires o <= |t|
    ensures var p := LineStarts(t[..o]);
      && |p| <= |LineStarts(t)|
      && LineStarts(t)[..|p|] == p
      && forall k :: |p| <= k < |LineStarts(t)| ==> LineStarts(t)[k] > o
    decreases |t|
  {
    if o == |t| {
      assert t[..o] == t;
    } else {
      var t' := t[..|t| - 1];
      assert t'[..o] == t[..o];
      LineStartsOfPrefix(t', o);
    }
  }

  // ---------------------------------------------------------------------------
  // Offset to position

  /** The line holding offset `o`: the last table entry at or below it. */
  function LineOf(ls: seq<nat>, o: nat): (r: nat)
    requires |ls| > 0
    ensures r < |ls|
    ensures r > 0 ==> ls[r] <= o
    ensures forall k :: r < k < |ls| ==> o < ls[k]
  {
    if |ls| == 1 then 0
    else if ls[|ls| - 1] <= o then |ls| - 1
    else LineOf(ls[..|ls| - 1], o)
  }

  lemma LineOfIsLastAtMost(ls: seq<nat>, o: nat, lo: nat)
    requires ValidLineTable(ls)
    requires lo < |ls| && ls[lo] <= o
    requires lo + 1 < |ls| ==> o < ls[lo + 1]
    ensures LineOf(ls, o) == lo
  {
  }

  /**
   * UTF-16 units from byte `i` up to offset `o`: the walk stops at `o`, at the
   * end of the text or at a newline, and the step that crosses `o` counts whole.
   */
  function ColumnFrom(s: Bytes, i: nat, o: nat): nat
    decreases |s| - i
  {
    if i < o && i < |s| && s[i] != NL then
      var st := ScanStep(s, i);
      st.units + ColumnFrom(s, i + st.len, o)
    else 0
  }

  /** The position `byteOffsetToPosition` gives: offsets past the end are clamped. */
  function PositionOf(text: Bytes, ls: seq<nat>, offset: nat): (p: Position)
    requires ValidLineTable(ls)
    ensures 0 <= p.line < |ls| && p.character >= 0
  {
    var o := if offset > |text| then |text| else offset;
    var line := LineOf(ls, o);
    Position(line, ColumnFrom(text, ls[line], o))
  }

  /** `byteOffsetToPosition`: binary search for the line, then the column walk. */
  method ByteOffsetToPosition(text: Bytes, lineStarts: seq<nat>, offset: nat) returns (p: Position)
    requires ValidLineTable(lineStarts)
    ensures p == PositionOf(text, lineStarts, offset)
  {
    var o := offset;
    if o > |text| {
      o := |text|;
    }
    var lo, hi := 0, |lineStarts|;
    while lo + 1 < hi
      invariant 0 <= lo < hi <= |lineStarts|
      invariant lineStarts[lo] <= o
      invariant hi < |lineStarts| ==> o < lineStarts[hi]
      decreases hi - lo
    {
      var mid := (lo + hi) / 2;
      if lineStarts[mid] <= o {
        lo := mid;
      } else {
        hi := mid;
      }
    }
    LineOfIsLastAtMost(lineStarts, o, lo);
    var i := lineStarts[lo];
    var col16 := 0;
    while i < o && i < |text| && text[i] != NL
      invariant col16 + ColumnFrom(text, i, o) == ColumnFrom(text, lineStarts[lo], o)
      decreases |text| - i
    {
      if text[i] < 0x80 {
        col16 := col16 + 1;
        i := i + 1;
      } else {
        var d := DecodeCodePoint(text, i);
        if d.cp <= 0xFFFF {
          col16 := col16 + 1;
        } else {
          col16 := col16 + 2;
        }
        i := i + d.len;
      }
    }
    p := Position(lo, col16);
  }

  /** With the table of the text itself, the line is the number of newlines before the offset. */
  lemma PositionLineCountsNewlines(text: Bytes, offset: nat)
    requires offset <= |text|
    ensures PositionOf(text, LineStarts(text), offset).line == NewlineCount(text[..offset])
  {
    var ls := LineStarts(text);
    var p := LineStarts(text[..offset]);
    LineStartsOfPrefix(text, offset);
    var lo := |p| - 1;
    assert ls[lo] == p[lo];
    LineOfIsLastAtMost(ls, offset, lo);
  }

  /** On an ASCII line the column is the byte distance from the line start. */
  lemma {:induction false} AsciiColumn(s: Bytes, i: nat, o: nat)
    requires i <= o <= |s|
    requires forall k :: i <= k < o ==> s[k] < 0x80 && s[k] != NL
    ensures ColumnFrom(s, i, o) == o - i
    decreases o - i
  {
    if i < o {
      AsciiColumn(s, i + 1, o);
    }
  }

  /** A later offset never gives an earlier column. */
  lemma {:induction false} ColumnMonotone(s: Bytes, i: nat, o1: nat, o2: nat)
    requires o1 <= o2
    ensures ColumnFrom(s, i, o1) <= ColumnFrom(s, i, o2)
    decreases |s| - i
  {
    if i < o1 && i < |s| && s[i] != NL {
      ColumnMonotone(s, i + ScanStep(s, i).len, o1, o2);
    }
  }

  /** Clamping the offset to the text size does not change the column. */
  lemma {:induction false} ColumnClamp(s: Bytes, i: nat, o: nat)
    requires o > |s|
    ensures ColumnFrom(s, i, o) == ColumnFrom(s, i, |s|)
    decreases |s| - i
  {
    if i < |s| && s[i] != NL {
      ColumnClamp(s, i + ScanStep(s, i).len, o);
    }
  }

  // ---------------------------------------------------------------------------
  // UTF-16 length

  function Utf16LengthFrom(s: Bytes, i: nat): nat
    decreases |s| - i
  {
    if i < |s| then
      var st := ScanStep(s, i);
      st.units + Utf16LengthFrom(s, i + st.len)
    else 0
  }

  /** The UTF-16 length of a whole string under the scanning rule. */
  function Utf16Length(s: Bytes): nat {
    Utf16LengthFrom(s, 0)
  }

  /** `utf8ToUtf16Length`. */
  method Utf8ToUtf16Length(utf8Str: Bytes) returns (utf16Length: nat)
    ensures utf16Length == Utf16Length(utf8Str)
  {
    var i := 0;
    utf16Length := 0;
    while i < |utf8Str|
      invariant utf16Length + Utf16LengthFrom(utf8Str, i) == Utf16Length(utf8Str)
      decreases |utf8Str| - i
    {
      if utf8Str[i] < 0x80 {
        utf16Length := utf16Length + 1;
        i := i + 1;
      } else {
        var d := DecodeCodePoint(utf8Str, i);
        if d.cp <= 0xFFFF {
          utf16Length := utf16Length + 1;
        } else {
          utf16Length := utf16Length + 2;
        }
        i := i + d.len;
      }
    }
  }

  lemma {:induction false} AsciiLengthFrom(s: Bytes, i: nat)
    requires i <= |s|
    requires forall k :: i <= k < |s| ==> s[k] < 0x80
    ensures Utf16LengthFrom(s, i) == |s| - i
    decreases |s| - i
  {
    if i < |s| {
      AsciiLengthFrom(s, i + 1);
    }
  }

  /** ASCII text is as long in UTF-16 units as in bytes. */
  lemma AsciiLength(s: Bytes)
    requires AllAscii(s)
    ensures Utf16Length(s) == |s|
  {
    AsciiLengthFrom(s, 0);
  }

  /**
   * A lone lead byte 0xF4 at the end of the text is counted as a surrogate
   * pair: the decoder reads the missing bytes as 0, giving U+100000.
   */
  lemma TruncatedLeadCountsTwo()
    ensures Utf16Length([0xF4]) == 2
  {
    assert DecodeCodePoint([0xF4], 0).cp == 0x100000;
  }

  // ---------------------------------------------------------------------------
  // Well-formed UTF-8 (the table of section 4 of RFC 3629)

  predicate IsTail(b: Byte) { 0x80 <= b <= 0xBF }

  /** Length of the well-formed UTF-8 sequence starting at byte `i`, or 0 if there is none. */
  function WellFormedSeqLen(s: Bytes, i: nat): (n: nat)
    ensures n <= 4 && (n > 0 ==> i + n <= |s|)
    ensures n == 1 <==> (i < |s| && s[i] < 0x80)
    ensures n >= 2 ==> IsTail(s[i + 1])
    ensures n >= 3 ==> IsTail(s[i + 2])
    ensures n == 4 ==> IsTail(s[i + 3])
  {
    var c, c1, c2, c3 := At(s, i), At(s, i + 1), At(s, i + 2), At(s, i + 3);
    if i >= |s| then 0
    else if c < 0x80 then 1
    else if 0xC2 <= c <= 0xDF && i + 1 < |s| && IsTail(c1) then 2
    else if i + 2 < |s| && IsTail(c2)
      && ((c == 0xE0 && 0xA0 <= c1 <= 0xBF) || (0xE1 <= c <= 0xEC && IsTail(c1))
          || (c == 0xED && 0x80 <= c1 <= 0x9F) || (0xEE <= c <= 0xEF && IsTail(c1)))
    then 3
    else if i + 3 < |s| && IsTail(c2) && IsTail(c3)
      && ((c == 0xF0 && 0x90 <= c1 <= 0xBF) || (0xF1 <= c <= 0xF3 && IsTail(c1))
          || (c == 0xF4 && 0x80 <= c1 <= 0x8F))
    then 4
    else 0
  }

  /** The bytes from `i` to the end are a chain of well-formed sequences. */
  predicate WellFormedFrom(s: Bytes, i: nat)
    decreases |s| - i
  {
    i == |s| || (i < |s| && WellFormedSeqLen(s, i) > 0 && WellFormedFrom(s, i + WellFormedSeqLen(s, i)))
  }

  predicate WellFormedUtf8(s: Bytes) { WellFormedFrom(s, 0) }

  /** Offset `x` is not in the middle of a character. */
  predicate IsCharBoundary(s: Bytes, x: nat) {
    x == |s| || (x < |s| && !IsTail(s[x]))
  }

  /** On a well-formed sequence the scanning step reads the same bytes and counts UTF-16 units correctly. */
  lemma ScanStepWellFormed(s: Bytes, i: nat)
    requires i < |s| && WellFormedSeqLen(s, i) > 0
    ensures ScanStep(s, i).len == WellFormedSeqLen(s, i)
    ensures ScanStep(s, i).units == (if WellFormedSeqLen(s, i) == 4 then 2 else 1)
  {
  }

  /** A chain of well-formed sequences reaches every character boundary after its start. */
  lemma {:induction false} ChainReachesBoundary(s: Bytes, i: nat, x: nat)
    requires WellFormedFrom(s, i) && i <= x && IsCharBoundary(s, x)
    ensures WellFormedFrom(s, x)
    decreases x - i
  {
    if i < x {
      var n := WellFormedSeqLen(s, i);
      assert i + n <= x;
      ChainReachesBoundary(s, i + n, x);
    }
  }

  /** Every ASCII byte of well-formed text begins a well-formed suffix, and so does the byte after it. */
  lemma AsciiIsBoundary(s: Bytes, p: nat)
    requires WellFormedUtf8(s) && p < |s| && s[p] < 0x80
    ensures WellFormedFrom(s, p) && WellFormedFrom(s, p + 1)
  {
    ChainReachesBoundary(s, 0, p);
  }

  lemma {:induction false} WellFormedLengthFrom(s: Bytes, i: nat)
    requires WellFormedFrom(s, i)
    ensures i <= |s| && Utf16LengthFrom(s, i) <= |s| - i
    decreases |s| - i
  {
    if i < |s| {
      ScanStepWellFormed(s, i);
      WellFormedLengthFrom(s, i + WellFormedSeqLen(s, i));
    }
  }

  /** Well-formed UTF-8 never needs more UTF-16 units than it has bytes. */
  lemma WellFormedLengthAtMostBytes(s: Bytes)
    requires WellFormedUtf8(s)
    ensures Utf16Length(s) <= |s|
  {
    WellFormedLengthFrom(s, 0);
  }

  predicate IsScalarValue(cp: nat) {
    cp < 0x110000 && !(0xD800 <= cp <= 0xDFFF)
  }

  /** The UTF-8 encoding of a Unicode scalar value (section 3 of RFC 3629). */
  function EncodeUtf8(cp: nat): (r: Bytes)
    requires IsScalarValue(cp)
    ensures 1 <= |r| <= 4
  {
    if cp < 0x80 then [cp]
    else if cp < 0x800 then [0xC0 + cp / 64, 0x80 + cp % 64]
    else if cp < 0x10000 then [0xE0 + cp / 64 / 64, 0x80 + cp / 64 % 64, 0x80 + cp % 64]
    else [0xF0 + cp / 64 / 64 / 64, 0x80 + cp / 64 / 64 % 64, 0x80 + cp / 64 % 64, 0x80 + cp % 64]
  }

  lemma DecodeTwoBytes(a: nat, b: nat, rest: Bytes)
    requires 2 <= a < 32 && b < 64
    ensures var e := [0xC0 + a, 0x80 + b] + rest;
      DecodeCodePoint(e, 0) == Decoded(a * 64 + b, 2) && WellFormedSeqLen(e, 0) == 2
  {
    var e := [0xC0 + a, 0x80 + b] + rest;
    assert e[0] == 0xC0 + a && e[1] == 0x80 + b;
    assert (0xC0 + a) % 32 == a && (0x80 + b) % 64 == b;
  }

  lemma DecodeThreeBytes(a: nat, b: nat, c: nat, rest: Bytes)
    requires a < 16 && b < 64 && c < 64
    requires a == 0 ==> b >= 32
    requires a == 13 ==> b < 32
    ensures var e := [0xE0 + a, 0x80 + b, 0x80 + c] + rest;
      DecodeCodePoint(e, 0) == Decoded(a * 4096 + b * 64 + c, 3) && WellFormedSeqLen(e, 0) == 3
  {
    var e := [0xE0 + a, 0x80 + b, 0x80 + c] + rest;
    assert e[0] == 0xE0 + a && e[1] == 0x80 + b && e[2] == 0x80 + c;
    assert (0xE0 + a) % 16 == a && (0x80 + b) % 64 == b && (0x80 + c) % 64 == c;
  }

  lemma DecodeFourBytes(a: nat, b: nat, c: nat, d: nat, rest: Bytes)
    requires a <= 4 && b < 64 && c < 64 && d < 64
    requires a == 0 ==> b >= 16
    requires a == 4 ==> b < 16
    ensures var e := [0xF0 + a, 0x80 + b, 0x80 + c, 0x80 + d] + rest;
      && DecodeCodePoint(e, 0) == Decoded(a * 262144 + b * 4096 + c * 64 + d, 4)
      && WellFormedSeqLen(e, 0) == 4
  {
    var e := [0xF0 + a, 0x80 + b, 0x80 + c, 0x80 + d] + rest;
    assert e[0] == 0xF0 + a && e[1] == 0x80 + b && e[2] == 0x80 + c && e[3] == 0x80 + d;
    assert (0xF0 + a) % 8 == a;
    assert (0x80 + b) % 64 == b && (0x80 + c) % 64 == c && (0x80 + d) % 64 == d;
  }

  /**
   * Decoding the encoding of a scalar value gives the value back, the encoding
   * is one well-formed sequence, and the scanning step counts its UTF-16 units.
   */
  lemma DecodeEncode(cp: nat, rest: Bytes)
    requires IsScalarValue(cp)
    ensures var e := EncodeUtf8(cp) + rest;
      && DecodeCodePoint(e, 0) == Decoded(cp, |EncodeUtf8(cp)|)
      && WellFormedSeqLen(e, 0) == |EncodeUtf8(cp)|
      && ScanStep(e, 0) == Step(|EncodeUtf8(cp)|, if cp <= 0xFFFF then 1 else 2)
  {
    if cp < 0x80 {
    } else if cp < 0x800 {
      DecodeEncodeTwo(cp, rest);
    } else if cp < 0x10000 {
      DecodeEncodeThree(cp, rest);
    } else {
      DecodeEncodeFour(cp, rest);
    }
  }

  lemma DecodeEncodeTwo(cp: nat, rest: Bytes)
    requires 0x80 <= cp < 0x800
    ensures var e := EncodeUtf8(cp) + rest;
      && |EncodeUtf8(cp)| == 2
      && DecodeCodePoint(e, 0) == Decoded(cp, 2) && WellFormedSeqLen(e, 0) == 2
      && ScanStep(e, 0) == Step(2, 1)
  {
    var a, b := cp / 64, cp % 64;
    assert cp == a * 64 + b;
    assert EncodeUtf8(cp) == [0xC0 + a, 0x80 + b];
    DecodeTwoBytes(a, b, rest);
  }

  lemma DecodeEncodeThree(cp: nat, rest: Bytes)
    requires 0x800 <= cp < 0x10000 && !(0xD800 <= cp <= 0xDFFF)
    ensures var e := EncodeUtf8(cp) + rest;
      && |EncodeUtf8(cp)| == 3
      && DecodeCodePoint(e, 0) == Decoded(cp, 3) && WellFormedSeqLen(e, 0) == 3
      && ScanStep(e, 0) == Step(3, 1)
  {
    var a, b, c := cp / 64 / 64, cp / 64 % 64, cp % 64;
    assert cp / 64 == a * 64 + b;
    assert cp == a * 4096 + b * 64 + c;
    assert EncodeUtf8(cp) == [0xE0 + a, 0x80 + b, 0x80 + c];
    DecodeThreeBytes(a, b, c, rest);
  }

  lemma DecodeEncodeFour(cp: nat, rest: Bytes)
    requires 0x10000 <= cp < 0x110000
    ensures var e := EncodeUtf8(cp) + rest;
      && |EncodeUtf8(cp)| == 4
      && DecodeCodePoint(e, 0) == Decoded(cp, 4) && WellFormedSeqLen(e, 0) == 4
      && ScanStep(e, 0) == Step(4, 2)
  {
    var a, b, c, d := cp / 64 / 64 / 64, cp / 64 / 64 % 64, cp / 64 % 64, cp % 64;
    assert cp / 64 / 64 == a * 64 + b;
    assert cp / 64 == a * 4096 + b * 64 + c;
    assert cp == a * 262144 + b * 4096 + c * 64 + d;
    assert EncodeUtf8(cp) == [0xF0 + a, 0x80 + b, 0x80 + c, 0x80 + d];
    DecodeFourBytes(a, b, c, d, rest);
  }

  // ---------------------------------------------------------------------------
  // Position to offset

  /**
   * From byte `i`, the byte reached after `character` UTF-16 units: the walk
   * stops early at a newline or the end of the text.
   */
  function OffsetFrom(s: Bytes, i: nat, character: int): (r: nat)
    ensures r >= i
    decreases |s| - i
  {
    if 0 < character && i < |s| && s[i] != NL then
      var st := ScanStep(s, i);
      OffsetFrom(s, i + st.len, character - st.units)
    else i
  }

  /**
   * `computeByteOffset`: the line's start, then a walk over `character` units
   * that stops at the line's end; a line past the last one gives the text size.
   */
  function ComputeByteOffset(text: Bytes, line: nat, character: nat): (r: nat)
    ensures r <= |text|
  {
    var ls := LineStarts(text);
    if line >= |ls| then |text|
    else
      var b := OffsetFrom(text, ls[line], character);
      if b > |text| then |text| else b
  }

  /** Walking `c` units from `i` ends exactly on a character, without crossing a newline. */
  predicate ColumnReachable(s: Bytes, i: nat, c: int)
    decreases |s| - i
  {
    c == 0
    || (0 < c && i < |s| && s[i] != NL && ScanStep(s, i).units <= c
        && ColumnReachable(s, i + ScanStep(s, i).len, c - ScanStep(s, i).units))
  }

  lemma {:induction false} ColumnOfOffset(s: Bytes, i: nat, c: int)
    requires ColumnReachable(s, i, c)
    ensures ColumnFrom(s, i, OffsetFrom(s, i, c)) == c
    decreases |s| - i
  {
    if c != 0 {
      var st := ScanStep(s, i);
      ColumnOfOffset(s, i + st.len, c - st.units);
    }
  }

  /** Walking along a well-formed line never passes its newline. */
  lemma {:induction false} OffsetStaysOnLine(s: Bytes, i: nat, c: int, q: nat)
    requires WellFormedFrom(s, i) && i <= q < |s| && s[q] == NL
    ensures OffsetFrom(s, i, c) <= q
    decreases |s| - i
  {
    if 0 < c && i < |s| && s[i] != NL {
      var n := WellFormedSeqLen(s, i);
      ScanStepWellFormed(s, i);
      assert i + n <= q;
      OffsetStaysOnLine(s, i + n, c - ScanStep(s, i).units, q);
    }
  }

  lemma {:induction false} OffsetStaysInText(s: Bytes, i: nat, c: int)
    requires WellFormedFrom(s, i)
    ensures OffsetFrom(s, i, c) <= |s|
    decreases |s| - i
  {
    if 0 < c && i < |s| && s[i] != NL {
      ScanStepWellFormed(s, i);
      OffsetStaysInText(s, i + WellFormedSeqLen(s, i), c - ScanStep(s, i).units);
    }
  }

  /** Every line of well-formed text starts on a well-formed suffix. */
  lemma LineStartIsBoundary(text: Bytes, line: nat)
    requires WellFormedUtf8(text) && line < |LineStarts(text)|
    ensures WellFormedFrom(text, LineStarts(text)[line])
  {
    var ls := LineStarts(text);
    if line > 0 {
      var q := ls[line];
      assert 0 < q <= |text| && q in ls;
      AsciiIsBoundary(text, q - 1);
    }
  }

  /**
   * Round trip from a position: on well-formed text, the offset computed for
   * a column that ends on a character of the line maps back to that position.
   */
  lemma PositionOfComputedOffset(text: Bytes, line: nat, character: nat)
    requires WellFormedUtf8(text)
    requires line < |LineStarts(text)|
    requires ColumnReachable(text, LineStarts(text)[line], character)
    ensures PositionOf(text, LineStarts(text), ComputeByteOffset(text, line, character))
         == Position(line, character)
  {
    var ls := LineStarts(text);
    var start := ls[line];
    LineStartIsBoundary(text, line);
    OffsetStaysInText(text, start, character);
    var r := OffsetFrom(text, start, character);
    assert ComputeByteOffset(text, line, character) == r;
    if line + 1 < |ls| {
      var q := ls[line + 1] - 1;
      assert q + 1 in ls;
      OffsetStaysOnLine(text, start, character, q);
    }
    LineOfIsLastAtMost(ls, r, line);
    ColumnOfOffset(text, start, character);
  }

  lemma {:induction false} OffsetOfColumn(s: Bytes, i: nat, x: nat)
    requires WellFormedFrom(s, i) && i <= x <= |s| && IsCharBoundary(s, x)
    requires forall k :: i <= k < x ==> s[k] != NL
    ensures OffsetFrom(s, i, ColumnFrom(s, i, x)) == x
    decreases x - i
  {
    if i < x {
      var n := WellFormedSeqLen(s, i);
      ScanStepWellFormed(s, i);
      SequenceEndsBeforeBoundary(s, i, x);
      OffsetOfColumn(s, i + n, x);
      OffsetColumnStep(s, i, x);
    }
  }

  /** A character boundary after byte `i` is not inside the well-formed sequence at `i`. */
  lemma SequenceEndsBeforeBoundary(s: Bytes, i: nat, x: nat)
    requires i < x <= |s| && WellFormedSeqLen(s, i) > 0 && IsCharBoundary(s, x)
    ensures i + WellFormedSeqLen(s, i) <= x
  {
  }

  /** One character of the column walk and of the offset walk, taken together. */
  lemma OffsetColumnStep(s: Bytes, i: nat, x: nat)
    requires i < x <= |s| && s[i] != NL
    ensures var st := ScanStep(s, i);
      OffsetFrom(s, i, ColumnFrom(s, i, x)) == OffsetFrom(s, i + st.len, ColumnFrom(s, i + st.len, x))
  {
  }

  /**
   * Round trip from an offset: on well-formed text, the position of an offset
   * that lies between characters gives that offset back.
   */
  lemma ComputedOffsetOfPosition(text: Bytes, offset: nat)
    requires WellFormedUtf8(text)
    requires offset <= |text| && IsCharBoundary(text, offset)
    ensures var p := PositionOf(text, LineStarts(text), offset);
      ComputeByteOffset(text, p.line, p.character) == offset
  {
    var ls := LineStarts(text);
    var line := LineOf(ls, offset);
    var start := ls[line];
    LineStartIsBoundary(text, line);
    forall k | start <= k < offset
      ensures text[k] != NL
    {
      if text[k] == NL {
        assert k + 1 in ls;
        var j :| 0 <= j < |ls| && ls[j] == k + 1;
      }
    }
    OffsetOfColumn(text, start, offset);
  }
}
