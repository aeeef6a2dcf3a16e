/**
 * Byte strings as the server sees them: every `std::string` of the C++
 * server is a sequence of bytes holding UTF-8 text.  This module fixes the
 * byte type, the ASCII bytes the scanners test for, the `find` searches of
 * `std::string`, and the UTF-8 spellings of the IPAdic part-of-speech words
 * that the analysers compare feature fields with.
 */
module ByteText {

  type Byte = b: int | 0 <= b < 256
  type Bytes = seq<Byte>

  datatype Option<T> = None | Some(value: T)

  const TAB: Byte := 0x09
  const NL: Byte := 0x0A
  const CR: Byte := 0x0D
  const SPACE: Byte := 0x20
  const BANG: Byte := 0x21     // '!'
  const HASH: Byte := 0x23     // '#'
  const DOLLAR: Byte := 0x24   // '$'
  const PERCENT: Byte := 0x25  // '%'
  const STAR: Byte := 0x2A     // '*'
  const COMMA: Byte := 0x2C    // ','
  const DASH: Byte := 0x2D     // '-'
  const SLASH: Byte := 0x2F    // '/'
  const LT: Byte := 0x3C       // '<'
  const GT: Byte := 0x3E       // '>'
  const AT: Byte := 0x40       // '@'
  const BACKSLASH: Byte := 0x5C
  const LBRACE: Byte := 0x7B
  const RBRACE: Byte := 0x7D

  predicate IsAscii(b: Byte) { b < 0x80 }

  predicate AllAscii(s: Bytes) { forall k :: 0 <= k < |s| ==> IsAscii(s[k]) }

  /** The bytes of an ASCII string literal. */
  function Ascii(s: string): (r: Bytes)
    requires forall i :: 0 <= i < |s| ==> s[i] as int < 128
    ensures |r| == |s| && AllAscii(r)
  {
    seq(|s|, i requires 0 <= i < |s| => s[i] as int)
  }

  /** `std::isspace` in the C locale: space, \t, \n, \v, \f, \r. */
  predicate IsCSpace(b: Byte) { b == SPACE || (0x09 <= b <= 0x0D) }

  /** `std::isalpha` in the C locale. */
  predicate IsCAlpha(b: Byte) { (0x41 <= b <= 0x5A) || (0x61 <= b <= 0x7A) }

  /** `std::ispunct` in the C locale: printable, not alphanumeric, not space. */
  predicate IsCPunct(b: Byte) {
    (0x21 <= b <= 0x2F) || (0x3A <= b <= 0x40) || (0x5B <= b <= 0x60) || (0x7B <= b <= 0x7E)
  }

  /** `s.find(b, from)`: the first index at or after `from` holding `b`. */
  function FindByte(s: Bytes, b: Byte, from: nat): (r: Option<nat>)
    ensures r.Some? ==> from <= r.value < |s| && s[r.value] == b
    ensures r.Some? ==> forall k :: from <= k < r.value ==> s[k] != b
    ensures r.None? ==> forall k :: from <= k < |s| ==> s[k] != b
    decreases |s| - from
  {
    if from >= |s| then None
    else if s[from] == b then Some(from)
    else FindByte(s, b, from + 1)
  }

  /** A byte at `c` with none of its kind before it, from `from` on, is what `FindByte` finds. */
  lemma FindByteAt(s: Bytes, b: Byte, from: nat, c: nat)
    requires from <= c < |s| && s[c] == b
    requires forall k :: from <= k < c ==> s[k] != b
    ensures FindByte(s, b, from) == Some(c)
  {
  }

  /** `p` occurs in `s` starting at byte `k`. */
  predicate OccursAt(s: Bytes, p: Bytes, k: int) {
    0 <= k && k + |p| <= |s| && s[k..k + |p|] == p
  }

  /** `s.find(p, from)` for a non-empty needle: the leftmost occurrence at or after `from`. */
  function FindSub(s: Bytes, p: Bytes, from: nat): (r: Option<nat>)
    requires |p| > 0
    ensures r.Some? ==> from <= r.value && OccursAt(s, p, r.value)
    ensures r.Some? ==> forall k :: from <= k < r.value ==> !OccursAt(s, p, k)
    ensures r.None? ==> forall k :: from <= k ==> !OccursAt(s, p, k)
    decreases |s| - from
  {
    if from + |p| > |s| then None
    else if s[from..from + |p|] == p then Some(from)
    else FindSub(s, p, from + 1)
  }

  /** `s.find(p) != npos`. */
  predicate Contains(s: Bytes, p: Bytes)
    requires |p| > 0
  {
    FindSub(s, p, 0).Some?
  }

  // UTF-8 spellings of the IPAdic feature words the analysers look for.
  const Joshi: Bytes := [0xE5, 0x8A, 0xA9, 0xE8, 0xA9, 0x9E]            // 助詞 (particle)
  const Doushi: Bytes := [0xE5, 0x8B, 0x95, 0xE8, 0xA9, 0x9E]           // 動詞 (verb)
  const Meishi: Bytes := [0xE5, 0x90, 0x8D, 0xE8, 0xA9, 0x9E]           // 名詞 (noun)
  const Keiyoushi: Bytes := [0xE5, 0xBD, 0xA2, 0xE5, 0xAE, 0xB9, 0xE8, 0xA9, 0x9E] // 形容詞
  const Fukushi: Bytes := [0xE5, 0x89, 0xAF, 0xE8, 0xA9, 0x9E]          // 副詞 (adverb)
  const Jodoushi: Bytes := [0xE5, 0x8A, 0xA9, 0xE5, 0x8B, 0x95, 0xE8, 0xA9, 0x9E] // 助動詞
  const Setsuzokushi: Bytes := [0xE6, 0x8E, 0xA5, 0xE7, 0xB6, 0x9A, 0xE8, 0xA9, 0x9E] // 接続詞
  const Kigou: Bytes := [0xE8, 0xA8, 0x98, 0xE5, 0x8F, 0xB7]            // 記号 (symbol)
  const Kandoushi: Bytes := [0xE6, 0x84, 0x9F, 0xE5, 0x8B, 0x95, 0xE8, 0xA9, 0x9E] // 感動詞
  const Settoushi: Bytes := [0xE6, 0x8E, 0xA5, 0xE9, 0xA0, 0xAD, 0xE8, 0xA9, 0x9E] // 接頭詞
  const Setsubi: Bytes := [0xE6, 0x8E, 0xA5, 0xE5, 0xB0, 0xBE]          // 接尾 (suffix)
  const KoyuuMeishi: Bytes := [0xE5, 0x9B, 0xBA, 0xE6, 0x9C, 0x89, 0xE5, 0x90, 0x8D, 0xE8, 0xA9, 0x9E] // 固有名詞
  const Jiritsu: Bytes := [0xE8, 0x87, 0xAA, 0xE7, 0xAB, 0x8B]          // 自立 (independent)
  const SetsuzokuJoshi: Bytes := [0xE6, 0x8E, 0xA5, 0xE7, 0xB6, 0x9A, 0xE5, 0x8A, 0xA9, 0xE8, 0xA9, 0x9E] // 接続助詞
  const Ga: Bytes := [0xE3, 0x81, 0x8C]                                  // が
  const Ichidan: Bytes := [0xE4, 0xB8, 0x80, 0xE6, 0xAE, 0xB5]          // 一段
  const Mizenkei: Bytes := [0xE6, 0x9C, 0xAA, 0xE7, 0x84, 0xB6, 0xE5, 0xBD, 0xA2] // 未然形
  const Reru: Bytes := [0xE3, 0x82, 0x8C, 0xE3, 0x82, 0x8B]             // れる
  const Koreru: Bytes := [0xE6, 0x9D, 0xA5, 0xE3, 0x82, 0x8C, 0xE3, 0x82, 0x8B] // 来れる
  const Mireru: Bytes := [0xE8, 0xA6, 0x8B, 0xE3, 0x82, 0x8C, 0xE3, 0x82, 0x8B] // 見れる
  const Touten: Bytes := [0xE3, 0x80, 0x81]                              // 、 (ideographic comma)
  const Asterisk: Bytes := [STAR]                                        // "*", IPAdic's empty field
}
