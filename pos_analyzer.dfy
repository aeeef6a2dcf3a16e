/**
 * `POSAnalyzer` of `pos_analyzer.cpp`: reading MeCab's IPAdic feature
 * strings (comma-separated fields: part of speech, three sub-categories,
 * conjugation type and form, base form, reading, pronunciation), mapping the
 * part of speech to a semantic-token type name, and computing the modifier
 * bits of a token from its bytes and its feature string.
 *
 * Only the UTF-8 path is modelled: the system charset is UTF-8, so no
 * conversion happens.
 */
module PosAnalyzer {
  import opened ByteText
  import opened LspTypes
  import TextProcessor

  // ---------------------------------------------------------------------------
  // Feature fields

  /** The fields of `feature` from byte `pos` on, each ending at the next comma. */
  function FieldsFrom(feature: Bytes, pos: nat): (r: seq<Bytes>)
    ensures forall k :: 0 <= k < |r| ==> COMMA !in r[k]
    decreases |feature| - pos
  {
    if pos >= |feature| then []
    else
      match FindByte(feature, COMMA, pos)
      case None => [feature[pos..]]
      case Some(c) => [feature[pos..c]] + FieldsFrom(feature, c + 1)
  }

  /** `splitFeature` of a whole feature string. */
  function SplitFields(feature: Bytes): seq<Bytes> {
    FieldsFrom(feature, 0)
  }

  /** `splitFeature`: cut at each comma; the text after the last comma is a field only if it is not empty. */
  method SplitFeature(feature: Bytes) returns (fields: seq<Bytes>)
    ensures fields == SplitFields(feature)
  {
    fields := [];
    var pos := 0;
    while pos < |feature|
      invariant fields + FieldsFrom(feature, pos) == SplitFields(feature)
      decreases |feature| - pos
    {
      var nextComma := FindByte(feature, COMMA, pos);
      if nextComma.None? {
        FieldsFromNone(feature, pos);
        fields := fields + [feature[pos..]];
        break;
      }
      FieldsFromSome(feature, pos, nextComma.value);
      fields := fields + [feature[pos..nextComma.value]];
      pos := nextComma.value + 1;
    }
  }

  /** The fields joined with commas. */
  function Join(fields: seq<Bytes>): Bytes
    decreases |fields|
  {
    if |fields| == 0 then []
    else if |fields| == 1 then fields[0]
    else fields[0] + [COMMA] + Join(fields[1..])
  }

  lemma {:induction false} JoinFieldsFrom(feature: Bytes, pos: nat)
    requires pos < |feature| && feature[|feature| - 1] != COMMA
    ensures |FieldsFrom(feature, pos)| > 0
    ensures Join(FieldsFrom(feature, pos)) == feature[pos..]
    decreases |feature| - pos
  {
    match FindByte(feature, COMMA, pos)
    case None =>
    case Some(c) =>
      JoinFieldsFrom(feature, c + 1);
      JoinCons(feature[pos..c], FieldsFrom(feature, c + 1));
      SliceAround(feature, pos, c);
  }

  /** Joining a field in front of non-empty fields puts a comma between. */
  lemma JoinCons(first: Bytes, rest: seq<Bytes>)
    requires |rest| > 0
    ensures Join([first] + rest) == first + [COMMA] + Join(rest)
  {
    assert ([first] + rest)[1..] == rest;
  }

  /** The text from `pos` on is the text up to `c`, the byte at `c`, and the text after it. */
  lemma SliceAround(s: Bytes, pos: nat, c: nat)
    requires pos <= c < |s|
    ensures s[pos..] == s[pos..c] + [s[c]] + s[c + 1..]
  {
  }

  /** Joining the fields of a feature string gives it back, unless it ends in a comma. */
  lemma JoinSplit(feature: Bytes)
    requires |feature| > 0 && feature[|feature| - 1] != COMMA
    ensures Join(SplitFields(feature)) == feature
  {
    JoinFieldsFrom(feature, 0);
    assert feature[0..] == feature;
  }

  lemma {:induction false} TrailingCommaFrom(feature: Bytes, pos: nat)
    requires pos < |feature| && feature[|feature| - 1] != COMMA
    ensures FieldsFrom(feature + [COMMA], pos) == FieldsFrom(feature, pos)
    decreases |feature| - pos, 1
  {
    FindCommaBeforeTrailing(feature, pos);
    match FindByte(feature, COMMA, pos)
    case None => TrailingCommaLastField(feature, pos);
    case Some(c) => TrailingCommaInnerField(feature, pos, c);
  }

  lemma TrailingCommaLastField(feature: Bytes, pos: nat)
    requires pos < |feature| && FindByte(feature, COMMA, pos).None?
    requires FindByte(feature + [COMMA], COMMA, pos) == Some(|feature|)
    ensures FieldsFrom(feature + [COMMA], pos) == FieldsFrom(feature, pos)
  {
    var g := feature + [COMMA];
    assert g[pos..|feature|] == feature[pos..];
    FieldsFromSome(g, pos, |feature|);
    assert FieldsFrom(g, |feature| + 1) == [];
    FieldsFromNone(feature, pos);
  }

  lemma {:induction false} TrailingCommaInnerField(feature: Bytes, pos: nat, c: nat)
    requires pos < |feature| && feature[|feature| - 1] != COMMA
    requires FindByte(feature, COMMA, pos) == Some(c)
    requires FindByte(feature + [COMMA], COMMA, pos) == Some(c)
    ensures FieldsFrom(feature + [COMMA], pos) == FieldsFrom(feature, pos)
    decreases |feature| - pos, 0
  {
    var g := feature + [COMMA];
    assert g[pos..c] == feature[pos..c];
    FieldsFromSome(g, pos, c);
    FieldsFromSome(feature, pos, c);
    TrailingCommaFrom(feature, c + 1);
  }

  /** Appending a comma makes the first comma from `pos` on the appended one when there was none. */
  lemma FindCommaBeforeTrailing(feature: Bytes, pos: nat)
    requires pos < |feature|
    ensures FindByte(feature + [COMMA], COMMA, pos) ==
      if FindByte(feature, COMMA, pos).None? then Some(|feature|) else FindByte(feature, COMMA, pos)
  {
    var g := feature + [COMMA];
    match FindByte(feature, COMMA, pos)
    case None =>
      FindByteAt(g, COMMA, pos, |feature|);
    case Some(c) =>
      FindByteAt(g, COMMA, pos, c);
  }

  /** With no comma from `pos` on, the rest of the text is one field. */
  lemma FieldsFromNone(s: Bytes, pos: nat)
    requires pos < |s| && FindByte(s, COMMA, pos).None?
    ensures FieldsFrom(s, pos) == [s[pos..]]
  {
  }

  /** The field that a comma at `c` ends, then the fields after it. */
  lemma FieldsFromSome(s: Bytes, pos: nat, c: nat)
    requires pos < |s| && FindByte(s, COMMA, pos) == Some(c)
    ensures FieldsFrom(s, pos) == [s[pos..c]] + FieldsFrom(s, c + 1)
  {
  }

  /** A single trailing comma adds no empty field. */
  lemma TrailingCommaAddsNoField(feature: Bytes)
    requires |feature| > 0 && feature[|feature| - 1] != COMMA
    ensures SplitFields(feature + [COMMA]) == SplitFields(feature)
  {
    TrailingCommaFrom(feature, 0);
  }

  lemma NoFieldsInEmptyFeature()
    ensures SplitFields([]) == []
  {
  }

  /**
   * Where the text from `pos` on is comma-free fields joined with commas,
   * the first comma from `pos` on ends the first field, and what follows it
   * is the other fields joined.
   */
  lemma JoinFirstComma(s: Bytes, pos: nat, fields: seq<Bytes>)
    requires pos <= |s| && s[pos..] == Join(fields) && |fields| > 0
    requires forall k :: 0 <= k < |fields| ==> COMMA !in fields[k]
    ensures |fields| == 1 ==> FindByte(s, COMMA, pos).None? && s[pos..] == fields[0]
    ensures |fields| > 1 ==>
      var c := pos + |fields[0]|;
      && c < |s| && FindByte(s, COMMA, pos) == Some(c)
      && s[pos..c] == fields[0] && s[c + 1..] == Join(fields[1..])
  {
    var f0 := fields[0];
    if |fields| == 1 {
      forall i | pos <= i < |s|
        ensures s[i] != COMMA
      {
        assert s[i] == f0[i - pos];
      }
    } else {
      var c := pos + |f0|;
      var tail := s[pos..];
      assert tail == f0 + [COMMA] + Join(fields[1..]);
      assert s[c] == tail[|f0|];
      forall i | pos <= i < c
        ensures s[i] != COMMA
      {
        assert s[i] == tail[i - pos] == f0[i - pos];
      }
      FindByteAt(s, COMMA, pos, c);
      assert s[pos..c] == tail[..|f0|];
      assert s[c + 1..] == tail[|f0| + 1..];
    }
  }

  lemma {:induction false} FieldsOfJoin(s: Bytes, pos: nat, fields: seq<Bytes>)
    requires pos <= |s| && s[pos..] == Join(fields)
    requires |fields| > 0 && |fields[|fields| - 1]| > 0
    requires forall k :: 0 <= k < |fields| ==> COMMA !in fields[k]
    ensures FieldsFrom(s, pos) == fields
    decreases |fields|
  {
    JoinFirstComma(s, pos, fields);
    if |fields| > 1 {
      var c := pos + |fields[0]|;
      FieldsFromSome(s, pos, c);
      FieldsOfJoin(s, c + 1, fields[1..]);
      assert fields == [fields[0]] + fields[1..];
    }
  }

  /** Splitting comma-free fields joined with commas gives the fields back, if the last is not empty. */
  lemma SplitJoin(fields: seq<Bytes>)
    requires |fields| > 0 && |fields[|fields| - 1]| > 0
    requires forall k :: 0 <= k < |fields| ==> COMMA !in fields[k]
    ensures SplitFields(Join(fields)) == fields
  {
    FieldsOfJoin(Join(fields), 0, fields);
  }

  // ---------------------------------------------------------------------------
  // Part of speech to token type

  /** The first comma-separated field (the whole string when there is no comma). */
  function FirstField(f: Bytes): (r: Bytes)
    ensures COMMA !in r
    ensures |r| <= |f| && r == f[..|r|]
    ensures |r| < |f| ==> f[|r|] == COMMA
  {
    match FindByte(f, COMMA, 0)
    case None => f
    case Some(p) => f[..p]
  }

  /** The legend name of a part-of-speech field: the first word of the list it contains wins. */
  function FieldToType(pos: Bytes): (r: string)
    ensures r in TokenTypeLegend
  {
    if Contains(pos, Meishi) then "noun"
    else if Contains(pos, Doushi) then "verb"
    else if Contains(pos, Keiyoushi) then "adjective"
    else if Contains(pos, Fukushi) then "adverb"
    else if Contains(pos, Joshi) then "particle"
    else if Contains(pos, Jodoushi) then "aux"
    else if Contains(pos, Setsuzokushi) then "conjunction"
    else if Contains(pos, Kigou) then "symbol"
    else if Contains(pos, Kandoushi) then "interj"
    else if Contains(pos, Settoushi) then "prefix"
    else if Contains(pos, Setsubi) then "suffix"
    else "unknown"
  }

  /** `mapPosToType`: sanitise the feature, take its first field and name its part of speech. */
  function MapPosToType(feature: Option<Bytes>): (r: string)
    ensures r in TokenTypeLegend
    ensures feature.None? ==> r == "unknown"
  {
    match feature
    case None => "unknown"
    case Some(f) => FieldToType(FirstField(TextProcessor.Sanitized(f)))
  }

  /**
   * The name each IPAdic part of speech gets.  助動詞 (auxiliary verb) and
   * 感動詞 (interjection) contain 動詞 (verb), which is tested earlier, so
   * both are named "verb" and the "aux" and "interj" names are never
   * produced for them.
   */
  lemma IpadicPartsOfSpeech()
    ensures FieldToType(Meishi) == "noun"
    ensures FieldToType(Doushi) == "verb"
    ensures FieldToType(Keiyoushi) == "adjective"
    ensures FieldToType(Fukushi) == "adverb"
    ensures FieldToType(Joshi) == "particle"
    ensures FieldToType(Jodoushi) == "verb"
    ensures FieldToType(Setsuzokushi) == "conjunction"
    ensures FieldToType(Kigou) == "symbol"
    ensures FieldToType(Kandoushi) == "verb"
    ensures FieldToType(Settoushi) == "prefix"
    ensures FieldToType(Setsubi) == "suffix"
  {
    MeishiType();
    DoushiType();
    KeiyoushiType();
    FukushiType();
    JoshiType();
    JodoushiType();
    SetsuzokushiType();
    KigouType();
    KandoushiType();
    SettoushiType();
    SetsubiType();
  }

  lemma MeishiType()
    ensures FieldToType(Meishi) == "noun"
  {
    ContainsAt(Meishi, Meishi, 0);
  }

  lemma DoushiType()
    ensures FieldToType(Doushi) == "verb"
  {
    ContainsAt(Doushi, Doushi, 0);
  }

  lemma KeiyoushiType()
    ensures FieldToType(Keiyoushi) == "adjective"
  {
    KeiyoushiLacksMeishi();
    KeiyoushiLacksDoushi();
    ContainsAt(Keiyoushi, Keiyoushi, 0);
  }

  lemma FukushiType()
    ensures FieldToType(Fukushi) == "adverb"
  {
    ContainsAt(Fukushi, Fukushi, 0);
  }

  lemma JoshiType()
    ensures FieldToType(Joshi) == "particle"
  {
    ContainsAt(Joshi, Joshi, 0);
  }

  lemma JodoushiType()
    ensures FieldToType(Jodoushi) == "verb"
  {
    JodoushiLacksMeishi();
    ContainsAt(Jodoushi, Doushi, 3);
  }

  lemma JodoushiLacksMeishi()
    ensures !Contains(Jodoushi, Meishi)
  {
    NotAt(Jodoushi, Meishi, 0);
    NotAt(Jodoushi, Meishi, 1);
    NotAt(Jodoushi, Meishi, 2);
    NotAt(Jodoushi, Meishi, 3);
  }

  lemma SetsuzokushiType()
    ensures FieldToType(Setsuzokushi) == "conjunction"
  {
    SetsuzokushiLacksMeishi();
    SetsuzokushiLacksDoushi();
    SetsuzokushiLacksFukushi();
    SetsuzokushiLacksJoshi();
    SetsuzokushiLacksKeiyoushi();
    SetsuzokushiLacksJodoushi();
    ContainsAt(Setsuzokushi, Setsuzokushi, 0);
  }

  lemma KigouType()
    ensures FieldToType(Kigou) == "symbol"
  {
    ContainsAt(Kigou, Kigou, 0);
  }

  lemma KandoushiType()
    ensures FieldToType(Kandoushi) == "verb"
  {
    KandoushiLacksMeishi();
    ContainsAt(Kandoushi, Doushi, 3);
  }

  lemma KandoushiLacksMeishi()
    ensures !Contains(Kandoushi, Meishi)
  {
    NotAt(Kandoushi, Meishi, 0);
    NotAt(Kandoushi, Meishi, 1);
    NotAt(Kandoushi, Meishi, 2);
    NotAt(Kandoushi, Meishi, 3);
  }

  lemma SettoushiType()
    ensures FieldToType(Settoushi) == "prefix"
  {
    SettoushiLacksMeishi();
    SettoushiLacksDoushi();
    SettoushiLacksFukushi();
    SettoushiLacksJoshi();
    SettoushiLacksKigou();
    SettoushiLacksKeiyoushi();
    SettoushiLacksJodoushi();
    SettoushiLacksSetsuzokushi();
    SettoushiLacksKandoushi();
    ContainsAt(Settoushi, Settoushi, 0);
    PrefixBranch(Settoushi);
  }

  /** A field containing none of the words before 接頭詞 in the list, and 接頭詞 itself, is a prefix. */
  lemma PrefixBranch(pos: Bytes)
    requires !Contains(pos, Meishi) && !Contains(pos, Doushi) && !Contains(pos, Keiyoushi)
    requires !Contains(pos, Fukushi) && !Contains(pos, Joshi) && !Contains(pos, Jodoushi)
    requires !Contains(pos, Setsuzokushi) && !Contains(pos, Kigou) && !Contains(pos, Kandoushi)
    requires Contains(pos, Settoushi)
    ensures FieldToType(pos) == "prefix"
  {
  }

  lemma SetsubiType()
    ensures FieldToType(Setsubi) == "suffix"
  {
    ContainsAt(Setsubi, Setsubi, 0);
  }

  lemma KeiyoushiLacksMeishi()
    ensures !Contains(Keiyoushi, Meishi)
  {
    NotAt(Keiyoushi, Meishi, 0);
    NotAt(Keiyoushi, Meishi, 1);
    NotAt(Keiyoushi, Meishi, 2);
    NotAt(Keiyoushi, Meishi, 3);
  }

  lemma KeiyoushiLacksDoushi()
    ensures !Contains(Keiyoushi, Doushi)
  {
    NotAt(Keiyoushi, Doushi, 0);
    NotAt(Keiyoushi, Doushi, 1);
    NotAt(Keiyoushi, Doushi, 2);
    NotAt(Keiyoushi, Doushi, 3);
  }

  lemma SetsuzokushiLacksMeishi()
    ensures !Contains(Setsuzokushi, Meishi)
  {
    NotAt(Setsuzokushi, Meishi, 0);
    NotAt(Setsuzokushi, Meishi, 1);
    NotAt(Setsuzokushi, Meishi, 2);
    NotAt(Setsuzokushi, Meishi, 3);
  }

  lemma SetsuzokushiLacksDoushi()
    ensures !Contains(Setsuzokushi, Doushi)
  {
    NotAt(Setsuzokushi, Doushi, 0);
    NotAt(Setsuzokushi, Doushi, 1);
    NotAt(Setsuzokushi, Doushi, 2);
    NotAt(Setsuzokushi, Doushi, 3);
  }

  lemma SetsuzokushiLacksFukushi()
    ensures !Contains(Setsuzokushi, Fukushi)
  {
    NotAt(Setsuzokushi, Fukushi, 0);
    NotAt(Setsuzokushi, Fukushi, 1);
    NotAt(Setsuzokushi, Fukushi, 2);
    NotAt(Setsuzokushi, Fukushi, 3);
  }

  lemma SetsuzokushiLacksJoshi()
    ensures !Contains(Setsuzokushi, Joshi)
  {
    NotAt(Setsuzokushi, Joshi, 0);
    NotAt(Setsuzokushi, Joshi, 1);
    NotAt(Setsuzokushi, Joshi, 2);
    NotAt(Setsuzokushi, Joshi, 3);
  }

  lemma SettoushiLacksMeishi()
    ensures !Contains(Settoushi, Meishi)
  {
    NotAt(Settoushi, Meishi, 0);
    NotAt(Settoushi, Meishi, 1);
    NotAt(Settoushi, Meishi, 2);
    NotAt(Settoushi, Meishi, 3);
  }

  lemma SettoushiLacksDoushi()
    ensures !Contains(Settoushi, Doushi)
  {
    NotAt(Settoushi, Doushi, 0);
    NotAt(Settoushi, Doushi, 1);
    NotAt(Settoushi, Doushi, 2);
    NotAt(Settoushi, Doushi, 3);
  }

  lemma SettoushiLacksFukushi()
    ensures !Contains(Settoushi, Fukushi)
  {
    NotAt(Settoushi, Fukushi, 0);
    NotAt(Settoushi, Fukushi, 1);
    NotAt(Settoushi, Fukushi, 2);
    NotAt(Settoushi, Fukushi, 3);
  }

  lemma SettoushiLacksJoshi()
    ensures !Contains(Settoushi, Joshi)
  {
    NotAt(Settoushi, Joshi, 0);
    NotAt(Settoushi, Joshi, 1);
    NotAt(Settoushi, Joshi, 2);
    NotAt(Settoushi, Joshi, 3);
  }

  lemma SettoushiLacksKigou()
    ensures !Contains(Settoushi, Kigou)
  {
    NotAt(Settoushi, Kigou, 0);
    NotAt(Settoushi, Kigou, 1);
    NotAt(Settoushi, Kigou, 2);
    NotAt(Settoushi, Kigou, 3);
  }

  /** A window whose first two bytes differ from the needle's is not an occurrence. */
  lemma NotAt(s: Bytes, p: Bytes, k: nat)
    requires |p| >= 2 && k + |p| <= |s|
    requires s[k] != p[0] || s[k + 1] != p[1]
    ensures !OccursAt(s, p, k)
  {
  }

  lemma SettoushiLacksKeiyoushi()
    ensures !Contains(Settoushi, Keiyoushi)
  {
    LacksSameLength(Settoushi, Keiyoushi, 0);
  }

  lemma SettoushiLacksJodoushi()
    ensures !Contains(Settoushi, Jodoushi)
  {
    LacksSameLength(Settoushi, Jodoushi, 0);
  }

  lemma SettoushiLacksSetsuzokushi()
    ensures !Contains(Settoushi, Setsuzokushi)
  {
    LacksSameLength(Settoushi, Setsuzokushi, 3);
  }

  lemma SettoushiLacksKandoushi()
    ensures !Contains(Settoushi, Kandoushi)
  {
    LacksSameLength(Settoushi, Kandoushi, 1);
  }

  lemma SetsuzokushiLacksKeiyoushi()
    ensures !Contains(Setsuzokushi, Keiyoushi)
  {
    LacksSameLength(Setsuzokushi, Keiyoushi, 0);
  }

  lemma SetsuzokushiLacksJodoushi()
    ensures !Contains(Setsuzokushi, Jodoushi)
  {
    LacksSameLength(Setsuzokushi, Jodoushi, 0);
  }

  /** A needle as long as the text that differs from it at byte `j` is not in it. */
  lemma LacksSameLength(s: Bytes, p: Bytes, j: nat)
    requires |s| == |p| && j < |p| && s[j] != p[j]
    ensures !Contains(s, p)
  {
    assert s[0..|p|] == s;
  }

  lemma ContainsAt(s: Bytes, p: Bytes, k: nat)
    requires |p| > 0 && OccursAt(s, p, k)
    ensures Contains(s, p)
  {
  }

  /**
   * For a feature the sanitiser leaves alone, the name depends only on the
   * part-of-speech field before the first comma.
   */
  lemma MapPosToTypeOfField(pos: Bytes, rest: Bytes)
    requires COMMA !in pos
    requires TextProcessor.Clean(pos + [COMMA] + rest)
    ensures MapPosToType(Some(pos + [COMMA] + rest)) == FieldToType(pos)
  {
    var f := pos + [COMMA] + rest;
    TextProcessor.CleanIsFixedFrom(f, 0);
    assert f[0..] == f;
    var r := FirstField(f);
    assert f[|pos|] == COMMA;
    assert r == pos;
  }

  // ---------------------------------------------------------------------------
  // Detailed part of speech

  /** Field `k`, or the empty string when there are fewer fields. */
  function FieldOrEmpty(fields: seq<Bytes>, k: nat): Bytes {
    if k < |fields| then fields[k] else []
  }

  /** Field `k` unless it is missing or "*", the IPAdic placeholder; then the empty string. */
  function ValueOrEmpty(fields: seq<Bytes>, k: nat): Bytes {
    if k < |fields| && fields[k] != Asterisk then fields[k] else []
  }

  /** `parseDetailedPOS` with a UTF-8 system charset. */
  function ParseDetailedPos(feature: Option<Bytes>): (p: DetailedPos)
    ensures feature.None? ==> p == EmptyPos
  {
    match feature
    case None => EmptyPos
    case Some(f) =>
      var fields := SplitFields(f);
      DetailedPos(
        FieldOrEmpty(fields, 0), FieldOrEmpty(fields, 1), FieldOrEmpty(fields, 2),
        FieldOrEmpty(fields, 3), FieldOrEmpty(fields, 4), FieldOrEmpty(fields, 5),
        ValueOrEmpty(fields, 6), ValueOrEmpty(fields, 7), ValueOrEmpty(fields, 8))
  }

  /**
   * On a full nine-field IPAdic feature, the first six fields are copied as
   * they are (a "*" included) and the last three are kept unless they are "*".
   */
  lemma ParseNineFields(fields: seq<Bytes>)
    requires |fields| == 9 && |fields[8]| > 0
    requires forall k :: 0 <= k < 9 ==> COMMA !in fields[k]
    ensures var p := ParseDetailedPos(Some(Join(fields)));
      && p.mainPos == fields[0] && p.subPos1 == fields[1] && p.subPos2 == fields[2]
      && p.subPos3 == fields[3] && p.inflection == fields[4] && p.conjugation == fields[5]
      && p.baseForm == (if fields[6] == Asterisk then [] else fields[6])
      && p.reading == (if fields[7] == Asterisk then [] else fields[7])
      && p.pronunciation == (if fields[8] == Asterisk then [] else fields[8])
  {
    SplitJoin(fields);
  }

  /**
   * `parseFeatureDetails` with conversion skipped: each of the three
   * out-parameters takes its field when the field exists and is not "*", and
   * is otherwise left as it was.
   */
  method ParseFeatureDetails(feature: Option<Bytes>, baseForm: Bytes, reading: Bytes, pronunciation: Bytes)
    returns (baseForm': Bytes, reading': Bytes, pronunciation': Bytes)
    ensures feature.None? ==> baseForm' == baseForm && reading' == reading && pronunciation' == pronunciation
    ensures feature.Some? ==>
      var fields := SplitFields(feature.value);
      && baseForm' == (if 6 < |fields| && fields[6] != Asterisk then fields[6] else baseForm)
      && reading' == (if 7 < |fields| && fields[7] != Asterisk then fields[7] else reading)
      && pronunciation' == (if 8 < |fields| && fields[8] != Asterisk then fields[8] else pronunciation)
    ensures baseForm == [] && reading == [] && pronunciation == [] ==>
      var p := ParseDetailedPos(feature);
      baseForm' == p.baseForm && reading' == p.reading && pronunciation' == p.pronunciation
  {
    baseForm', reading', pronunciation' := baseForm, reading, pronunciation;
    if feature.None? {
      return;
    }
    var fields := SplitFeature(feature.value);
    if |fields| >= 7 && fields[6] != Asterisk {
      baseForm' := fields[6];
    }
    if |fields| >= 8 && fields[7] != Asterisk {
      reading' := fields[7];
    }
    if |fields| >= 9 && fields[8] != Asterisk {
      pronunciation' := fields[8];
    }
  }

  // ---------------------------------------------------------------------------
  // Character types and modifiers

  datatype CharTypes = CharTypes(kana: bool, kanji: bool, number: bool)

  const NoCharTypes := CharTypes(false, false, false)

  predicate IsDigit(c: Byte) { 0x30 <= c <= 0x39 }

  /** A three-byte hiragana or katakana character: lead E3, second byte 81, 82 or 83. */
  predicate IsKanaAt(text: Bytes, i: nat)
    requires i + 1 < |text|
  {
    text[i] == 0xE3 && (text[i + 1] == 0x81 || text[i + 1] == 0x82 || text[i + 1] == 0x83)
  }

  /** A lead byte E4 to E9, taken as a CJK ideograph. */
  predicate IsKanjiLead(c: Byte) { 0xE4 <= c <= 0xE9 }

  /** The character types seen in `[i, end)`, a multi-byte character being classified only when its three bytes lie in the range. */
  function CharTypesFrom(text: Bytes, i: nat, end: nat, acc: CharTypes): CharTypes
    requires end <= |text|
    decreases end - i
  {
    if i >= end then acc
    else
      var c := text[i];
      if IsDigit(c) then CharTypesFrom(text, i + 1, end, acc.(number := true))
      else if c < 0x80 then CharTypesFrom(text, i + 1, end, acc)
      else if i + 2 < end && IsKanaAt(text, i) then CharTypesFrom(text, i + 3, end, acc.(kana := true))
      else if i + 2 < end && IsKanjiLead(c) then CharTypesFrom(text, i + 3, end, acc.(kanji := true))
      else CharTypesFrom(text, i + 1, end, acc)
  }

  /** The inspected range: `length` bytes from `start`, cut at the end of the text. */
  function RangeEnd(text: Bytes, start: nat, length: nat): nat {
    if start + length < |text| then start + length else |text|
  }

  function CharTypesOf(text: Bytes, start: nat, length: nat): CharTypes {
    CharTypesFrom(text, start, RangeEnd(text, start, length), NoCharTypes)
  }

  /** `analyzeCharacterTypes`: clear the three flags, then scan the token's bytes. */
  method AnalyzeCharacterTypes(text: Bytes, start: nat, length: nat)
    returns (hasKana: bool, hasKanji: bool, hasNumber: bool)
    ensures CharTypes(hasKana, hasKanji, hasNumber) == CharTypesOf(text, start, length)
  {
    hasKana, hasKanji, hasNumber := false, false, false;
    var end := RangeEnd(text, start, length);
    var i := start;
    while i < end
      invariant CharTypesFrom(text, i, end, CharTypes(hasKana, hasKanji, hasNumber))
             == CharTypesOf(text, start, length)
      decreases end - i
    {
      var c := text[i];
      if IsDigit(c) {
        hasNumber := true;
        i := i + 1;
      } else if c < 0x80 {
        i := i + 1;
      } else if i + 2 < end && IsKanaAt(text, i) {
        hasKana := true;
        i := i + 3;
      } else if i + 2 < end && IsKanjiLead(c) {
        hasKanji := true;
        i := i + 3;
      } else {
        i := i + 1;
      }
    }
  }

  lemma {:induction false} AsciiCharTypesFrom(text: Bytes, i: nat, end: nat, acc: CharTypes)
    requires end <= |text|
    requires forall k :: i <= k < end ==> text[k] < 0x80
    ensures var r := CharTypesFrom(text, i, end, acc);
      && r.kana == acc.kana && r.kanji == acc.kanji
      && (r.number <==> acc.number || exists k :: i <= k < end && IsDigit(text[k]))
    decreases end - i
  {
    if i < end {
      var acc' := if IsDigit(text[i]) then acc.(number := true) else acc;
      AsciiCharTypesFrom(text, i + 1, end, acc');
    }
  }

  /** An ASCII token has neither kana nor kanji, and has the number flag exactly when it holds a digit. */
  lemma AsciiCharTypes(text: Bytes, start: nat, length: nat)
    requires AllAscii(text)
    ensures var r := CharTypesOf(text, start, length);
      && !r.kana && !r.kanji
      && (r.number <==> exists k :: start <= k < RangeEnd(text, start, length) && IsDigit(text[k]))
  {
    AsciiCharTypesFrom(text, start, RangeEnd(text, start, length), NoCharTypes);
  }

  lemma {:induction false} CharTypesMonotone(text: Bytes, i: nat, end: nat, acc: CharTypes)
    requires end <= |text|
    ensures var r := CharTypesFrom(text, i, end, acc);
      (acc.kana ==> r.kana) && (acc.kanji ==> r.kanji) && (acc.number ==> r.number)
    decreases end - i
  {
    if i < end {
      var c := text[i];
      if IsDigit(c) {
        CharTypesMonotone(text, i + 1, end, acc.(number := true));
      } else if c < 0x80 {
        CharTypesMonotone(text, i + 1, end, acc);
      } else if i + 2 < end && IsKanaAt(text, i) {
        CharTypesMonotone(text, i + 3, end, acc.(kana := true));
      } else if i + 2 < end && IsKanjiLead(c) {
        CharTypesMonotone(text, i + 3, end, acc.(kanji := true));
      } else {
        CharTypesMonotone(text, i + 1, end, acc);
      }
    }
  }

  /**
   * A kana character at the start of the range sets the kana flag, a kanji
   * lead sets the kanji flag, but a kana character cut by the range's end
   * sets nothing.
   */
  lemma CharTypesOfFirstCharacter(text: Bytes, start: nat, length: nat)
    requires start + 2 < RangeEnd(text, start, length)
    ensures IsKanaAt(text, start) ==> CharTypesOf(text, start, length).kana
    ensures IsKanjiLead(text[start]) ==> CharTypesOf(text, start, length).kanji
  {
    var end := RangeEnd(text, start, length);
    if IsKanaAt(text, start) {
      CharTypesMonotone(text, start + 3, end, NoCharTypes.(kana := true));
    } else if IsKanjiLead(text[start]) {
      CharTypesMonotone(text, start + 3, end, NoCharTypes.(kanji := true));
    }
  }

  lemma TruncatedKanaIsIgnored()
    ensures CharTypesOf([0xE3, 0x81, 0x82], 0, 2) == NoCharTypes
  {
  }

  /** The modifier bits of a token with the given character types and feature. */
  function ModifierBits(ct: CharTypes, feature: Option<Bytes>): (mods: bv32)
    ensures mods < 0x20
    ensures (mods & 0x01 != 0) <==> ct.kana
    ensures (mods & 0x02 != 0) <==> ct.kanji
    ensures (mods & 0x04 != 0) <==> ct.number
    ensures (mods & 0x08 != 0) <==> (feature.Some? && Contains(feature.value, KoyuuMeishi))
    ensures (mods & 0x10 != 0) <==>
      (feature.Some? && Contains(feature.value, Doushi) && Contains(feature.value, Jiritsu))
  {
    (if ct.kana then 0x01 else 0)
    | (if ct.kanji then 0x02 else 0)
    | (if ct.number then 0x04 else 0)
    | (if feature.Some? && Contains(feature.value, KoyuuMeishi) then 0x08 else 0)
    | (if feature.Some? && Contains(feature.value, Doushi) && Contains(feature.value, Jiritsu) then 0x10 else 0)
  }

  /** `computeModifiers`: character-type bits, then the proper-noun and independent-verb bits. */
  method ComputeModifiers(text: Bytes, start: nat, length: nat, feature: Option<Bytes>) returns (mods: bv32)
    ensures mods == ModifierBits(CharTypesOf(text, start, length), feature)
  {
    mods := 0;
    var hasKana, hasKanji, hasNumber := AnalyzeCharacterTypes(text, start, length);
    if hasKana {
      mods := mods | 0x01;
    }
    if hasKanji {
      mods := mods | 0x02;
    }
    if hasNumber {
      mods := mods | 0x04;
    }
    if feature.Some? {
      var f := feature.value;
      if Contains(f, KoyuuMeishi) {
        mods := mods | 0x08;
      }
      if Contains(f, Doushi) && Contains(f, Jiritsu) {
        mods := mods | 0x10;
      }
    }
  }

  /**
   * The computed bits do not follow the advertised legend: a token of plain
   * hiragana gets bit 0, which the legend names "proper", and a proper noun
   * gets bit 3, which the legend names "kanji".
   */
  lemma ModifierBitsDisagreeWithLegend(feature: Bytes)
    requires Contains(feature, KoyuuMeishi)
    ensures ModifierBits(CharTypesOf([0xE3, 0x81, 0x82], 0, 3), None) == ModProper
    ensures ModifierLegend[0] == "proper"
    ensures ModifierBits(NoCharTypes, Some(feature)) & ModKanji != 0
    ensures ModifierLegend[3] == "kanji"
  {
  }
}
