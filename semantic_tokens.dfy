/**
 * The semantic-token encoding of the protocol (`buildSemanticTokensFromTokens`):
 * five integers per token, the line and start column relative to the token
 * before it, the length, the index of the token type in the legend and the
 * modifier bits.  A client recovers absolute positions by summing the
 * deltas, which `Placed` states on its own terms.
 */
module SemanticTokens {
  import opened LspTypes

  /** The index of the first legend entry from `j` on equal to `t`, or 0 when there is none. */
  function IndexFrom(legend: seq<string>, t: string, j: nat): nat
    decreases |legend| - j
  {
    if j >= |legend| then 0
    else if legend[j] == t then j
    else IndexFrom(legend, t, j + 1)
  }

  lemma {:induction false} IndexFromFirst(legend: seq<string>, t: string, j: nat)
    requires j <= |legend|
    ensures t in legend[j..] ==>
      var i := IndexFrom(legend, t, j); j <= i < |legend| && legend[i] == t && t !in legend[j..i]
    ensures t !in legend[j..] ==> IndexFrom(legend, t, j) == 0
    decreases |legend| - j
  {
    if j < |legend| && legend[j] != t {
      assert legend[j..] == [legend[j]] + legend[j + 1..];
      IndexFromFirst(legend, t, j + 1);
      var i := IndexFrom(legend, t, j + 1);
      assert t in legend[j + 1..] ==> legend[j..i] == [legend[j]] + legend[j + 1..i];
    }
  }

  /**
   * `std::find` over the token-type legend: the first index naming `t`, or
   * 0 for a name not in it.  The server's legend is `TokenTypeLegend`,
   * where 0 names nouns.
   */
  function TypeIndex(legend: seq<string>, t: string): (i: nat)
    ensures t in legend ==> i < |legend| && legend[i] == t && t !in legend[..i]
    ensures t !in legend ==> i == 0
  {
    IndexFromFirst(legend, t, 0);
    assert legend[0..] == legend;
    IndexFrom(legend, t, 0)
  }

  /** The line and start column of the last token of `ts`; (0, 0) when there is none. */
  function LastPlace(ts: seq<TokenData>): (int, int) {
    if |ts| == 0 then (0, 0) else (ts[|ts| - 1].line, ts[|ts| - 1].startChar)
  }

  /** The five integers of token `t`, placed relative to a token at line `prevLine`, column `prevChar`. */
  function Entry(legend: seq<string>, prevLine: int, prevChar: int, t: TokenData): (e: seq<int>)
    ensures |e| == 5
  {
    var deltaLine := t.line - prevLine;
    [deltaLine, if deltaLine == 0 then t.startChar - prevChar else t.startChar,
     t.endChar - t.startChar, TypeIndex(legend, t.tokenType), t.tokenModifiers as int]
  }

  /** The encoding of a token list: each token's entry relative to the token before it. */
  function Encode(legend: seq<string>, ts: seq<TokenData>): (data: seq<int>)
    ensures |data| == 5 * |ts|
  {
    if |ts| == 0 then []
    else
      var init := ts[..|ts| - 1];
      Encode(legend, init) + Entry(legend, LastPlace(init).0, LastPlace(init).1, ts[|ts| - 1])
  }

  /** The loop of `buildSemanticTokensFromTokens`, carrying the previous token's line and column. */
  method BuildSemanticTokensFromTokens(legend: seq<string>, tokens: seq<TokenData>) returns (data: seq<int>)
    ensures data == Encode(legend, tokens)
  {
    data := [];
    var prevLine, prevChar := 0, 0;
    for i := 0 to |tokens|
      invariant data == Encode(legend, tokens[..i])
      invariant (prevLine, prevChar) == LastPlace(tokens[..i])
    {
      var token := tokens[i];
      var deltaLine := token.line - prevLine;
      var deltaChar := if deltaLine == 0 then token.startChar - prevChar else token.startChar;
      var typeIndex := TypeIndex(legend, token.tokenType);
      var entry := [deltaLine, deltaChar, token.endChar - token.startChar, typeIndex, token.tokenModifiers as int];
      assert entry == Entry(legend, prevLine, prevChar, token);
      assert tokens[..i + 1][..i] == tokens[..i];
      assert Encode(legend, tokens[..i + 1]) == Encode(legend, tokens[..i]) + entry;
      data := data + entry;
      prevLine := token.line;
      prevChar := token.startChar;
    }
    assert tokens[..|tokens|] == tokens;
  }

  /**
   * Where a client decoding `data` places token `k`: the line is the sum of
   * the line deltas so far; the column is added to the previous token's
   * when the line did not change, and taken as it is on a new line.
   */
  function Placed(data: seq<int>, k: nat): (int, int)
    requires 5 * k + 5 <= |data|
    decreases k
  {
    var prev := if k == 0 then (0, 0) else Placed(data, k - 1);
    var deltaLine := data[5 * k];
    (prev.0 + deltaLine, if deltaLine == 0 then prev.1 + data[5 * k + 1] else data[5 * k + 1])
  }

  /** The encoding of a prefix of the tokens is the same prefix of the encoding. */
  lemma {:induction false} EncodePrefix(legend: seq<string>, ts: seq<TokenData>, m: nat)
    requires m <= |ts|
    ensures Encode(legend, ts[..m]) == Encode(legend, ts)[..5 * m]
    decreases |ts|
  {
    if m < |ts| {
      var init := ts[..|ts| - 1];
      EncodePrefix(legend, init, m);
      assert init[..m] == ts[..m];
    } else {
      assert ts[..m] == ts;
    }
  }

  /** Token `k`'s five integers sit at `5 * k` in the encoding, relative to token `k - 1`. */
  lemma EncodeAt(legend: seq<string>, ts: seq<TokenData>, k: nat)
    requires k < |ts|
    ensures Encode(legend, ts)[5 * k..5 * k + 5] == Entry(legend, LastPlace(ts[..k]).0, LastPlace(ts[..k]).1, ts[k])
  {
    EncodePrefix(legend, ts, k + 1);
    var pre := ts[..k + 1];
    assert pre[..|pre| - 1] == ts[..k];
    assert Encode(legend, ts)[5 * k..5 * k + 5] == Encode(legend, pre)[5 * k..5 * k + 5];
  }

  /** Decoding the first `k + 1` entries puts token `k` back at its line and start column. */
  lemma {:induction false} PlacedToken(legend: seq<string>, ts: seq<TokenData>, k: nat)
    requires k < |ts|
    ensures Placed(Encode(legend, ts), k) == (ts[k].line, ts[k].startChar)
    decreases k
  {
    EncodeAt(legend, ts, k);
    var data := Encode(legend, ts);
    assert data[5 * k] == Encode(legend, ts)[5 * k..5 * k + 5][0];
    assert data[5 * k + 1] == Encode(legend, ts)[5 * k..5 * k + 5][1];
    if k > 0 {
      PlacedToken(legend, ts, k - 1);
    }
  }

  /**
   * The encoding loses nothing a client needs: decoding it gives every
   * token back at its line and start column, with its length, its legend
   * index and its modifier bits.
   */
  lemma EncodeRoundTrip(legend: seq<string>, ts: seq<TokenData>)
    ensures |Encode(legend, ts)| == 5 * |ts|
    ensures forall k :: 0 <= k < |ts| ==>
      && Placed(Encode(legend, ts), k) == (ts[k].line, ts[k].startChar)
      && Encode(legend, ts)[5 * k + 2] == ts[k].endChar - ts[k].startChar
      && Encode(legend, ts)[5 * k + 3] == TypeIndex(legend, ts[k].tokenType)
      && Encode(legend, ts)[5 * k + 4] == ts[k].tokenModifiers as int
  {
    forall k | 0 <= k < |ts|
      ensures && Placed(Encode(legend, ts), k) == (ts[k].line, ts[k].startChar)
              && Encode(legend, ts)[5 * k + 2] == ts[k].endChar - ts[k].startChar
              && Encode(legend, ts)[5 * k + 3] == TypeIndex(legend, ts[k].tokenType)
              && Encode(legend, ts)[5 * k + 4] == ts[k].tokenModifiers as int
    {
      PlacedToken(legend, ts, k);
      EncodeAt(legend, ts, k);
      assert Encode(legend, ts)[5 * k + 2] == Encode(legend, ts)[5 * k..5 * k + 5][2];
      assert Encode(legend, ts)[5 * k + 3] == Encode(legend, ts)[5 * k..5 * k + 5][3];
      assert Encode(legend, ts)[5 * k + 4] == Encode(legend, ts)[5 * k..5 * k + 5][4];
    }
  }

  /** Legend lookups: "particle" is entry 4, "verb" entry 1, and a name outside the legend is sent as 0. */
  lemma TypeIndexExamples()
    ensures TypeIndex(TokenTypeLegend, "particle") == 4
    ensures TypeIndex(TokenTypeLegend, "verb") == 1
    ensures TypeIndex(TokenTypeLegend, "unrecognised") == 0
  {
    var L := TokenTypeLegend;
    assert L[4] == "particle";
    assert "particle" !in L[..4];
    assert L[1] == "verb";
    assert "verb" !in L[..1];
  }

  /** A second token on the same line is placed relative to the first; a token on a later line by its own column. */
  lemma EncodeExample(a: TokenData, b: TokenData, c: TokenData)
    requires a == TokenData(0, 2, 4, "noun", 0, [], [], [], [], [])
    requires b == TokenData(0, 5, 6, "particle", 0, [], [], [], [], [])
    requires c == TokenData(2, 1, 3, "verb", 8, [], [], [], [], [])
    ensures Encode(TokenTypeLegend, [a]) == [0, 2, 2, 0, 0]
    ensures Encode(TokenTypeLegend, [a, b]) == Encode(TokenTypeLegend, [a]) + [0, 3, 1, 4, 0]
    ensures Entry(TokenTypeLegend, b.line, b.startChar, c) == [2, 1, 2, 1, 8]
  {
    TypeIndexExamples();
    assert [a, b][..1] == [a];
    assert [a][..0] == [];
  }
}
