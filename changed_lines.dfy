/**
 * Which lines an edit touched (`findChangedLines`): both texts are split
 * into lines the way `std::getline` reads them, and a line number is
 * reported when the line is missing from either text or differs.
 */
module LineDiff {
  import opened ByteText

  /**
   * The lines `std::getline` reads from `text` starting at byte `pos`:
   * each ends before a `\n`, which is dropped; a last line without a `\n`
   * is read too, and nothing is read once the text is used up, so a
   * trailing `\n` adds no empty line.
   */
  function LinesFrom(text: Bytes, pos: nat): seq<Bytes>
    decreases |text| - pos
  {
    if pos >= |text| then []
    else match FindByte(text, NL, pos)
      case None => [text[pos..]]
      case Some(e) => [text[pos..e]] + LinesFrom(text, e + 1)
  }

  function Lines(text: Bytes): seq<Bytes> {
    LinesFrom(text, 0)
  }

  /** The getline loop: read lines until the stream is used up. */
  method SplitLines(text: Bytes) returns (lines: seq<Bytes>)
    ensures lines == Lines(text)
  {
    lines := [];
    var pos := 0;
    while pos < |text|
      invariant pos <= |text|
      invariant lines + LinesFrom(text, pos) == Lines(text)
      decreases |text| - pos
    {
      var next := FindByte(text, NL, pos);
      if next.None? {
        lines := lines + [text[pos..]];
        pos := |text|;
      } else {
        lines := lines + [text[pos..next.value]];
        pos := next.value + 1;
      }
    }
  }

  /** The lines joined again, a `\n` between each two. */
  function Join(lines: seq<Bytes>): Bytes {
    if |lines| == 0 then []
    else if |lines| == 1 then lines[0]
    else lines[0] + [NL] + Join(lines[1..])
  }

  /** `s` without its final `\n`, if it has one. */
  function DropFinalNewline(s: Bytes): (r: Bytes)
    ensures |r| <= |s|
  {
    if |s| > 0 && s[|s| - 1] == NL then s[..|s| - 1] else s
  }

  /** The bytes of `text` from `lo` to `hi` hold no `\n`. */
  lemma NoNewlineIn(text: Bytes, lo: nat, hi: nat)
    requires lo <= hi <= |text|
    requires forall k :: lo <= k < hi ==> text[k] != NL
    ensures NL !in text[lo..hi]
  {
    forall k | 0 <= k < hi - lo ensures text[lo..hi][k] != NL {
      assert text[lo..hi][k] == text[lo + k];
    }
  }

  /** A line that ends at the `\n` at `e`, followed by the lines after it. */
  lemma JoinStep(text: Bytes, pos: nat, e: nat, rest: seq<Bytes>)
    requires pos <= e < |text| && text[e] == NL
    requires Join(rest) == DropFinalNewline(text[e + 1..])
    requires e + 1 == |text| <==> rest == []
    ensures Join([text[pos..e]] + rest) == DropFinalNewline(text[pos..])
  {
    if e + 1 < |text| {
      JoinMore(text, pos, e, rest);
    } else {
      assert [text[pos..e]] + rest == [text[pos..e]];
      assert text[pos..][..|text| - pos - 1] == text[pos..e];
    }
  }

  lemma JoinMore(text: Bytes, pos: nat, e: nat, rest: seq<Bytes>)
    requires pos <= e && e + 1 < |text| && text[e] == NL
    requires Join(rest) == DropFinalNewline(text[e + 1..])
    requires rest != []
    ensures Join([text[pos..e]] + rest) == DropFinalNewline(text[pos..])
  {
    var line := text[pos..e];
    var whole := text[pos..];
    var after := text[e + 1..];
    assert ([line] + rest)[1..] == rest;
    assert Join([line] + rest) == line + [NL] + Join(rest);
    assert whole == line + [NL] + after;
    assert whole[|whole| - 1] == after[|after| - 1];
    if after[|after| - 1] == NL {
      assert whole[..|whole| - 1] == line + [NL] + after[..|after| - 1];
    }
  }

  lemma {:induction false} LinesFromJoin(text: Bytes, pos: nat)
    requires pos <= |text|
    ensures Join(LinesFrom(text, pos)) == DropFinalNewline(text[pos..])
    decreases |text| - pos
  {
    if pos < |text| {
      match FindByte(text, NL, pos)
      case None =>
        assert LinesFrom(text, pos) == [text[pos..]];
        assert text[pos..][|text| - pos - 1] != NL;
      case Some(e) =>
        var rest := LinesFrom(text, e + 1);
        assert LinesFrom(text, pos) == [text[pos..e]] + rest;
        LinesFromJoin(text, e + 1);
        assert rest == [] <==> e + 1 == |text|;
        JoinStep(text, pos, e, rest);
    }
  }

  lemma {:induction false} LinesFromNoNewline(text: Bytes, pos: nat)
    ensures forall line :: line in LinesFrom(text, pos) ==> NL !in line
    decreases |text| - pos
  {
    if pos < |text| {
      match FindByte(text, NL, pos)
      case None =>
        NoNewlineIn(text, pos, |text|);
        assert text[pos..] == text[pos..|text|];
      case Some(e) =>
        var rest := LinesFrom(text, e + 1);
        assert LinesFrom(text, pos) == [text[pos..e]] + rest;
        NoNewlineIn(text, pos, e);
        LinesFromNoNewline(text, e + 1);
    }
  }

  /**
   * Splitting loses nothing but a final newline: the lines hold no `\n`,
   * and joined with `\n` they give back the text, less its last `\n` when
   * it ends with one.
   */
  lemma LinesJoin(text: Bytes)
    ensures Join(Lines(text)) == DropFinalNewline(text)
    ensures forall line :: line in Lines(text) ==> NL !in line
  {
    LinesFromJoin(text, 0);
    LinesFromNoNewline(text, 0);
    assert text[0..] == text;
  }

  /** Texts with the same lines are the same text, but for a final newline. */
  lemma SameLines(a: Bytes, b: Bytes)
    requires Lines(a) == Lines(b)
    ensures DropFinalNewline(a) == DropFinalNewline(b)
  {
    LinesJoin(a);
    LinesJoin(b);
  }

  /**
   * The line numbers below the longer line count at which one text has no
   * line or the two lines differ.
   */
  function Changed(oldLines: seq<Bytes>, newLines: seq<Bytes>): set<int> {
    set i: int | 0 <= i < MaxCount(oldLines, newLines) && LineChanged(oldLines, newLines, i)
  }

  /** Line `i` is missing from one of the texts or differs between them. */
  predicate LineChanged(oldLines: seq<Bytes>, newLines: seq<Bytes>, i: nat) {
    i >= |oldLines| || i >= |newLines| || oldLines[i] != newLines[i]
  }

  function MaxCount(a: seq<Bytes>, b: seq<Bytes>): nat {
    if |a| > |b| then |a| else |b|
  }

  function ChangedLines(oldText: Bytes, newText: Bytes): set<int> {
    Changed(Lines(oldText), Lines(newText))
  }

  /** `findChangedLines`: split both texts, then compare them line by line. */
  method FindChangedLines(oldText: Bytes, newText: Bytes) returns (changed: set<int>)
    ensures changed == ChangedLines(oldText, newText)
  {
    var oldLines := SplitLines(oldText);
    var newLines := SplitLines(newText);
    var maxLines := MaxCount(oldLines, newLines);
    changed := {};
    for i := 0 to maxLines
      invariant changed == set j: int | 0 <= j < i && j in Changed(oldLines, newLines)
    {
      var oldExists := i < |oldLines|;
      var newExists := i < |newLines|;
      if !oldExists || !newExists || oldLines[i] != newLines[i] {
        changed := changed + {i};
      }
      assert LineChanged(oldLines, newLines, i) <==> i in changed;
    }
  }

  /**
   * A line number is reported exactly when it is below the larger line
   * count and the two texts do not have the same line there; no number is
   * reported for texts with the same lines, and the comparison does not
   * depend on which text is the old one.
   */
  lemma ChangedLinesSpec(oldText: Bytes, newText: Bytes)
    ensures forall i: int :: i in ChangedLines(oldText, newText) <==>
      0 <= i && (i < |Lines(oldText)| || i < |Lines(newText)|) &&
      !(i < |Lines(oldText)| && i < |Lines(newText)| && Lines(oldText)[i] == Lines(newText)[i])
    ensures ChangedLines(oldText, newText) == ChangedLines(newText, oldText)
    ensures ChangedLines(oldText, newText) == {} <==> Lines(oldText) == Lines(newText)
  {
    var a, b := Lines(oldText), Lines(newText);
    forall i: int
      ensures i in Changed(a, b) <==> 0 <= i && (i < |a| || i < |b|) && !(i < |a| && i < |b| && a[i] == b[i])
      ensures i in Changed(a, b) <==> i in Changed(b, a)
    {
      if 0 <= i < MaxCount(a, b) && LineChanged(a, b, i) {
        assert i in Changed(a, b);
        assert MaxCount(b, a) == MaxCount(a, b) && LineChanged(b, a, i);
        assert i in Changed(b, a);
      }
    }
    assert Changed(a, b) == Changed(b, a);
    if a != b {
      if |a| != |b| {
        var i := if |a| < |b| then |a| else |b|;
        assert i < MaxCount(a, b);
        assert i in Changed(a, b);
      } else {
        var i :| 0 <= i < |a| && a[i] != b[i];
        assert i < MaxCount(a, b);
        assert i in Changed(a, b);
      }
    }
  }

  /** An edit inside a one-line text changes line 0 only. */
  lemma OneLineEdit(a: Bytes, b: Bytes)
    requires a == Ascii("ABCDEF") && b == Ascii("ABXYEF")
    ensures ChangedLines(a, b) == {0}
  {
    assert FindByte(a, NL, 0).None?;
    assert FindByte(b, NL, 0).None?;
    assert a[0..] == a && b[0..] == b;
    assert a[2] != b[2];
    assert Lines(a) == [a];
    assert Lines(b) == [b];
    assert a != b;
    assert MaxCount([a], [b]) == 1;
    assert 0 in Changed([a], [b]);
  }

  /** Appending a line to "a\n" reports the new line 1 only: the final newline made no empty line. */
  lemma AppendedLine(a: Bytes, b: Bytes)
    requires a == [0x61, NL] && b == [0x61, NL, 0x62]
    ensures ChangedLines(a, b) == {1}
  {
    FindByteAt(a, NL, 0, 1);
    FindByteAt(b, NL, 0, 1);
    assert a[0..1] == b[0..1] == [0x61];
    assert LinesFrom(a, 2) == [];
    assert Lines(a) == [[0x61]] + LinesFrom(a, 2);
    assert b[2..] == [0x62];
    assert FindByte(b, NL, 2).None?;
    assert LinesFrom(b, 2) == [[0x62]];
    assert Lines(b) == [[0x61]] + LinesFrom(b, 2);
    assert MaxCount(Lines(a), Lines(b)) == 2;
    assert 0 !in Changed(Lines(a), Lines(b));
    assert 1 in Changed(Lines(a), Lines(b));
  }
}
