/**
 * The body text of an HTML document (`collectHtmlContentRanges`): the
 * spans of the parse tree's `text` nodes, with the white space at either
 * end trimmed off.  The parse tree is the tree-sitter tree the server
 * builds; it is an input here (`SyntaxNode`), and the walk over it keeps
 * its own stack of nodes still to visit, exactly as the comment extractor
 * does.
 */
module HtmlContent {
  import opened ByteText
  import opened LspTypes
  import opened CommentExtractor

  /** The node type of HTML body text, "text". */
  const TextType: Bytes := [0x74, 0x65, 0x78, 0x74]

  /** The first byte at or after `i` and before `end` that is not white space (`end` when there is none). */
  function TrimStart(text: Bytes, i: nat, end: nat): (r: nat)
    requires i <= end <= |text|
    ensures i <= r <= end
    ensures r < end ==> !IsCSpace(text[r])
    decreases end - i
  {
    if i < end && IsCSpace(text[i]) then TrimStart(text, i + 1, end) else i
  }

  /** The end of `[lo, j)` once the white space at its end is dropped. */
  function TrimEnd(text: Bytes, lo: nat, j: nat): (r: nat)
    requires lo <= j <= |text|
    ensures lo <= r <= j
    ensures r > lo ==> !IsCSpace(text[r - 1])
    decreases j - lo
  {
    if j > lo && IsCSpace(text[j - 1]) then TrimEnd(text, lo, j - 1) else j
  }

  /** Only white space lies between `i` and what `TrimStart` returns. */
  lemma {:induction false} TrimStartSkipsSpace(text: Bytes, i: nat, end: nat)
    requires i <= end <= |text|
    ensures forall k :: i <= k < TrimStart(text, i, end) ==> IsCSpace(text[k])
    decreases end - i
  {
    if i < end && IsCSpace(text[i]) {
      TrimStartSkipsSpace(text, i + 1, end);
    }
  }

  /** Only white space lies between what `TrimEnd` returns and `j`. */
  lemma {:induction false} TrimEndSkipsSpace(text: Bytes, lo: nat, j: nat)
    requires lo <= j <= |text|
    ensures forall k :: TrimEnd(text, lo, j) <= k < j ==> IsCSpace(text[k])
    decreases j - lo
  {
    if j > lo && IsCSpace(text[j - 1]) {
      TrimEndSkipsSpace(text, lo, j - 1);
    }
  }

  /** The range a `text` node gives: its span trimmed, when that span lies inside the text and is not all white space. */
  function NodeRanges(text: Bytes, n: SyntaxNode): (r: seq<ByteRange>)
    ensures |r| <= 1
  {
    if n.startByte < n.endByte <= |text| then
      var s := TrimStart(text, n.startByte, n.endByte);
      var e := TrimEnd(text, s, n.endByte);
      if e > s then [ByteRange(s, e)] else []
    else []
  }

  /** The content ranges of a tree, in the order the stack walk meets them (the last child first). */
  function TreeRanges(text: Bytes, n: SyntaxNode): seq<ByteRange>
    decreases n
  {
    if n.nodeType == TextType then NodeRanges(text, n) else StackRanges(text, n.children)
  }

  /** The content ranges of the trees on a stack, the top (last) tree first. */
  function StackRanges(text: Bytes, ns: seq<SyntaxNode>): seq<ByteRange>
    decreases ns
  {
    if |ns| == 0 then [] else TreeRanges(text, ns[|ns| - 1]) + StackRanges(text, ns[..|ns| - 1])
  }

  /** Pushing trees onto a stack puts their ranges first, the last pushed first of all. */
  lemma {:induction false} StackRangesAppend(text: Bytes, xs: seq<SyntaxNode>, cs: seq<SyntaxNode>)
    ensures StackRanges(text, xs + cs) == StackRanges(text, cs) + StackRanges(text, xs)
    ensures ForestSize(xs + cs) == ForestSize(xs) + ForestSize(cs)
    decreases |cs|
  {
    if |cs| == 0 {
      assert xs + cs == xs;
    } else {
      var init := cs[..|cs| - 1];
      assert (xs + cs)[..|xs + cs| - 1] == xs + init;
      assert (xs + cs)[|xs + cs| - 1] == cs[|cs| - 1];
      StackRangesAppend(text, xs, init);
    }
  }

  /** `collectHtmlContentRanges` on a document whose parse tree is `root`. */
  method CollectHtmlContentRanges(text: Bytes, root: SyntaxNode) returns (ranges: seq<ByteRange>)
    ensures ranges == TreeRanges(text, root)
  {
    ranges := [];
    var stack := [root];
    assert stack[..0] == [];
    while |stack| > 0
      invariant ranges + StackRanges(text, stack) == TreeRanges(text, root)
      decreases ForestSize(stack)
    {
      var node := stack[|stack| - 1];
      assert ForestSize(stack) == ForestSize(stack[..|stack| - 1]) + Size(node);
      stack := stack[..|stack| - 1];
      if node.nodeType == TextType {
        var found := TextNodeRange(text, node);
        ranges := ranges + found;
      } else {
        StackRangesAppend(text, stack, node.children);
        stack := stack + node.children;
      }
    }
  }

  /** A `text` node met by the walk: its span with the white space at both ends moved past. */
  method TextNodeRange(text: Bytes, node: SyntaxNode) returns (found: seq<ByteRange>)
    ensures found == NodeRanges(text, node)
  {
    found := [];
    var start, end := node.startByte, node.endByte;
    if start >= end || end > |text| {
      return;
    }
    var trimmedStart := start;
    while trimmedStart < end && IsCSpace(text[trimmedStart])
      invariant start <= trimmedStart <= end
      invariant TrimStart(text, trimmedStart, end) == TrimStart(text, start, end)
      decreases end - trimmedStart
    {
      trimmedStart := trimmedStart + 1;
    }
    var trimmedEnd := end;
    while trimmedEnd > trimmedStart && IsCSpace(text[trimmedEnd - 1])
      invariant trimmedStart <= trimmedEnd <= end
      invariant TrimEnd(text, trimmedStart, trimmedEnd) == TrimEnd(text, trimmedStart, end)
      decreases trimmedEnd
    {
      trimmedEnd := trimmedEnd - 1;
    }
    if trimmedEnd > trimmedStart {
      found := [ByteRange(trimmedStart, trimmedEnd)];
    }
  }

  /**
   * A trimmed range of `text`: a non-empty span inside it that starts and
   * ends with a byte other than white space.
   */
  predicate TrimmedRange(text: Bytes, r: ByteRange) {
    && r.startByte < r.endByte <= |text|
    && !IsCSpace(text[r.startByte])
    && !IsCSpace(text[r.endByte - 1])
  }

  /**
   * A `text` node's range is its span less the white space at both ends:
   * what is cut off is all white space, and what is left starts and ends
   * with visible bytes.  A node of white space only gives no range.
   */
  lemma NodeRangesShape(text: Bytes, n: SyntaxNode)
    ensures forall r :: r in NodeRanges(text, n) ==>
      && TrimmedRange(text, r)
      && n.startByte <= r.startByte && r.endByte <= n.endByte
      && (forall k :: n.startByte <= k < r.startByte ==> IsCSpace(text[k]))
      && (forall k :: r.endByte <= k < n.endByte ==> IsCSpace(text[k]))
    ensures n.startByte < n.endByte <= |text| && NodeRanges(text, n) == [] ==>
      forall k :: n.startByte <= k < n.endByte ==> IsCSpace(text[k])
  {
    if n.startByte < n.endByte <= |text| {
      var s := TrimStart(text, n.startByte, n.endByte);
      TrimStartSkipsSpace(text, n.startByte, n.endByte);
      TrimEndSkipsSpace(text, s, n.endByte);
    }
  }

  lemma {:induction false} TreeRangesTrimmed(text: Bytes, n: SyntaxNode)
    ensures forall r :: r in TreeRanges(text, n) ==> TrimmedRange(text, r)
    decreases n
  {
    if n.nodeType == TextType {
      NodeRangesShape(text, n);
    } else {
      StackRangesTrimmed(text, n.children);
    }
  }

  lemma {:induction false} StackRangesTrimmed(text: Bytes, ns: seq<SyntaxNode>)
    ensures forall r :: r in StackRanges(text, ns) ==> TrimmedRange(text, r)
    decreases ns
  {
    if |ns| > 0 {
      TreeRangesTrimmed(text, ns[|ns| - 1]);
      StackRangesTrimmed(text, ns[..|ns| - 1]);
    }
  }

  /** Every HTML content range is a non-empty span of the document that starts and ends with a visible byte. */
  lemma HtmlContentRangesTrimmed(text: Bytes, root: SyntaxNode)
    ensures forall r :: r in TreeRanges(text, root) ==> TrimmedRange(text, r)
  {
    TreeRangesTrimmed(text, root);
  }

  /** A document whose tree is one `text` node gives its trimmed body: " hi " gives [1, 3). */
  lemma TrimExample()
    ensures TreeRanges([SPACE, 0x68, 0x69, SPACE], SyntaxNode(TextType, 0, 4, [])) == [ByteRange(1, 3)]
  {
    var text: Bytes := [SPACE, 0x68, 0x69, SPACE];
    assert TrimStart(text, 1, 4) == 1;
    assert TrimStart(text, 0, 4) == 1;
    assert TrimEnd(text, 1, 3) == 3;
    assert TrimEnd(text, 1, 4) == 3;
  }
}
