/** One construct's rewrite (`processNode` and `extractItems` in
    formatter.go): collapse the bracketed list onto one line when the whole
    line then fits, otherwise expand it into greedily packed lines, and
    splice the result over the span from the opening to the closing
    delimiter. Parser positions are given here as byte offsets. */
module Node {
  import opened Text
  import opened Columns
  import opened Whitespace
  import opened Lines
  import opened Pack

  /** An item's offsets: from its first byte to just past its last. */
  datatype Span = Span(start: int, end: int)

  /** A bracketed, comma-separated list (`wrappable`): the offsets of its
      opening and closing delimiters and of each item. */
  datatype Wrappable = Wrappable(open: int, close: int, items: seq<Span>)

  /** The parser never reports an item that ends before it starts. */
  predicate Ordered(spans: seq<Span>)
  {
    forall k :: 0 <= k < |spans| ==> spans[k].start <= spans[k].end
  }

  /** `extractItems` keeps an item only when both offsets lie in
      [0, len(src)]. */
  predicate InBuffer(span: Span, size: int)
  {
    0 <= span.start <= size && 0 <= span.end <= size
  }

  /** An item's text: trimmed, then normalised. */
  function ItemText(src: string, span: Span): string
    requires InBuffer(span, |src|) && span.start <= span.end
  {
    Normalize(TrimSpace(src[span.start..span.end]))
  }

  /** An item's text is its trimmed slice; when that slice spans several
      lines, it is put on one line as its words separated by single
      spaces. */
  lemma ItemTextWords(src: string, span: Span)
    requires InBuffer(span, |src|) && span.start <= span.end
    ensures var t := TrimSpace(src[span.start..span.end]);
            ItemText(src, span) == if '\n' in t then Join(Words(t), " ") else t
  {
    var t := TrimSpace(src[span.start..span.end]);
    TrimSpaceSlice(src[span.start..span.end]);
    NormalizeSpec(t);
  }

  /** The texts `extractItems` returns, in item order. */
  function ExtractedItems(src: string, spans: seq<Span>): seq<string>
    requires Ordered(spans)
  {
    if spans == [] then []
    else
      var init := ExtractedItems(src, spans[..|spans| - 1]);
      var last := spans[|spans| - 1];
      if InBuffer(last, |src|) then init + [ItemText(src, last)] else init
  }

  /** No text holds a newline; items outside the buffer are skipped, so
      there are at most as many texts as items, and none at all exactly when
      every item lies outside the buffer. */
  lemma {:induction false} ExtractedItemsSpec(src: string, spans: seq<Span>)
    requires Ordered(spans)
    ensures var texts := ExtractedItems(src, spans);
            && |texts| <= |spans|
            && (forall k :: 0 <= k < |texts| ==> '\n' !in texts[k])
            && (texts == [] <==> forall k :: 0 <= k < |spans| ==> !InBuffer(spans[k], |src|))
  {
    if spans != [] {
      var init := spans[..|spans| - 1];
      ExtractedItemsSpec(src, init);
      assert forall k :: 0 <= k < |init| ==> init[k] == spans[k];
    }
  }

  /** When every item lies in the buffer, each one yields its text, in
      order. */
  lemma {:induction false} ExtractedItemsAll(src: string, spans: seq<Span>)
    requires Ordered(spans) && forall k :: 0 <= k < |spans| ==> InBuffer(spans[k], |src|)
    ensures |ExtractedItems(src, spans)| == |spans|
    ensures forall k :: 0 <= k < |spans| ==> ExtractedItems(src, spans)[k] == ItemText(src, spans[k])
  {
    if spans != [] {
      var init := spans[..|spans| - 1];
      ExtractedItemsAll(src, init);
      assert forall k :: 0 <= k < |init| ==> init[k] == spans[k];
    }
  }

  /** The loop of `extractItems`. */
  method ExtractItems(src: string, n: Wrappable) returns (items: seq<string>)
    requires Ordered(n.items)
    ensures items == ExtractedItems(src, n.items)
  {
    items := [];
    for i := 0 to |n.items|
      invariant items == ExtractedItems(src, n.items[..i])
    {
      assert n.items[..i + 1][..i] == n.items[..i];
      var startOff := n.items[i].start;
      var endOff := n.items[i].end;
      if startOff < 0 || endOff < 0 || startOff > |src| || endOff > |src| {
        continue;
      }
      var text := TrimSpace(src[startOff..endOff]);
      text := NormalizeWhitespace(text);
      items := items + [text];
    }
    assert n.items[..|n.items|] == n.items;
  }

  predicate MultiLine(items: seq<string>)
  {
    exists k :: 0 <= k < |items| && '\n' in items[k]
  }

  /** The `hasMultiLineItem` scan of `processNode`. */
  method HasMultiLineItem(items: seq<string>) returns (found: bool)
    ensures found == MultiLine(items)
  {
    found := false;
    for i := 0 to |items|
      invariant !found
      invariant forall k :: 0 <= k < i ==> '\n' !in items[k]
    {
      if '\n' in items[i] {
        found := true;
        break;
      }
    }
  }

  /** The multi-line test of `processNode` looks at the normalised texts,
      which never hold a newline: it is always false. */
  lemma NoMultiLineItem(src: string, spans: seq<Span>)
    requires Ordered(spans)
    ensures !MultiLine(ExtractedItems(src, spans))
  {
    ExtractedItemsSpec(src, spans);
  }

  /** What `processNode` puts in place of the span from `open` to `close`,
      or None when it leaves the buffer alone. */
  function Replacement(src: string, n: Wrappable, maxLen: int, tabWidth: int): Option<string>
    requires tabWidth > 0 && Ordered(n.items)
  {
    if n.open < 0 || n.close < 0 || n.open >= |src| || n.close >= |src| then None
    else
      var items := ExtractedItems(src, n.items);
      if items == [] then None
      else
        var prefix := src[LineStart(src, n.open)..n.open];
        var indent := Indent(prefix);
        var single := [src[n.open]] + Join(items, ", ") + [src[n.close]];
        if !MultiLine(items) && Width(prefix + single, tabWidth) <= maxLen then Some(single)
        else Some([src[n.open]] + "\n" + PackText(items, indent + "\t", maxLen, tabWidth) + indent + [src[n.close]])
  }

  /** The buffer `processNode` returns. */
  function Rewrite(src: string, n: Wrappable, maxLen: int, tabWidth: int): string
    requires tabWidth > 0 && Ordered(n.items)
  {
    match Replacement(src, n, maxLen, tabWidth)
    case None => src
    case Some(text) => src[..n.open] + text + src[n.close + 1..]
  }

  /** `processNode`. */
  method ProcessNode(src: string, n: Wrappable, maxLen: int, tabWidth: int) returns (r: string)
    requires tabWidth > 0 && Ordered(n.items)
    ensures r == Rewrite(src, n, maxLen, tabWidth)
  {
    var openOff, closeOff := n.open, n.close;
    if openOff < 0 || closeOff < 0 || openOff >= |src| || closeOff >= |src| {
      return src;
    }
    var openChar, closeChar := src[openOff], src[closeOff];
    var itemTexts := ExtractItems(src, n);
    if |itemTexts| == 0 {
      return src;
    }
    var lineStart := FindLineStart(src, openOff);
    var prefix := src[lineStart..openOff];
    var linePrefix := ExtractIndent(prefix);
    var singleLine := [openChar] + Join(itemTexts, ", ") + [closeChar];
    var fullLine := prefix + singleLine;
    var hasMultiLineItem := HasMultiLineItem(itemTexts);
    var fullWidth := VisualLen(fullLine, tabWidth);
    if !hasMultiLineItem && fullWidth <= maxLen {
      assert Replacement(src, n, maxLen, tabWidth) == Some(singleLine);
      return src[..openOff] + singleLine + src[closeOff + 1..];
    }
    var itemIndent := linePrefix + "\t";
    var packed := PackItems(itemTexts, itemIndent, maxLen, tabWidth);
    var wrapped := [openChar] + "\n" + packed + linePrefix + [closeChar];
    assert Replacement(src, n, maxLen, tabWidth) == Some(wrapped);
    return src[..openOff] + wrapped + src[closeOff + 1..];
  }

  /** `processNode` returns the buffer unchanged when a delimiter lies
      outside it or no item text is extracted. Otherwise the text before the
      opening delimiter and after the closing one is kept, and the span
      between them is replaced by a text that starts with the opening
      delimiter and ends with the closing one. */
  lemma RewriteFrame(src: string, n: Wrappable, maxLen: int, tabWidth: int)
    requires tabWidth > 0 && Ordered(n.items)
    ensures n.open < 0 || n.close < 0 || n.open >= |src| || n.close >= |src| ==> Rewrite(src, n, maxLen, tabWidth) == src
    ensures (forall k :: 0 <= k < |n.items| ==> !InBuffer(n.items[k], |src|)) ==> Rewrite(src, n, maxLen, tabWidth) == src
    ensures Replacement(src, n, maxLen, tabWidth).Some? ==>
              var text := Replacement(src, n, maxLen, tabWidth).value;
              var r := Rewrite(src, n, maxLen, tabWidth);
              && 0 <= n.open < |src| && 0 <= n.close < |src|
              && 2 <= |text| && text[0] == src[n.open] && text[|text| - 1] == src[n.close]
              && |r| == n.open + |text| + |src| - n.close - 1
              && r[..n.open] == src[..n.open]
              && r[n.open..n.open + |text|] == text
              && r[n.open + |text|..] == src[n.close + 1..]
  {
    ExtractedItemsSpec(src, n.items);
    var rep := Replacement(src, n, maxLen, tabWidth);
    if rep.Some? {
      var text := rep.value;
      var r := Rewrite(src, n, maxLen, tabWidth);
      assert r == src[..n.open] + text + src[n.close + 1..];
      assert r[..n.open] == src[..n.open];
      assert r[n.open..n.open + |text|] == text;
      assert r[n.open + |text|..] == src[n.close + 1..];
    }
  }

  /** The collapse half of `processNode`'s decision: with the delimiters
      inside the buffer and at least one item text, the list is replaced by
      the opening delimiter, the items joined by ", " and the closing
      delimiter whenever that single line, after the text that precedes it
      on its own line, fits in `maxLen`. */
  lemma Collapses(src: string, n: Wrappable, maxLen: int, tabWidth: int)
    requires tabWidth > 0 && Ordered(n.items)
    requires 0 <= n.open < |src| && 0 <= n.close < |src|
    requires exists k :: 0 <= k < |n.items| && InBuffer(n.items[k], |src|)
    requires var prefix := src[LineStart(src, n.open)..n.open];
             var single := [src[n.open]] + Join(ExtractedItems(src, n.items), ", ") + [src[n.close]];
             Width(prefix + single, tabWidth) <= maxLen
    ensures Replacement(src, n, maxLen, tabWidth)
            == Some([src[n.open]] + Join(ExtractedItems(src, n.items), ", ") + [src[n.close]])
    ensures Rewrite(src, n, maxLen, tabWidth)
            == src[..n.open] + [src[n.open]] + Join(ExtractedItems(src, n.items), ", ") + [src[n.close]] + src[n.close + 1..]
    ensures '\n' !in Join(ExtractedItems(src, n.items), ", ")
  {
    ExtractedItemsSpec(src, n.items);
    NoMultiLineItem(src, n.items);
    JoinAvoids(ExtractedItems(src, n.items), ", ", '\n');
  }

  /** The expand half: when that single line would not fit, the list is
      replaced by the opening delimiter, a newline, the greedily packed item
      lines at the line's indentation plus one tab (each ending in ",\n"),
      the line's indentation and the closing delimiter. */
  lemma Expands(src: string, n: Wrappable, maxLen: int, tabWidth: int)
    requires tabWidth > 0 && Ordered(n.items)
    requires 0 <= n.open < |src| && 0 <= n.close < |src|
    requires exists k :: 0 <= k < |n.items| && InBuffer(n.items[k], |src|)
    requires var prefix := src[LineStart(src, n.open)..n.open];
             var single := [src[n.open]] + Join(ExtractedItems(src, n.items), ", ") + [src[n.close]];
             Width(prefix + single, tabWidth) > maxLen
    ensures var items := ExtractedItems(src, n.items);
            var indent := Indent(src[LineStart(src, n.open)..n.open]);
            var groups := Groups(items, Width(indent + "\t", tabWidth), maxLen, tabWidth);
            && Replacement(src, n, maxLen, tabWidth)
               == Some([src[n.open]] + "\n" + Terminated(Render(indent + "\t", groups)) + indent + [src[n.close]])
            && 1 <= |groups|
            && Flatten(groups) == items
            && IsGreedy(groups, items, Width(indent + "\t", tabWidth), maxLen, tabWidth)
  {
    var items := ExtractedItems(src, n.items);
    var indent := Indent(src[LineStart(src, n.open)..n.open]);
    ExtractedItemsSpec(src, n.items);
    PackTextShape(items, indent + "\t", maxLen, tabWidth);
  }

  /** Every item lies strictly between the delimiters, as the parser
      reports them. */
  predicate Inside(n: Wrappable)
  {
    forall k :: 0 <= k < |n.items| ==> n.open < n.items[k].start && n.items[k].end <= n.close
  }

  lemma {:induction false} ExtractedItemsLocal(src: string, other: string, spans: seq<Span>, bound: int)
    requires Ordered(spans) && 0 <= bound <= |src| && bound <= |other|
    requires src[..bound] == other[..bound]
    requires forall k :: 0 <= k < |spans| ==> 0 <= spans[k].start && spans[k].end <= bound
    ensures ExtractedItems(src, spans) == ExtractedItems(other, spans)
  {
    if spans != [] {
      var last := spans[|spans| - 1];
      ExtractedItemsLocal(src, other, spans[..|spans| - 1], bound);
      if InBuffer(last, |src|) {
        AgreeBelow(src, other, bound, last.start, last.end);
      }
    }
  }

  /** `processNode`'s decision for a construct depends only on the buffer up
      to and including its closing delimiter: two buffers that agree there
      get the same replacement. */
  lemma ReplacementLocal(src: string, other: string, n: Wrappable, maxLen: int, tabWidth: int)
    requires tabWidth > 0 && Ordered(n.items) && Inside(n)
    requires 0 <= n.open <= n.close < |src| && n.close < |other|
    requires src[..n.close + 1] == other[..n.close + 1]
    ensures Replacement(src, n, maxLen, tabWidth) == Replacement(other, n, maxLen, tabWidth)
  {
    var bound := n.close + 1;
    assert ExtractedItems(src, n.items) == ExtractedItems(other, n.items) by {
      ExtractedItemsLocal(src, other, n.items, bound);
    }
    var start := LineStart(src, n.open);
    assert start == LineStart(other, n.open) by {
      AgreeBelow(src, other, bound, 0, n.open);
      LineStartOfPrefix(src, other, n.open);
    }
    assert src[start..n.open] == other[start..n.open] && src[n.open] == other[n.open] && src[n.close] == other[n.close] by {
      AgreeBelow(src, other, bound, start, bound);
    }
  }

  /** The text that ends up in place of `src[open..close + 1]`: the
      replacement, or the span itself when there is none. */
  function Edit(src: string, n: Wrappable, maxLen: int, tabWidth: int): string
    requires tabWidth > 0 && Ordered(n.items) && 0 <= n.open <= n.close < |src|
  {
    match Replacement(src, n, maxLen, tabWidth)
    case None => src[n.open..n.close + 1]
    case Some(text) => text
  }

  /** With both delimiters in the buffer, `processNode` always splices: the
      result is the text before the span, the edit, and the text after. */
  lemma RewriteSplicesEdit(src: string, n: Wrappable, maxLen: int, tabWidth: int)
    requires tabWidth > 0 && Ordered(n.items) && 0 <= n.open <= n.close < |src|
    ensures Rewrite(src, n, maxLen, tabWidth)
            == src[..n.open] + Edit(src, n, maxLen, tabWidth) + src[n.close + 1..]
    ensures Rewrite(src, n, maxLen, tabWidth) == src
            <==> Edit(src, n, maxLen, tabWidth) == src[n.open..n.close + 1]
  {
    SpliceSame(src, n.open, n.close + 1, Edit(src, n, maxLen, tabWidth));
  }

  /** A list already written as its single line, when that line fits, is
      left as it is: `processNode` gives back the buffer it was given. */
  lemma AlreadyOneLine(src: string, n: Wrappable, maxLen: int, tabWidth: int)
    requires tabWidth > 0 && Ordered(n.items)
    requires 0 <= n.open <= n.close < |src|
    requires exists k :: 0 <= k < |n.items| && InBuffer(n.items[k], |src|)
    requires var prefix := src[LineStart(src, n.open)..n.open];
             var single := [src[n.open]] + Join(ExtractedItems(src, n.items), ", ") + [src[n.close]];
             Width(prefix + single, tabWidth) <= maxLen
    requires src[n.open..n.close + 1] == [src[n.open]] + Join(ExtractedItems(src, n.items), ", ") + [src[n.close]]
    ensures Rewrite(src, n, maxLen, tabWidth) == src
  {
    Collapses(src, n, maxLen, tabWidth);
    RewriteSplicesEdit(src, n, maxLen, tabWidth);
  }

  /** The collapse test's function body, a call written over three lines. */
  const CollapseSource := "func f() {\n\tprintln(\n\t\t1, 2, 3,\n\t)\n}\n"
  const CollapseCall := Wrappable(19, 33, [Span(23, 24), Span(26, 27), Span(29, 30)])

  lemma SingleCharItem(src: string, at: nat)
    requires at < |src| && !IsSpace(src[at])
    ensures ItemText(src, Span(at, at + 1)) == [src[at]]
  {
    assert src[at..at + 1] == [src[at]];
    assert TrimLeft([src[at]]) == [src[at]];
    assert TrimRight([src[at]]) == [src[at]];
  }

  lemma CollapseExampleDelimiters(src: string)
    requires src == CollapseSource
    ensures |src| == 37 && src[10] == '\n' && src[19] == '(' && src[33] == ')'
  {
  }

  lemma CollapseExampleDigits(src: string)
    requires src == CollapseSource
    ensures src[23] == '1' && src[26] == '2' && src[29] == '3'
  {
  }

  lemma CollapseExamplePrefix(src: string)
    requires src == CollapseSource
    ensures src[11..19] == "\tprintln"
  {
    var head := "func f() {\n";
    assert src[..19] == head + "\tprintln";
    assert src[11..19] == (head + "\tprintln")[|head|..];
  }

  lemma CollapseExampleSplice(src: string)
    requires src == CollapseSource
    ensures src[..19] + "(1, 2, 3)" + src[34..] == "func f() {\n\tprintln(1, 2, 3)\n}\n"
  {
  }

  lemma CollapseExampleLine(src: string)
    requires |src| == 37 && src[10] == '\n' && src[11..19] == "\tprintln"
    ensures LineStart(src, 19) == 11
  {
    assert forall k :: 11 <= k < 19 ==> src[k] == src[11..19][k - 11];
  }

  lemma CollapseExampleIndent()
    ensures Indent("\tprintln") == "\t"
  {
    IndentIsBlankPrefix("\tprintln", 1);
    assert "\tprintln"[..1] == "\t";
  }

  lemma ExtractedItemsSnoc(src: string, spans: seq<Span>, span: Span)
    requires Ordered(spans) && span.start <= span.end
    ensures Ordered(spans + [span])
    ensures ExtractedItems(src, spans + [span])
            == ExtractedItems(src, spans) + (if InBuffer(span, |src|) then [ItemText(src, span)] else [])
  {
    assert (spans + [span])[..|spans|] == spans;
  }

  lemma OneItem(src: string, a: Span, x: string)
    requires InBuffer(a, |src|) && a.start <= a.end && ItemText(src, a) == x
    ensures ExtractedItems(src, [a]) == [x]
  {
    ExtractedItemsSnoc(src, [], a);
    assert [] + [a] == [a];
  }

  lemma TwoItems(src: string, a: Span, b: Span, x: string, y: string)
    requires InBuffer(a, |src|) && InBuffer(b, |src|)
    requires a.start <= a.end && b.start <= b.end
    requires ItemText(src, a) == x && ItemText(src, b) == y
    ensures ExtractedItems(src, [a, b]) == [x, y]
  {
    OneItem(src, a, x);
    ExtractedItemsSnoc(src, [a], b);
    assert [a] + [b] == [a, b];
  }

  lemma ThreeItems(src: string, a: Span, b: Span, c: Span, x: string, y: string, z: string)
    requires InBuffer(a, |src|) && InBuffer(b, |src|) && InBuffer(c, |src|)
    requires a.start <= a.end && b.start <= b.end && c.start <= c.end
    requires ItemText(src, a) == x && ItemText(src, b) == y && ItemText(src, c) == z
    ensures ExtractedItems(src, [a, b, c]) == [x, y, z]
  {
    TwoItems(src, a, b, x, y);
    ExtractedItemsSnoc(src, [a, b], c);
    assert [a, b] + [c] == [a, b, c];
  }

  lemma CollapseExampleItems(src: string, spans: seq<Span>)
    requires |src| == 37 && src[23] == '1' && src[26] == '2' && src[29] == '3'
    requires spans == CollapseCall.items
    ensures ExtractedItems(src, spans) == ["1", "2", "3"]
  {
    assert ItemText(src, Span(23, 24)) == "1" by {
      SingleCharItem(src, 23);
    }
    assert ItemText(src, Span(26, 27)) == "2" by {
      SingleCharItem(src, 26);
    }
    assert ItemText(src, Span(29, 30)) == "3" by {
      SingleCharItem(src, 29);
    }
    ThreeItems(src, Span(23, 24), Span(26, 27), Span(29, 30), "1", "2", "3");
  }

  lemma CollapseCallOrdered(spans: seq<Span>)
    requires spans == CollapseCall.items
    ensures Ordered(spans) && |spans| == 3
  {
  }

  lemma JoinDigits()
    ensures Join(["1", "2", "3"], ", ") == "1, 2, 3"
  {
    assert Join(["3"], ", ") == "3";
    assert Join(["2", "3"], ", ") == "2, 3";
  }

  /** The decision for the collapse test, from the facts about its buffer. */
  lemma CollapseOfFacts(src: string, n: Wrappable, result: string)
    requires n.open == 19 && n.close == 33 && |src| == 37
    requires Ordered(n.items) && |n.items| > 0 && InBuffer(n.items[0], |src|)
    requires ExtractedItems(src, n.items) == ["1", "2", "3"]
    requires LineStart(src, 19) == 11 && src[11..19] == "\tprintln"
    requires src[19] == '(' && src[33] == ')'
    requires src[..19] + "(1, 2, 3)" + src[34..] == result
    ensures Rewrite(src, n, 120, 4) == result
  {
    var single := "(1, 2, 3)";
    assert single == [src[19]] + Join(ExtractedItems(src, n.items), ", ") + [src[33]] by {
      JoinDigits();
    }
    assert Width(src[LineStart(src, 19)..19] + single, 4) <= 120 by {
      CollapsedLineWidth();
    }
    Collapses(src, n, 120, 4);
    assert src[..19] + single + src[34..] == result;
  }

  /** The collapse test: `println(\n\t\t1, 2, 3,\n\t)`, which fits in 120
      columns once joined, is put back on one line as `println(1, 2, 3)`. */
  /** The no-wrap test's function body: a call already on one line. */
  const NoWrapSource := "func f() {\n\tprintln(100, 101, 102)\n}\n"
  const NoWrapCall := Wrappable(19, 33, [Span(20, 23), Span(25, 28), Span(30, 33)])

  lemma NoWrapExampleText(src: string)
    requires src == NoWrapSource
    ensures |src| == 37 && src[10] == '\n' && src[19] == '(' && src[33] == ')'
    ensures src[11..19] == "\tprintln"
    ensures src[19..34] == "(100, 101, 102)"
  {
    var head := "func f() {\n";
    assert src[..19] == head + "\tprintln";
    assert src[11..19] == (head + "\tprintln")[|head|..];
    assert src[..34] == head + "\tprintln" + "(100, 101, 102)";
    assert src[19..34] == src[..34][19..];
  }

  /** An item whose slice has no white space at either end and no newline
      is its own text. */
  lemma PlainItem(src: string, span: Span)
    requires InBuffer(span, |src|) && span.start < span.end
    requires !IsSpace(src[span.start]) && !IsSpace(src[span.end - 1])
    requires '\n' !in src[span.start..span.end]
    ensures ItemText(src, span) == src[span.start..span.end]
  {
    var s := src[span.start..span.end];
    assert s[0] == src[span.start] && s[|s| - 1] == src[span.end - 1];
    assert TrimLeft(s) == s;
    assert TrimRight(s) == s;
  }

  lemma NoWrapExampleItems(src: string, spans: seq<Span>)
    requires |src| == 37 && src[19..34] == "(100, 101, 102)"
    requires spans == NoWrapCall.items
    ensures ExtractedItems(src, spans) == ["100", "101", "102"]
  {
    assert forall k :: 19 <= k < 34 ==> src[k] == src[19..34][k - 19];
    assert src[20..23] == "100" && src[25..28] == "101" && src[30..33] == "102";
    PlainItem(src, Span(20, 23));
    PlainItem(src, Span(25, 28));
    PlainItem(src, Span(30, 33));
    ThreeItems(src, Span(20, 23), Span(25, 28), Span(30, 33), "100", "101", "102");
  }

  lemma JoinNumbers()
    ensures Join(["100", "101", "102"], ", ") == "100, 101, 102"
  {
    assert Join(["102"], ", ") == "102";
    assert Join(["101", "102"], ", ") == "101, 102";
  }

  /** The no-wrap decision, from the facts about its buffer. */
  lemma NoWrapOfFacts(src: string, n: Wrappable)
    requires n.open == 19 && n.close == 33 && |src| == 37
    requires Ordered(n.items) && |n.items| > 0 && InBuffer(n.items[0], |src|)
    requires ExtractedItems(src, n.items) == ["100", "101", "102"]
    requires LineStart(src, 19) == 11 && src[11..19] == "\tprintln"
    requires src[19..34] == "(100, 101, 102)"
    ensures Rewrite(src, n, 120, 4) == src
  {
    var single := "(100, 101, 102)";
    assert src[19] == single[0] && src[33] == single[14];
    assert single == [src[19]] + Join(ExtractedItems(src, n.items), ", ") + [src[33]] by {
      JoinNumbers();
    }
    assert Width(src[LineStart(src, 19)..19] + single, 4) <= 120 by {
      NoWrapLineWidth();
    }
    AlreadyOneLine(src, n, 120, 4);
  }

  /** The no-wrap test: `println(100, 101, 102)` fits at width 120 and the
      buffer comes back unchanged. */
  lemma NoWrapExample(src: string, n: Wrappable)
    requires src == NoWrapSource && n == NoWrapCall
    ensures Rewrite(src, n, 120, 4) == src
  {
    NoWrapExampleText(src);
    NoWrapExampleItems(src, n.items);
    CollapseExampleLine(src);
    assert InBuffer(n.items[0], |src|) && Ordered(n.items) && |n.items| > 0;
    NoWrapOfFacts(src, n);
  }

  lemma CollapseExample(src: string, n: Wrappable)
    requires src == CollapseSource && n == CollapseCall
    ensures Rewrite(src, n, 120, 4) == "func f() {\n\tprintln(1, 2, 3)\n}\n"
  {
    CollapseExampleDelimiters(src);
    CollapseExampleDigits(src);
    CollapseExamplePrefix(src);
    CollapseExampleSplice(src);
    CollapseExampleItems(src, n.items);
    CollapseExampleLine(src);
    var result := "func f() {\n\tprintln(1, 2, 3)\n}\n";
    assert InBuffer(n.items[0], |src|);
    assert n.open == 19 && n.close == 33 && |src| == 37;
    assert Ordered(n.items) && |n.items| > 0 by {
      CollapseCallOrdered(n.items);
    }
    assert ExtractedItems(src, n.items) == ["1", "2", "3"];
    assert LineStart(src, 19) == 11 && src[11..19] == "\tprintln";
    assert src[19] == '(' && src[33] == ')';
    assert src[..19] + "(1, 2, 3)" + src[34..] == result;
    CollapseOfFacts(src, n, result);
  }
}
