/** The greedy packer (`packItems` in formatter.go): items are laid out in
    their original order, each line being the indent, the line's items
    joined by ", " and a trailing comma. */
module Pack {
  import opened Text
  import opened Columns

  /** The width the packer credits to a line holding `line`: the indent's
      width, each item's own width and 2 per ", " separator. The packer adds
      these up; it never measures the assembled line. */
  function LineWidth(indentWidth: int, line: seq<string>, tabWidth: int): int
    requires tabWidth > 0 && line != []
  {
    if |line| == 1 then indentWidth + Width(line[0], tabWidth)
    else LineWidth(indentWidth, line[..|line| - 1], tabWidth) + 2 + Width(line[|line| - 1], tabWidth)
  }

  /** The packer's test for adding `item` to the line holding `line`: the
      separator, the item and the trailing comma must stay within `maxLen`. */
  predicate Fits(indentWidth: int, line: seq<string>, item: string, maxLen: int, tabWidth: int)
    requires tabWidth > 0 && line != []
  {
    LineWidth(indentWidth, line, tabWidth) + 2 + Width(item, tabWidth) + 1 <= maxLen
  }

  /** The lines produced for the remaining items `rest` while the line
      holding `line` is still open. */
  function PackFrom(rest: seq<string>, line: seq<string>, indentWidth: int, maxLen: int, tabWidth: int): seq<seq<string>>
    requires tabWidth > 0 && line != []
    decreases |rest|
  {
    if rest == [] then [line]
    else if Fits(indentWidth, line, rest[0], maxLen, tabWidth) then
      PackFrom(rest[1..], line + [rest[0]], indentWidth, maxLen, tabWidth)
    else [line] + PackFrom(rest[1..], [rest[0]], indentWidth, maxLen, tabWidth)
  }

  /** The items of each output line: the first item always opens the first
      line, whatever its width. */
  function Groups(items: seq<string>, indentWidth: int, maxLen: int, tabWidth: int): seq<seq<string>>
    requires tabWidth > 0
  {
    if items == [] then [] else PackFrom(items[1..], [items[0]], indentWidth, maxLen, tabWidth)
  }

  function Flatten(groups: seq<seq<string>>): seq<string>
  {
    if groups == [] then [] else groups[0] + Flatten(groups[1..])
  }

  /** A greedy grouping of `items`, described without running the packer:
      the lines read in order give back the items, none is empty, a line of
      two or more items fits with its trailing comma, and the first item of
      each line did not fit on the line before it. */
  ghost predicate IsGreedy(groups: seq<seq<string>>, items: seq<string>, indentWidth: int, maxLen: int, tabWidth: int)
    requires tabWidth > 0
  {
    && Flatten(groups) == items
    && (forall k :: 0 <= k < |groups| ==> groups[k] != [])
    && (forall k :: 0 <= k < |groups| && |groups[k]| > 1 ==> LineWidth(indentWidth, groups[k], tabWidth) + 1 <= maxLen)
    && (forall k :: 0 <= k < |groups| - 1 ==> !Fits(indentWidth, groups[k], groups[k + 1][0], maxLen, tabWidth))
  }

  lemma LineWidthSnoc(indentWidth: int, line: seq<string>, item: string, tabWidth: int)
    requires tabWidth > 0 && line != []
    ensures LineWidth(indentWidth, line + [item], tabWidth)
            == LineWidth(indentWidth, line, tabWidth) + 2 + Width(item, tabWidth)
  {
    assert (line + [item])[..|line|] == line;
  }

  /** A line's credited width never drops below that of one of its
      non-empty prefixes. */
  lemma {:induction false} LineWidthPrefix(indentWidth: int, line: seq<string>, n: nat, tabWidth: int)
    requires tabWidth > 0 && 0 < n <= |line|
    ensures LineWidth(indentWidth, line[..n], tabWidth) <= LineWidth(indentWidth, line, tabWidth)
    decreases |line|
  {
    if n < |line| {
      var init := line[..|line| - 1];
      LineWidthPrefix(indentWidth, init, n, tabWidth);
      assert init[..n] == line[..n];
    } else {
      assert line[..n] == line;
    }
  }

  lemma FlattenSingle(line: seq<string>)
    ensures Flatten([line]) == line
  {
    assert [line][1..] == [];
  }

  lemma FlattenCons(line: seq<string>, groups: seq<seq<string>>)
    ensures Flatten([line] + groups) == line + Flatten(groups)
  {
    assert ([line] + groups)[1..] == groups;
  }

  /** What the packer produces from an open line that fits: a greedy
      grouping of that line's items and the remaining ones, whose first line
      extends the open one. */
  lemma {:induction false} PackFromIsGreedy(rest: seq<string>, line: seq<string>, indentWidth: int, maxLen: int, tabWidth: int)
    requires tabWidth > 0 && line != []
    requires |line| > 1 ==> LineWidth(indentWidth, line, tabWidth) + 1 <= maxLen
    ensures var groups := PackFrom(rest, line, indentWidth, maxLen, tabWidth);
            IsGreedy(groups, line + rest, indentWidth, maxLen, tabWidth)
            && |groups[0]| >= |line| && groups[0][..|line|] == line
    decreases |rest|
  {
    var groups := PackFrom(rest, line, indentWidth, maxLen, tabWidth);
    if rest == [] {
      FlattenSingle(line);
      assert line + rest == line;
    } else if Fits(indentWidth, line, rest[0], maxLen, tabWidth) {
      LineWidthSnoc(indentWidth, line, rest[0], tabWidth);
      PackFromIsGreedy(rest[1..], line + [rest[0]], indentWidth, maxLen, tabWidth);
      assert (line + [rest[0]]) + rest[1..] == line + rest;
      assert groups[0][..|line|] == groups[0][..|line| + 1][..|line|];
    } else {
      var tail := PackFrom(rest[1..], [rest[0]], indentWidth, maxLen, tabWidth);
      PackFromIsGreedy(rest[1..], [rest[0]], indentWidth, maxLen, tabWidth);
      assert [rest[0]] + rest[1..] == rest;
      assert tail[0][0] == rest[0] by {
        assert tail[0][..1] == [rest[0]];
      }
      GreedyCons(line, tail, rest, indentWidth, maxLen, tabWidth);
      assert groups == [line] + tail;
    }
  }

  /** Closing a line that fits in front of a greedy grouping of the
      remaining items, when the next item does not fit on it, gives a
      greedy grouping of all of them. */
  lemma GreedyCons(line: seq<string>, tail: seq<seq<string>>, rest: seq<string>, indentWidth: int, maxLen: int, tabWidth: int)
    requires tabWidth > 0 && line != [] && rest != [] && tail != []
    requires |line| > 1 ==> LineWidth(indentWidth, line, tabWidth) + 1 <= maxLen
    requires IsGreedy(tail, rest, indentWidth, maxLen, tabWidth) && tail[0][0] == rest[0]
    requires !Fits(indentWidth, line, rest[0], maxLen, tabWidth)
    ensures IsGreedy([line] + tail, line + rest, indentWidth, maxLen, tabWidth)
  {
    var groups := [line] + tail;
    FlattenCons(line, tail);
    forall k | 0 <= k < |groups| - 1
      ensures !Fits(indentWidth, groups[k], groups[k + 1][0], maxLen, tabWidth)
    {
      if k > 0 {
        assert groups[k] == tail[k - 1] && groups[k + 1] == tail[k];
      }
    }
    forall k | 0 <= k < |groups| && |groups[k]| > 1
      ensures LineWidth(indentWidth, groups[k], tabWidth) + 1 <= maxLen
    {
      if k > 0 {
        assert groups[k] == tail[k - 1];
      }
    }
    forall k | 0 <= k < |groups| ensures groups[k] != [] {
      if k > 0 {
        assert groups[k] == tail[k - 1];
      }
    }
  }

  /** The packer's lines form a greedy grouping of the items. */
  lemma GroupsAreGreedy(items: seq<string>, indentWidth: int, maxLen: int, tabWidth: int)
    requires tabWidth > 0
    ensures IsGreedy(Groups(items, indentWidth, maxLen, tabWidth), items, indentWidth, maxLen, tabWidth)
  {
    if items != [] {
      PackFromIsGreedy(items[1..], [items[0]], indentWidth, maxLen, tabWidth);
      assert [items[0]] + items[1..] == items;
    }
  }

  lemma FlattenSplit(groups: seq<seq<string>>, items: seq<string>)
    requires groups != [] && Flatten(groups) == items
    ensures |groups[0]| <= |items|
    ensures items[..|groups[0]|] == groups[0]
    ensures Flatten(groups[1..]) == items[|groups[0]|..]
  {
  }

  /** Dropping the first line of a greedy grouping leaves a greedy grouping
      of the items after it. */
  lemma GreedyTail(groups: seq<seq<string>>, items: seq<string>, indentWidth: int, maxLen: int, tabWidth: int)
    requires tabWidth > 0 && groups != []
    requires IsGreedy(groups, items, indentWidth, maxLen, tabWidth)
    ensures |groups[0]| <= |items| && items[..|groups[0]|] == groups[0]
    ensures IsGreedy(groups[1..], items[|groups[0]|..], indentWidth, maxLen, tabWidth)
  {
    FlattenSplit(groups, items);
    var tail := groups[1..];
    forall k | 0 <= k < |tail| - 1
      ensures !Fits(indentWidth, tail[k], tail[k + 1][0], maxLen, tabWidth)
    {
      assert tail[k] == groups[k + 1] && tail[k + 1] == groups[k + 2];
    }
  }

  /** A greedy grouping whose first line is shorter than another greedy
      grouping's first line cannot exist: the item that opened its second
      line would have fitted. */
  lemma FirstLinesAgree(g1: seq<seq<string>>, g2: seq<seq<string>>, items: seq<string>, indentWidth: int, maxLen: int, tabWidth: int)
    requires tabWidth > 0 && g1 != [] && g2 != []
    requires IsGreedy(g1, items, indentWidth, maxLen, tabWidth)
    requires IsGreedy(g2, items, indentWidth, maxLen, tabWidth)
    ensures |g1[0]| >= |g2[0]|
  {
    var a, b := g1[0], g2[0];
    FlattenSplit(g1, items);
    FlattenSplit(g2, items);
    if |a| < |b| {
      var n := |a|;
      assert Flatten(g1[1..]) == items[n..] && items[n..] != [];
      assert |g1| > 1;
      FlattenSplit(g1[1..], items[n..]);
      assert g1[1] != [];
      assert g1[1][0] == items[n] == b[n];
      assert b[..n + 1] == a + [b[n]] by {
        assert b == items[..|b|];
        assert a == items[..n];
      }
      LineWidthSnoc(indentWidth, a, b[n], tabWidth);
      LineWidthPrefix(indentWidth, b, n + 1, tabWidth);
      assert false;
    }
  }

  /** There is only one greedy grouping of a list of items. */
  lemma {:induction false} GreedyUnique(g1: seq<seq<string>>, g2: seq<seq<string>>, items: seq<string>, indentWidth: int, maxLen: int, tabWidth: int)
    requires tabWidth > 0
    requires IsGreedy(g1, items, indentWidth, maxLen, tabWidth)
    requires IsGreedy(g2, items, indentWidth, maxLen, tabWidth)
    ensures g1 == g2
    decreases |items|
  {
    if g1 != [] && g2 != [] {
      FirstLinesAgree(g1, g2, items, indentWidth, maxLen, tabWidth);
      FirstLinesAgree(g2, g1, items, indentWidth, maxLen, tabWidth);
      GreedyTail(g1, items, indentWidth, maxLen, tabWidth);
      GreedyTail(g2, items, indentWidth, maxLen, tabWidth);
      var n := |g1[0]|;
      GreedyUnique(g1[1..], g2[1..], items[n..], indentWidth, maxLen, tabWidth);
      assert g1 == [g1[0]] + g1[1..] && g2 == [g2[0]] + g2[1..];
    }
  }

  /** The packer's lines are exactly the greedy grouping: a grouping is
      greedy if and only if it is the one the packer produces. */
  lemma GroupsCharacterised(groups: seq<seq<string>>, items: seq<string>, indentWidth: int, maxLen: int, tabWidth: int)
    requires tabWidth > 0
    ensures IsGreedy(groups, items, indentWidth, maxLen, tabWidth)
            <==> groups == Groups(items, indentWidth, maxLen, tabWidth)
  {
    GroupsAreGreedy(items, indentWidth, maxLen, tabWidth);
    if IsGreedy(groups, items, indentWidth, maxLen, tabWidth) {
      GreedyUnique(groups, Groups(items, indentWidth, maxLen, tabWidth), items, indentWidth, maxLen, tabWidth);
    }
  }

  /** One output line: the indent, the items joined by ", ", and a trailing
      comma. */
  function Line(indent: string, line: seq<string>): string
  {
    indent + Join(line, ", ") + ","
  }

  function Render(indent: string, groups: seq<seq<string>>): (lines: seq<string>)
    ensures |lines| == |groups|
    ensures forall k :: 0 <= k < |groups| ==> lines[k] == Line(indent, groups[k])
  {
    seq(|groups|, k requires 0 <= k < |groups| => Line(indent, groups[k]))
  }

  /** The text `packItems` returns: its lines joined by newlines, plus a
      final newline. */
  function PackText(items: seq<string>, indent: string, maxLen: int, tabWidth: int): string
    requires tabWidth > 0
  {
    Join(Render(indent, Groups(items, Width(indent, tabWidth), maxLen, tabWidth)), "\n") + "\n"
  }

  /** The shape of the packed text for a non-empty item list: at least one
      line; every line starts with the indent, ends with a comma and is
      followed by its own newline; the lines hold the items in order, none
      dropped or split; and the lines are the greedy grouping. */
  lemma PackTextShape(items: seq<string>, indent: string, maxLen: int, tabWidth: int)
    requires tabWidth > 0 && items != []
    ensures var groups := Groups(items, Width(indent, tabWidth), maxLen, tabWidth);
            var lines := Render(indent, groups);
            && 1 <= |lines| <= |items|
            && PackText(items, indent, maxLen, tabWidth) == Terminated(lines)
            && (forall k :: 0 <= k < |lines| ==>
                  lines[k] == indent + Join(groups[k], ", ") + ","
                  && lines[k][..|indent|] == indent && lines[k][|lines[k]| - 1] == ',')
            && Flatten(groups) == items
            && IsGreedy(groups, items, Width(indent, tabWidth), maxLen, tabWidth)
  {
    var groups := Groups(items, Width(indent, tabWidth), maxLen, tabWidth);
    GroupsAreGreedy(items, Width(indent, tabWidth), maxLen, tabWidth);
    FlattenSplit(groups, items);
    FlattenLength(groups);
    JoinTerminated(Render(indent, groups));
  }

  /** Non-empty lines hold at least one item each. */
  lemma {:induction false} FlattenLength(groups: seq<seq<string>>)
    requires forall k :: 0 <= k < |groups| ==> groups[k] != []
    ensures |groups| <= |Flatten(groups)|
  {
    if groups != [] {
      FlattenLength(groups[1..]);
    }
  }

  /** The loop of `packItems`. */
  method PackItems(items: seq<string>, indent: string, maxLen: int, tabWidth: int) returns (text: string)
    requires tabWidth > 0
    ensures text == PackText(items, indent, maxLen, tabWidth)
  {
    var lines: seq<string> := [];
    var indentVisLen := VisualLen(indent, tabWidth);
    var currentLineItems: seq<string> := [];
    var currentVisLen := indentVisLen;
    ghost var closed: seq<seq<string>> := [];
    ghost var groups := Groups(items, indentVisLen, maxLen, tabWidth);
    for i := 0 to |items|
      invariant lines == Render(indent, closed)
      invariant i == 0 ==> currentLineItems == [] && closed == []
      invariant i > 0 ==> currentLineItems != []
                          && currentVisLen == LineWidth(indentVisLen, currentLineItems, tabWidth)
                          && groups == closed + PackFrom(items[i..], currentLineItems, indentVisLen, maxLen, tabWidth)
    {
      var item := items[i];
      var itemVisLen := VisualLen(item, tabWidth);
      assert items[i..][1..] == items[i + 1..];
      if |currentLineItems| == 0 {
        currentLineItems := currentLineItems + [item];
        currentVisLen := indentVisLen + itemVisLen;
      } else {
        var newVisLen := currentVisLen + 2 + itemVisLen;
        LineWidthSnoc(indentVisLen, currentLineItems, item, tabWidth);
        if newVisLen + 1 <= maxLen {
          currentLineItems := currentLineItems + [item];
          currentVisLen := newVisLen;
        } else {
          lines := lines + [indent + Join(currentLineItems, ", ") + ","];
          closed := closed + [currentLineItems];
          currentLineItems := [item];
          currentVisLen := indentVisLen + itemVisLen;
        }
      }
    }
    if |currentLineItems| > 0 {
      lines := lines + [indent + Join(currentLineItems, ", ") + ","];
      closed := closed + [currentLineItems];
    }
    assert lines == Render(indent, groups);
    text := Join(lines, "\n") + "\n";
  }

  /** Every item of `line` is `width` columns wide. */
  predicate Uniform(line: seq<string>, width: nat, tabWidth: int)
    requires tabWidth > 0
  {
    forall k :: 0 <= k < |line| ==> Width(line[k], tabWidth) == width
  }

  lemma {:induction false} LineWidthUniform(indentWidth: int, line: seq<string>, width: nat, tabWidth: int)
    requires tabWidth > 0 && line != [] && Uniform(line, width, tabWidth)
    ensures LineWidth(indentWidth, line, tabWidth) == indentWidth + |line| * width + 2 * (|line| - 1)
    decreases |line|
  {
    if |line| > 1 {
      LineWidthUniform(indentWidth, line[..|line| - 1], width, tabWidth);
    }
  }

  /** A two-line grouping `items[..n]`, `items[n..]` of same-width items is
      the packer's output when the first line fits, the item after it does
      not, and the second line fits. */
  lemma TwoLines(items: seq<string>, n: nat, width: nat, indentWidth: int, maxLen: int, tabWidth: int)
    requires tabWidth > 0 && 0 < n < |items| && Uniform(items, width, tabWidth)
    requires n > 1 ==> indentWidth + n * width + 2 * (n - 1) + 1 <= maxLen
    requires indentWidth + n * width + 2 * (n - 1) + 2 + width + 1 > maxLen
    requires |items| - n > 1 ==> indentWidth + (|items| - n) * width + 2 * (|items| - n - 1) + 1 <= maxLen
    ensures Groups(items, indentWidth, maxLen, tabWidth) == [items[..n], items[n..]]
  {
    var groups := [items[..n], items[n..]];
    assert Uniform(items[..n], width, tabWidth);
    assert Uniform(items[n..], width, tabWidth);
    LineWidthUniform(indentWidth, items[..n], width, tabWidth);
    LineWidthUniform(indentWidth, items[n..], width, tabWidth);
    assert Flatten(groups) == items by {
      FlattenCons(items[..n], [items[n..]]);
      FlattenSingle(items[n..]);
      assert items[..n] + items[n..] == items;
    }
    assert groups[1][0] == items[n];
    assert IsGreedy(groups, items, indentWidth, maxLen, tabWidth);
    GroupsCharacterised(groups, items, indentWidth, maxLen, tabWidth);
  }

  /** The call and literal tests' packing: at indent "\t\t" (8 columns) and
      width 120, 22 of the 23 items "100".."122" share the first line and
      "122" goes alone on the second. */
  lemma PackTwentyThreeNumbers()
    ensures var items := ["100", "101", "102", "103", "104", "105", "106", "107", "108", "109", "110",
                          "111", "112", "113", "114", "115", "116", "117", "118", "119", "120", "121", "122"];
            Groups(items, Width("\t\t", 4), 120, 4) == [items[..22], ["122"]]
  {
    LeadingTabs();
    var items := ["100", "101", "102", "103", "104", "105", "106", "107", "108", "109", "110",
                  "111", "112", "113", "114", "115", "116", "117", "118", "119", "120", "121", "122"];
    forall k | 0 <= k < |items| ensures Width(items[k], 4) == 3 {
      assert |items[k]| == 3 && '\t' !in items[k];
      WidthWithoutTabs(items[k], 4);
    }
    TwoLines(items, 22, 3, 8, 120, 4);
  }

  /** The demo test's call at width 30: "100".."105" at indent "\t\t" split
      4 + 2. */
  lemma PackSixNumbers()
    ensures var items := ["100", "101", "102", "103", "104", "105"];
            Groups(items, Width("\t\t", 4), 30, 4) == [["100", "101", "102", "103"], ["104", "105"]]
  {
    LeadingTabs();
    var items := ["100", "101", "102", "103", "104", "105"];
    forall k | 0 <= k < |items| ensures Width(items[k], 4) == 3 {
      WidthWithoutTabs(items[k], 4);
    }
    TwoLines(items, 4, 3, 8, 30, 4);
    assert items[..4] == ["100", "101", "102", "103"] && items[4..] == ["104", "105"];
  }

  /** The demo test's parameter list at width 30: "p1 int".."p6 int" at
      indent "\t" split 3 + 3. */
  lemma PackSixParameters()
    ensures var items := ["p1 int", "p2 int", "p3 int", "p4 int", "p5 int", "p6 int"];
            Groups(items, Width("\t", 4), 30, 4) == [["p1 int", "p2 int", "p3 int"], ["p4 int", "p5 int", "p6 int"]]
  {
    LeadingTabs();
    var items := ["p1 int", "p2 int", "p3 int", "p4 int", "p5 int", "p6 int"];
    forall k | 0 <= k < |items| ensures Width(items[k], 4) == 6 {
      WidthWithoutTabs(items[k], 4);
    }
    TwoLines(items, 3, 6, 4, 30, 4);
    assert items[..3] == ["p1 int", "p2 int", "p3 int"] && items[3..] == ["p4 int", "p5 int", "p6 int"];
  }
}
