/** Tab-aware visual width (`visualLen` in formatter.go). A tab moves the
    column to the next multiple of the tab width; every other character takes
    one column. */
module Columns {

  /** The column reached by writing `ch` at column `col`. */
  function Advance(col: nat, ch: char, tabWidth: int): nat
    requires tabWidth > 0
  {
    if ch == '\t' then (col / tabWidth + 1) * tabWidth else col + 1
  }

  /** The visual width of `s`, written from column 0. */
  function Width(s: string, tabWidth: int): nat
    requires tabWidth > 0
  {
    if s == [] then 0 else Advance(Width(s[..|s| - 1], tabWidth), s[|s| - 1], tabWidth)
  }

  /** The loop of `visualLen`. */
  method VisualLen(s: string, tabWidth: int) returns (col: int)
    requires tabWidth > 0
    ensures col == Width(s, tabWidth)
  {
    col := 0;
    for i := 0 to |s|
      invariant col == Width(s[..i], tabWidth)
    {
      assert s[..i + 1][..i] == s[..i];
      if s[i] == '\t' {
        col := ((col / tabWidth) + 1) * tabWidth;
      } else {
        col := col + 1;
      }
    }
    assert s[..|s|] == s;
  }

  lemma WidthSnoc(s: string, c: char, tabWidth: int)
    requires tabWidth > 0
    ensures Width(s + [c], tabWidth) == Advance(Width(s, tabWidth), c, tabWidth)
  {
    assert (s + [c])[..|s|] == s;
  }

  /** Arithmetic of a single tab: the next multiple of the tab width, strictly
      beyond `col` and at most one tab width further. */
  lemma NextTabStop(col: nat, tabWidth: int)
    requires tabWidth > 0
    ensures (col / tabWidth + 1) * tabWidth % tabWidth == 0
    ensures col < (col / tabWidth + 1) * tabWidth <= col + tabWidth
  {
    var q, r := col / tabWidth, col % tabWidth;
    var m := (q + 1) * tabWidth;
    assert m == q * tabWidth + tabWidth;
    var d, e := m / tabWidth, m % tabWidth;
    var z := q + 1 - d;
    assert z * tabWidth == e by {
      assert m == d * tabWidth + e;
      assert z * tabWidth == (q + 1) * tabWidth - d * tabWidth;
    }
  }

  /** Appending text never lowers the width, and every appended character
      adds at least one column. */
  lemma {:induction false} WidthAppend(s: string, t: string, tabWidth: int)
    requires tabWidth > 0
    ensures Width(s + t, tabWidth) >= Width(s, tabWidth) + |t|
    decreases |t|
  {
    if t != [] {
      var t' := t[..|t| - 1];
      WidthAppend(s, t', tabWidth);
      assert s + t == (s + t') + [t[|t| - 1]];
      WidthSnoc(s + t', t[|t| - 1], tabWidth);
      NextTabStop(Width(s + t', tabWidth), tabWidth);
    } else {
      assert s + t == s;
    }
  }

  /** The width is at least the number of characters. */
  lemma WidthAtLeastLength(s: string, tabWidth: int)
    requires tabWidth > 0
    ensures Width(s, tabWidth) >= |s|
  {
    WidthAppend([], s, tabWidth);
    assert [] + s == s;
  }

  /** Text without tabs adds exactly its number of characters to the width,
      whatever precedes it. */
  lemma {:induction false} WidthAppendWithoutTabs(s: string, t: string, tabWidth: int)
    requires tabWidth > 0
    requires '\t' !in t
    ensures Width(s + t, tabWidth) == Width(s, tabWidth) + |t|
    decreases |t|
  {
    if t != [] {
      var t' := t[..|t| - 1];
      assert t == t' + [t[|t| - 1]];
      WidthAppendWithoutTabs(s, t', tabWidth);
      assert s + t == (s + t') + [t[|t| - 1]];
      WidthSnoc(s + t', t[|t| - 1], tabWidth);
    } else {
      assert s + t == s;
    }
  }

  /** Without tabs the width is the number of characters. */
  lemma WidthWithoutTabs(s: string, tabWidth: int)
    requires tabWidth > 0
    requires '\t' !in s
    ensures Width(s, tabWidth) == |s|
  {
    WidthAppendWithoutTabs([], s, tabWidth);
    assert [] + s == s;
  }

  /** A tab lands on the next tab stop: a multiple of the tab width, strictly
      beyond the current column and at most one tab width further. */
  lemma TabStop(s: string, tabWidth: int)
    requires tabWidth > 0
    ensures Width(s + "\t", tabWidth) % tabWidth == 0
    ensures Width(s, tabWidth) < Width(s + "\t", tabWidth) <= Width(s, tabWidth) + tabWidth
  {
    WidthSnoc(s, '\t', tabWidth);
    NextTabStop(Width(s, tabWidth), tabWidth);
  }

  /** One and two leading tabs at tab width 4. */
  lemma LeadingTabs()
    ensures Width("\t", 4) == 4 && Width("\t\t", 4) == 8
  {
    WidthSnoc([], '\t', 4);
    assert [] + ['\t'] == "\t";
    WidthSnoc("\t", '\t', 4);
    assert "\t" + ['\t'] == "\t\t";
  }

  /** The widths the formatter's own unit tests expect at tab width 4 for
      text without tabs. */
  lemma WidthExamples()
    ensures Width("hello", 4) == 5
    ensures Width("no tabs here", 4) == 12
  {
    WidthWithoutTabs("hello", 4);
    WidthWithoutTabs("no tabs here", 4);
  }

  /** The widths those tests expect for indented text. */
  lemma IndentedWidthExamples()
    ensures Width("\thello", 4) == 9
    ensures Width("\t\thello", 4) == 13
    ensures Width("\tprintln()", 4) == 13
  {
    LeadingTabs();
    assert Width("\thello", 4) == 9 by {
      WidthAppendWithoutTabs("\t", "hello", 4);
      assert "\t" + "hello" == "\thello";
    }
    assert Width("\t\thello", 4) == 13 by {
      WidthAppendWithoutTabs("\t\t", "hello", 4);
      assert "\t\t" + "hello" == "\t\thello";
    }
    assert Width("\tprintln()", 4) == 13 by {
      WidthAppendWithoutTabs("\t", "println()", 4);
      assert "\t" + "println()" == "\tprintln()";
    }
  }

  /** The width of the collapse test's joined line. */
  lemma CollapsedLineWidth()
    ensures Width("\tprintln" + "(1, 2, 3)", 4) == 20
  {
    WidthSnoc([], '\t', 4);
    assert [] + ['\t'] == "\t";
    WidthAppendWithoutTabs("\t", "println(1, 2, 3)", 4);
    assert "\t" + "println(1, 2, 3)" == "\tprintln" + "(1, 2, 3)";
  }

  /** The no-wrap test's line is 26 columns at tab width 4. */
  lemma NoWrapLineWidth()
    ensures Width("\tprintln" + "(100, 101, 102)", 4) == 26
  {
    WidthSnoc([], '\t', 4);
    assert [] + ['\t'] == "\t";
    WidthAppendWithoutTabs("\t", "println(100, 101, 102)", 4);
    assert "\t" + "println(100, 101, 102)" == "\tprintln" + "(100, 101, 102)";
  }
}
