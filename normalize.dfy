/** Item text clean-up: `strings.TrimSpace` followed by `normalizeWhitespace`
    (formatter.go), which puts an item that was written over several lines
    back on one line. */
module Whitespace {
  import opened Text

  /** The ASCII characters `strings.TrimSpace` removes. */
  predicate IsSpace(c: char)
  {
    c == ' ' || c == '\t' || c == '\n' || c == '\r' || c == '\U{000B}' || c == '\U{000C}'
  }

  /** The characters `normalizeWhitespace` folds into a single space. */
  predicate IsLayout(c: char)
  {
    c == '\n' || c == '\r' || c == '\t' || c == ' '
  }

  function TrimLeft(s: string): string
  {
    if s != [] && IsSpace(s[0]) then TrimLeft(s[1..]) else s
  }

  function TrimRight(s: string): string
  {
    if s != [] && IsSpace(s[|s| - 1]) then TrimRight(s[..|s| - 1]) else s
  }

  /** Removing leading white space leaves a suffix that starts with a
      non-space character, and only spaces were removed. */
  lemma {:induction false} TrimLeftSuffix(s: string)
    ensures var r := TrimLeft(s);
            && |r| <= |s| && r == s[|s| - |r|..]
            && (r == [] || !IsSpace(r[0]))
            && forall k :: 0 <= k < |s| - |r| ==> IsSpace(s[k])
  {
    if s != [] && IsSpace(s[0]) {
      var r := TrimLeft(s[1..]);
      TrimLeftSuffix(s[1..]);
      assert TrimLeft(s) == r;
      assert s[1..][|s| - 1 - |r|..] == s[|s| - |r|..];
      forall k | 0 <= k < |s| - |r|
        ensures IsSpace(s[k])
      {
        if k > 0 {
          assert s[k] == s[1..][k - 1];
        }
      }
    }
  }

  /** Removing trailing white space leaves a prefix that ends with a
      non-space character, and only spaces were removed. */
  lemma {:induction false} TrimRightPrefix(s: string)
    ensures var r := TrimRight(s);
            && |r| <= |s| && r == s[..|r|]
            && (r == [] || !IsSpace(r[|r| - 1]))
            && forall k :: |r| <= k < |s| ==> IsSpace(s[k])
  {
    if s != [] && IsSpace(s[|s| - 1]) {
      TrimRightPrefix(s[..|s| - 1]);
    }
  }

  /** `strings.TrimSpace` on ASCII text. */
  function TrimSpace(s: string): string
  {
    TrimRight(TrimLeft(s))
  }

  /** The trimmed text is a slice of the input that neither starts nor ends
      with white space, and everything cut off around it is white space. */
  lemma TrimSpaceSlice(s: string)
    ensures var r := TrimSpace(s);
            && (r == [] || (!IsSpace(r[0]) && !IsSpace(r[|r| - 1])))
            && exists i :: 0 <= i <= |s| - |r| && r == s[i..][..|r|]
                           && (forall k :: 0 <= k < i ==> IsSpace(s[k]))
                           && (forall k :: i + |r| <= k < |s| ==> IsSpace(s[k]))
  {
    var l := TrimLeft(s);
    TrimLeftSuffix(s);
    TrimRightPrefix(l);
    var r := TrimRight(l);
    var i := |s| - |l|;
    assert l == s[i..];
    assert r == s[i..][..|r|];
    forall k | i + |r| <= k < |s|
      ensures IsSpace(s[k])
    {
      assert s[k] == l[k - i];
    }
  }

  /** What the loop of `normalizeWhitespace` appends for `s` when the
      previous character written was a folded space (`inSpace`) or not. */
  function Collapse(s: string, inSpace: bool): string
  {
    if s == [] then []
    else if IsLayout(s[0]) then
      (if inSpace then Collapse(s[1..], true) else " " + Collapse(s[1..], true))
    else [s[0]] + Collapse(s[1..], false)
  }

  /** The text with every layout character removed: what normalisation must
      not change. */
  function Tokens(s: string): string
  {
    if s == [] then []
    else if IsLayout(s[0]) then Tokens(s[1..])
    else [s[0]] + Tokens(s[1..])
  }

  predicate NoLineBreaksOrTabs(s: string)
  {
    forall k :: 0 <= k < |s| ==> s[k] != '\n' && s[k] != '\r' && s[k] != '\t'
  }

  predicate NoDoubleSpace(s: string)
  {
    forall k :: 0 <= k < |s| - 1 ==> !(s[k] == ' ' && s[k + 1] == ' ')
  }

  lemma {:induction false} CollapseFacts(s: string, inSpace: bool)
    ensures NoLineBreaksOrTabs(Collapse(s, inSpace))
    ensures NoDoubleSpace(Collapse(s, inSpace))
    ensures inSpace ==> Collapse(s, inSpace) == [] || Collapse(s, inSpace)[0] != ' '
    ensures Tokens(Collapse(s, inSpace)) == Tokens(s)
    ensures |Collapse(s, inSpace)| <= |s|
  {
    if s != [] {
      var tail := Collapse(s[1..], IsLayout(s[0]));
      CollapseFacts(s[1..], IsLayout(s[0]));
      if IsLayout(s[0]) && !inSpace {
        assert Collapse(s, inSpace) == " " + tail;
        assert Tokens(" " + tail) == Tokens(tail) by {
          assert (" " + tail)[1..] == tail;
        }
      } else if !IsLayout(s[0]) {
        assert Collapse(s, inSpace) == [s[0]] + tail;
        assert ([s[0]] + tail)[1..] == tail;
      }
    }
  }

  /** `normalizeWhitespace`, specified. Text without a newline is returned
      as it is (tabs and double spaces included); otherwise every run of
      spaces, tabs, carriage returns and newlines becomes one space. Either
      way no newline is left. */
  function Normalize(s: string): (r: string)
    ensures '\n' !in r
  {
    if '\n' !in s then s
    else
      CollapseFacts(s, false);
      Collapse(s, false)
  }

  /** `s` without its leading layout characters. */
  function DropLayout(s: string): string
  {
    if s != [] && IsLayout(s[0]) then DropLayout(s[1..]) else s
  }

  /** The longest prefix of `s` without layout characters. */
  function Word(s: string): string
  {
    if s != [] && !IsLayout(s[0]) then [s[0]] + Word(s[1..]) else []
  }

  lemma {:induction false} DropLayoutSuffix(s: string)
    ensures var r := DropLayout(s);
            && |r| <= |s| && r == s[|s| - |r|..]
            && (r == [] || !IsLayout(r[0]))
            && forall k :: 0 <= k < |s| - |r| ==> IsLayout(s[k])
  {
    if s != [] && IsLayout(s[0]) {
      var r := DropLayout(s[1..]);
      DropLayoutSuffix(s[1..]);
      assert DropLayout(s) == r;
      assert s[1..][|s| - 1 - |r|..] == s[|s| - |r|..];
      forall k | 0 <= k < |s| - |r|
        ensures IsLayout(s[k])
      {
        if k > 0 {
          assert s[k] == s[1..][k - 1];
        }
      }
    }
  }

  lemma {:induction false} WordPrefix(s: string)
    ensures var w := Word(s);
            && |w| <= |s| && w == s[..|w|]
            && (|w| == |s| || IsLayout(s[|w|]))
            && (s != [] && !IsLayout(s[0]) ==> |w| >= 1)
            && forall k :: 0 <= k < |w| ==> !IsLayout(w[k])
  {
    if s != [] && !IsLayout(s[0]) {
      WordPrefix(s[1..]);
    }
  }

  /** The words of `s`: the maximal runs of characters other than space,
      tab, carriage return and newline, in order. This is like Go's
      `strings.Fields`, except that a vertical tab or form feed does not
      split a word. */
  function Words(s: string): seq<string>
    decreases |s|
  {
    var t := DropLayout(s);
    if t == [] then []
    else
      DropLayoutSuffix(s);
      WordPrefix(t);
      var w := Word(t);
      [w] + Words(t[|w|..])
  }

  /** Every word is non-empty and holds no layout character. */
  lemma {:induction false} WordsShape(s: string)
    ensures forall k :: 0 <= k < |Words(s)| ==> Words(s)[k] != [] && forall j :: 0 <= j < |Words(s)[k]| ==> !IsLayout(Words(s)[k][j])
    decreases |s|
  {
    var t := DropLayout(s);
    DropLayoutSuffix(s);
    if t != [] {
      WordPrefix(t);
      var w := Word(t);
      WordsShape(t[|w|..]);
      var ws := Words(s);
      assert ws == [w] + Words(t[|w|..]);
      forall k | 0 <= k < |ws|
        ensures ws[k] != [] && forall j :: 0 <= j < |ws[k]| ==> !IsLayout(ws[k][j])
      {
        if k > 0 {
          assert ws[k] == Words(t[|w|..])[k - 1];
        }
      }
    }
  }

  /** A word is copied as it is, and the folding starts afresh after it. */
  lemma {:induction false} CollapseWord(s: string)
    ensures |Word(s)| <= |s|
    ensures Collapse(s, false) == Word(s) + Collapse(s[|Word(s)|..], false)
  {
    WordPrefix(s);
    if s != [] && !IsLayout(s[0]) {
      CollapseWord(s[1..]);
      WordPrefix(s[1..]);
      var w' := Word(s[1..]);
      assert s[1..][|w'|..] == s[|w'| + 1..];
    }
  }

  /** Inside a run of layout characters nothing more is written. */
  lemma {:induction false} CollapseRun(s: string)
    ensures Collapse(s, true) == Collapse(DropLayout(s), true)
  {
    if s != [] && IsLayout(s[0]) {
      CollapseRun(s[1..]);
    }
  }

  lemma JoinCons(w: string, ws: seq<string>, sep: string)
    requires ws != []
    ensures Join([w] + ws, sep) == w + sep + Join(ws, sep)
  {
    assert ([w] + ws)[1..] == ws;
  }

  /** A run of layout characters before a word is written as one space,
      and contributes no word. */
  lemma LayoutThenWord(rest: string)
    requires rest != [] && IsLayout(rest[0]) && !IsLayout(rest[|rest| - 1])
    ensures var t := DropLayout(rest);
            && t != [] && |t| < |rest| && !IsLayout(t[0]) && !IsLayout(t[|t| - 1])
            && Collapse(rest, false) == " " + Collapse(t, false)
            && Words(rest) == Words(t)
  {
    var t := DropLayout(rest);
    DropLayoutSuffix(rest);
    assert t != [] && t[|t| - 1] == rest[|rest| - 1];
    assert Collapse(rest, false) == " " + Collapse(t, true) by {
      assert DropLayout(rest) == DropLayout(rest[1..]);
      CollapseRun(rest[1..]);
    }
    assert Words(rest) == Words(t) by {
      assert DropLayout(t) == t;
    }
  }

  /** On text that neither starts nor ends with a layout character, the
      folding loop writes the words separated by exactly one space. */
  lemma {:induction false} CollapseWords(s: string)
    requires s == [] || (!IsLayout(s[0]) && !IsLayout(s[|s| - 1]))
    ensures Collapse(s, false) == Join(Words(s), " ")
    decreases |s|
  {
    if s != [] {
      WordPrefix(s);
      var w := Word(s);
      var rest := s[|w|..];
      assert Words(s) == [w] + Words(rest);
      CollapseWord(s);
      if rest == [] {
        assert Words(rest) == [];
      } else {
        assert rest[|rest| - 1] == s[|s| - 1];
        LayoutThenWord(rest);
        var t := DropLayout(rest);
        CollapseWords(t);
        assert Words(t) != [];
        JoinCons(w, Words(t), " ");
      }
    }
  }

  /** Text without a newline is kept; otherwise no line break, tab or
      double space is left, and text that starts and ends with a word (as
      trimmed text does) becomes its words separated by single spaces.
      Either way the non-layout characters are kept, in order. */
  lemma NormalizeSpec(s: string)
    ensures '\n' !in s ==> Normalize(s) == s
    ensures '\n' in s ==> NoLineBreaksOrTabs(Normalize(s)) && NoDoubleSpace(Normalize(s))
    ensures Tokens(Normalize(s)) == Tokens(s)
    ensures '\n' in s && !IsLayout(s[0]) && !IsLayout(s[|s| - 1]) ==> Normalize(s) == Join(Words(s), " ")
  {
    CollapseFacts(s, false);
    if '\n' in s && !IsLayout(s[0]) && !IsLayout(s[|s| - 1]) {
      CollapseWords(s);
    }
  }

  /** The loop of `normalizeWhitespace`. */
  method NormalizeWhitespace(s: string) returns (r: string)
    ensures r == Normalize(s)
  {
    if '\n' !in s {
      return s;
    }
    var b: string := [];
    var inSpace := false;
    for i := 0 to |s|
      invariant b + Collapse(s[i..], inSpace) == Collapse(s, false)
    {
      assert s[i..][1..] == s[i + 1..];
      if s[i] == '\n' || s[i] == '\r' || s[i] == '\t' || s[i] == ' ' {
        if !inSpace {
          b := b + " ";
          inSpace := true;
        }
      } else {
        b := b + [s[i]];
        inSpace := false;
      }
    }
    assert s[|s|..] == [];
    r := b;
  }
}
