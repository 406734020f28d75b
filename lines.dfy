/** Where the line holding a construct's opening delimiter starts, and that
    line's leading indentation (`findLineStart`, `extractIndent`). */
module Lines {

  /** The start of the line that holds offset `off`: just after the nearest
      newline before `off`, or 0 when there is none. */
  function LineStart(src: string, off: int): (r: int)
    requires off <= |src|
    ensures 0 <= r
    ensures off >= 0 ==> r <= off
    ensures off < 0 ==> r == 0
    ensures r == 0 || src[r - 1] == '\n'
    ensures forall k :: r <= k < off ==> src[k] != '\n'
    decreases off
  {
    if off <= 0 then 0
    else if src[off - 1] == '\n' then off
    else LineStart(src, off - 1)
  }

  /** The backward scan of `findLineStart`. */
  method FindLineStart(src: string, offset: int) returns (r: int)
    requires offset <= |src|
    ensures r == LineStart(src, offset)
  {
    var i := offset - 1;
    while i >= 0
      invariant i < offset
      invariant LineStart(src, offset) == LineStart(src, i + 1)
    {
      if src[i] == '\n' {
        return i + 1;
      }
      i := i - 1;
    }
    return 0;
  }

  /** The line start depends only on the text before `off`. */
  lemma {:induction false} LineStartOfPrefix(src: string, other: string, off: int)
    requires 0 <= off <= |src| && off <= |other|
    requires src[..off] == other[..off]
    ensures LineStart(src, off) == LineStart(other, off)
    decreases off
  {
    if off > 0 {
      assert src[off - 1] == src[..off][off - 1];
      assert other[off - 1] == other[..off][off - 1];
      assert src[..off - 1] == src[..off][..off - 1];
      assert other[..off - 1] == other[..off][..off - 1];
      LineStartOfPrefix(src, other, off - 1);
    }
  }

  predicate IsBlank(c: char)
  {
    c == ' ' || c == '\t'
  }

  /** The longest prefix of `p` made of spaces and tabs. */
  function Indent(p: string): (r: string)
    ensures |r| <= |p| && r == p[..|r|]
    ensures forall k :: 0 <= k < |r| ==> IsBlank(r[k])
    ensures |r| == |p| || !IsBlank(p[|r|])
  {
    if p != [] && IsBlank(p[0]) then [p[0]] + Indent(p[1..]) else []
  }

  /** A blank prefix followed by a non-blank character (or by nothing) is the
      indentation. */
  lemma {:induction false} IndentIsBlankPrefix(p: string, n: nat)
    requires n <= |p|
    requires forall k :: 0 <= k < n ==> IsBlank(p[k])
    requires n == |p| || !IsBlank(p[n])
    ensures Indent(p) == p[..n]
  {
    if n > 0 {
      IndentIsBlankPrefix(p[1..], n - 1);
      assert p[..n] == [p[0]] + p[1..][..n - 1];
    }
  }

  /** The forward scan of `extractIndent`, which stops at the first
      character that is neither a space nor a tab. */
  method ExtractIndent(linePrefix: string) returns (indent: string)
    ensures indent == Indent(linePrefix)
  {
    indent := [];
    var i := 0;
    while i < |linePrefix|
      invariant 0 <= i <= |linePrefix|
      invariant indent == linePrefix[..i]
      invariant forall k :: 0 <= k < i ==> IsBlank(linePrefix[k])
    {
      var ch := linePrefix[i];
      if ch == ' ' || ch == '\t' {
        indent := indent + [ch];
      } else {
        break;
      }
      i := i + 1;
    }
    IndentIsBlankPrefix(linePrefix, i);
  }
}
