/** The splice loop of `wrapIfLong` (formatter.go): the constructs, sorted
    by descending opening offset, are rewritten one after the other, each
    `processNode` call working on the buffer the previous calls left, and a
    flag records whether any call changed it. */
module Wrap {
  import opened Text
  import opened Node

  predicate AllOrdered(nodes: seq<Wrappable>)
  {
    forall k :: 0 <= k < |nodes| ==> Ordered(nodes[k].items)
  }

  /** The order `sort.Slice` leaves the constructs in. */
  predicate Descending(nodes: seq<Wrappable>)
  {
    forall i, j :: 0 <= i < j < |nodes| ==> nodes[j].open <= nodes[i].open
  }

  /** The buffer after `processNode` has been applied to each construct in
      turn, every call seeing the result of the one before. */
  function Applied(src: string, nodes: seq<Wrappable>, maxLen: int, tabWidth: int): string
    requires tabWidth > 0 && AllOrdered(nodes)
  {
    if nodes == [] then src
    else Rewrite(Applied(src, nodes[..|nodes| - 1], maxLen, tabWidth), nodes[|nodes| - 1], maxLen, tabWidth)
  }

  /** Whether some call in that sequence returned a buffer different from
      the one it was given. */
  predicate Changed(src: string, nodes: seq<Wrappable>, maxLen: int, tabWidth: int)
    requires tabWidth > 0 && AllOrdered(nodes)
  {
    && nodes != []
    && var before := Applied(src, nodes[..|nodes| - 1], maxLen, tabWidth);
       || Changed(src, nodes[..|nodes| - 1], maxLen, tabWidth)
       || Rewrite(before, nodes[|nodes| - 1], maxLen, tabWidth) != before
  }

  /** When no call changed the buffer, the loop's result is its input. */
  lemma {:induction false} UnchangedIsIdentity(src: string, nodes: seq<Wrappable>, maxLen: int, tabWidth: int)
    requires tabWidth > 0 && AllOrdered(nodes)
    ensures !Changed(src, nodes, maxLen, tabWidth) ==> Applied(src, nodes, maxLen, tabWidth) == src
  {
    if nodes != [] {
      UnchangedIsIdentity(src, nodes[..|nodes| - 1], maxLen, tabWidth);
    }
  }

  /** `wrapIfLong` after parsing, collecting and sorting: the constructs
      arrive in descending opening order. The new buffer is the sequence of
      rewrites, and an unchanged run hands back the input itself. */
  method WrapIfLong(src: string, nodes: seq<Wrappable>, maxLen: int, tabWidth: int)
    returns (result: string, changed: bool)
    requires tabWidth > 0 && AllOrdered(nodes) && Descending(nodes)
    ensures changed == Changed(src, nodes, maxLen, tabWidth)
    ensures result == Applied(src, nodes, maxLen, tabWidth)
    ensures !changed ==> result == src
  {
    if |nodes| == 0 {
      return src, false;
    }
    result := src;
    changed := false;
    for i := 0 to |nodes|
      invariant AllOrdered(nodes[..i])
      invariant result == Applied(src, nodes[..i], maxLen, tabWidth)
      invariant changed == Changed(src, nodes[..i], maxLen, tabWidth)
    {
      assert nodes[..i + 1][..i] == nodes[..i];
      var newResult := ProcessNode(result, nodes[i], maxLen, tabWidth);
      if newResult != result {
        changed := true;
        result := newResult;
      }
    }
    assert nodes[..|nodes|] == nodes;
    if !changed {
      UnchangedIsIdentity(src, nodes, maxLen, tabWidth);
      return src, false;
    }
  }

  /** Constructs that do not interfere. Read from the last (the lowest in
      the buffer), each lies in the buffer with its items between its
      delimiters and closes before the one sorted ahead of it opens. Nested
      constructs are not of this kind. */
  predicate Separate(nodes: seq<Wrappable>, size: int)
    decreases |nodes|
  {
    || nodes == []
    || var init, last := nodes[..|nodes| - 1], nodes[|nodes| - 1];
       && 0 <= last.open <= last.close < size
       && Inside(last)
       && (init != [] ==> last.close < init[|init| - 1].open)
       && Separate(init, size)
  }

  /** Separate constructs are pairwise disjoint and come in descending order. */
  lemma {:induction false} SeparateDisjoint(nodes: seq<Wrappable>, size: int)
    requires Separate(nodes, size)
    ensures forall i, j :: 0 <= i < j < |nodes| ==> nodes[j].close < nodes[i].open
    ensures Descending(nodes)
    decreases |nodes|
  {
    if nodes != [] {
      var init, last := nodes[..|nodes| - 1], nodes[|nodes| - 1];
      SeparateDisjoint(init, size);
      assert forall k :: 0 <= k < |init| ==> init[k] == nodes[k];
      if init != [] {
        assert forall i :: 0 <= i < |init| ==> last.close < init[i].open;
      }
    }
  }

  lemma SeparateInit(nodes: seq<Wrappable>, init: seq<Wrappable>, last: Wrappable, size: int)
    requires Separate(nodes, size) && nodes != []
    requires init == nodes[..|nodes| - 1] && last == nodes[|nodes| - 1]
    ensures Separate(init, size)
    ensures AllOrdered(nodes) ==> AllOrdered(init)
  {
  }

  /** Every construct's edit, computed on the original buffer. */
  function EditsOf(src: string, nodes: seq<Wrappable>, maxLen: int, tabWidth: int): (edits: seq<string>)
    requires tabWidth > 0 && AllOrdered(nodes) && Separate(nodes, |src|)
    ensures |edits| == |nodes|
  {
    if nodes == [] then []
    else
      SeparateInit(nodes, nodes[..|nodes| - 1], nodes[|nodes| - 1], |src|);
      EditsOf(src, nodes[..|nodes| - 1], maxLen, tabWidth) + [Edit(src, nodes[|nodes| - 1], maxLen, tabWidth)]
  }

  /** The buffer from offset `lo` on, put together from the original text:
      the untouched gaps between the constructs, and for each construct its
      edit. */
  function Assembled(src: string, nodes: seq<Wrappable>, edits: seq<string>, lo: int): string
    requires Separate(nodes, |src|) && |edits| == |nodes|
    requires 0 <= lo <= |src| && (nodes != [] ==> lo <= nodes[|nodes| - 1].open)
    decreases |nodes|
  {
    if nodes == [] then src[lo..]
    else
      var last := nodes[|nodes| - 1];
      src[lo..last.open]
        + (edits[|edits| - 1] + Assembled(src, nodes[..|nodes| - 1], edits[..|edits| - 1], last.close + 1))
  }

  /** One step of the assembly: the text up to the last construct, its
      edit, and the assembly of the constructs below it. */
  lemma AssembledHead(src: string, nodes: seq<Wrappable>, edits: seq<string>, lo: int)
    requires Separate(nodes, |src|) && |edits| == |nodes| && nodes != []
    requires 0 <= lo <= nodes[|nodes| - 1].open
    ensures var init, last := nodes[..|nodes| - 1], nodes[|nodes| - 1];
            Separate(init, |src|)
            && Assembled(src, nodes, edits, lo)
               == src[lo..last.open] + (edits[|edits| - 1] + Assembled(src, init, edits[..|edits| - 1], last.close + 1))
  {
    SeparateInit(nodes, nodes[..|nodes| - 1], nodes[|nodes| - 1], |src|);
  }

  lemma {:induction false} AssembledUnfold(src: string, nodes: seq<Wrappable>, edits: seq<string>, lo: int, p: int)
    requires Separate(nodes, |src|) && |edits| == |nodes| && nodes != []
    requires 0 <= lo <= p <= nodes[|nodes| - 1].open
    ensures Assembled(src, nodes, edits, lo) == src[lo..p] + Assembled(src, nodes, edits, p)
  {
    var init, last := nodes[..|nodes| - 1], nodes[|nodes| - 1];
    SeparateInit(nodes, init, last, |src|);
    var tail := edits[|edits| - 1] + Assembled(src, init, edits[..|edits| - 1], last.close + 1);
    AssembledHead(src, nodes, edits, lo);
    AssembledHead(src, nodes, edits, p);
    SliceShift(src, lo, p, last.open, tail);
  }

  lemma AssembledLast(src: string, nodes: seq<Wrappable>, edits: seq<string>)
    requires Separate(nodes, |src|) && |edits| == |nodes| && nodes != []
    ensures var init, last := nodes[..|nodes| - 1], nodes[|nodes| - 1];
            Assembled(src, nodes, edits, 0)
            == src[..last.open] + edits[|edits| - 1] + Assembled(src, init, edits[..|edits| - 1], last.close + 1)
  {
    assert src[..nodes[|nodes| - 1].open] == src[0..nodes[|nodes| - 1].open];
  }

  /** Starting the assembly earlier only adds the original text in between. */
  lemma AssembledShift(src: string, nodes: seq<Wrappable>, edits: seq<string>, lo: int, p: int)
    requires Separate(nodes, |src|) && |edits| == |nodes|
    requires 0 <= lo <= p <= |src| && (nodes != [] ==> p <= nodes[|nodes| - 1].open)
    ensures Assembled(src, nodes, edits, lo) == src[lo..p] + Assembled(src, nodes, edits, p)
  {
    if nodes == [] {
      assert src[lo..] == src[lo..p] + src[p..];
    } else {
      AssembledUnfold(src, nodes, edits, lo, p);
    }
  }

  /** The rewrite of the lowest construct, on a buffer that agrees with the
      original up to its closing delimiter, is the original's edit spliced
      in. */
  lemma RewriteOfAgreeing(src: string, cur: string, n: Wrappable, maxLen: int, tabWidth: int)
    requires tabWidth > 0 && Ordered(n.items) && Inside(n)
    requires 0 <= n.open <= n.close < |src| && n.close < |cur|
    requires cur[..n.close + 1] == src[..n.close + 1]
    ensures Edit(cur, n, maxLen, tabWidth) == Edit(src, n, maxLen, tabWidth)
    ensures Rewrite(cur, n, maxLen, tabWidth)
            == src[..n.open] + Edit(src, n, maxLen, tabWidth) + cur[n.close + 1..]
    ensures Rewrite(cur, n, maxLen, tabWidth) == cur
            <==> Edit(src, n, maxLen, tabWidth) == src[n.open..n.close + 1]
  {
    ReplacementLocal(src, cur, n, maxLen, tabWidth);
    AgreeBelow(src, cur, n.close + 1, n.open, n.close + 1);
    AgreeBelow(src, cur, n.close + 1, 0, n.open);
    RewriteSplicesEdit(cur, n, maxLen, tabWidth);
  }

  /** The buffer after the constructs ahead of the current one agrees with
      the original up to `p` and, from `p` on, is their assembly. */
  predicate AgreesUpTo(src: string, cur: string, nodes: seq<Wrappable>, p: int, maxLen: int, tabWidth: int)
    requires tabWidth > 0 && AllOrdered(nodes) && Separate(nodes, |src|)
    requires 0 <= p <= |src| && (nodes != [] ==> p <= nodes[|nodes| - 1].open)
  {
    && p <= |cur|
    && cur[..p] == src[..p]
    && cur[p..] == Assembled(src, nodes, EditsOf(src, nodes, maxLen, tabWidth), p)
  }

  /** One step of the induction below: the lowest construct's rewrite on a
      buffer that agrees with the original up to its closing delimiter. */
  lemma AppliedStep(src: string, nodes: seq<Wrappable>, maxLen: int, tabWidth: int)
    requires tabWidth > 0 && AllOrdered(nodes) && Separate(nodes, |src|) && nodes != []
    requires AgreesUpTo(src, Applied(src, nodes[..|nodes| - 1], maxLen, tabWidth), nodes[..|nodes| - 1],
                        nodes[|nodes| - 1].close + 1, maxLen, tabWidth)
    ensures Applied(src, nodes, maxLen, tabWidth) == Assembled(src, nodes, EditsOf(src, nodes, maxLen, tabWidth), 0)
  {
    var init, last := nodes[..|nodes| - 1], nodes[|nodes| - 1];
    SeparateInit(nodes, init, last, |src|);
    var cur := Applied(src, init, maxLen, tabWidth);
    var edits := EditsOf(src, nodes, maxLen, tabWidth);
    assert edits[..|edits| - 1] == EditsOf(src, init, maxLen, tabWidth)
           && edits[|edits| - 1] == Edit(src, last, maxLen, tabWidth) by {
      assert edits == EditsOf(src, init, maxLen, tabWidth) + [Edit(src, last, maxLen, tabWidth)];
    }
    var rest := Assembled(src, init, edits[..|edits| - 1], last.close + 1);
    assert cur[last.close + 1..] == rest;
    assert Rewrite(cur, last, maxLen, tabWidth)
           == src[..last.open] + Edit(src, last, maxLen, tabWidth) + cur[last.close + 1..] by {
      RewriteOfAgreeing(src, cur, last, maxLen, tabWidth);
    }
    AssembledLast(src, nodes, edits);
    assert Applied(src, nodes, maxLen, tabWidth) == Rewrite(cur, last, maxLen, tabWidth);
  }

  /** Applying `processNode` in descending order to constructs that do not
      interfere gives the same buffer as computing every construct's edit
      on the original text and splicing them all in: the stale offsets of
      the later calls still point at the right text. */
  lemma {:induction false} AppliedIsAssembled(src: string, nodes: seq<Wrappable>, maxLen: int, tabWidth: int)
    requires tabWidth > 0 && AllOrdered(nodes) && Separate(nodes, |src|)
    ensures Applied(src, nodes, maxLen, tabWidth) == Assembled(src, nodes, EditsOf(src, nodes, maxLen, tabWidth), 0)
    decreases |nodes|, 1
  {
    if nodes == [] {
      assert src[0..] == src;
    } else {
      var init, last := nodes[..|nodes| - 1], nodes[|nodes| - 1];
      SeparateInit(nodes, init, last, |src|);
      PrefixKept(src, init, last.close + 1, maxLen, tabWidth);
      AppliedStep(src, nodes, maxLen, tabWidth);
    }
  }

  /** The constructs below offset `p` are not touched by those above it. */
  lemma {:induction false} PrefixKept(src: string, nodes: seq<Wrappable>, p: int, maxLen: int, tabWidth: int)
    requires tabWidth > 0 && AllOrdered(nodes) && Separate(nodes, |src|)
    requires 0 <= p <= |src| && (nodes != [] ==> p <= nodes[|nodes| - 1].open)
    ensures AgreesUpTo(src, Applied(src, nodes, maxLen, tabWidth), nodes, p, maxLen, tabWidth)
    decreases |nodes|, 2
  {
    AppliedIsAssembled(src, nodes, maxLen, tabWidth);
    var cur := Applied(src, nodes, maxLen, tabWidth);
    var rest := Assembled(src, nodes, EditsOf(src, nodes, maxLen, tabWidth), p);
    AssembledShift(src, nodes, EditsOf(src, nodes, maxLen, tabWidth), 0, p);
    assert cur == src[0..p] + rest;
    assert cur[..p] == src[..p];
    assert cur[p..] == rest;
  }

  lemma RewriteChangesIffEditDiffers(src: string, cur: string, n: Wrappable, maxLen: int, tabWidth: int)
    requires tabWidth > 0 && Ordered(n.items) && Inside(n)
    requires 0 <= n.open <= n.close < |src| && n.close < |cur|
    requires cur[..n.close + 1] == src[..n.close + 1]
    ensures Rewrite(cur, n, maxLen, tabWidth) != cur
            <==> Edit(src, n, maxLen, tabWidth) != src[n.open..n.close + 1]
  {
    RewriteOfAgreeing(src, cur, n, maxLen, tabWidth);
  }

  /** Some construct's edit differs from the original text it replaces. */
  predicate Differs(src: string, nodes: seq<Wrappable>, edits: seq<string>)
    requires Separate(nodes, |src|) && |edits| == |nodes|
    decreases |nodes|
  {
    && nodes != []
    && var last := nodes[|nodes| - 1];
       || Differs(src, nodes[..|nodes| - 1], edits[..|edits| - 1])
       || edits[|edits| - 1] != src[last.open..last.close + 1]
  }

  /** The last call changes the buffer exactly when the last construct's
      edit differs from the original text it replaces. */
  lemma LastCallChanges(src: string, nodes: seq<Wrappable>, maxLen: int, tabWidth: int)
    requires tabWidth > 0 && AllOrdered(nodes) && Separate(nodes, |src|) && nodes != []
    ensures var init, last := nodes[..|nodes| - 1], nodes[|nodes| - 1];
            var cur := Applied(src, init, maxLen, tabWidth);
            var edits := EditsOf(src, nodes, maxLen, tabWidth);
            Rewrite(cur, last, maxLen, tabWidth) != cur <==> edits[|edits| - 1] != src[last.open..last.close + 1]
  {
    var init, last := nodes[..|nodes| - 1], nodes[|nodes| - 1];
    SeparateInit(nodes, init, last, |src|);
    var cur := Applied(src, init, maxLen, tabWidth);
    assert cur[..last.close + 1] == src[..last.close + 1] by {
      PrefixKept(src, init, last.close + 1, maxLen, tabWidth);
    }
    RewriteChangesIffEditDiffers(src, cur, last, maxLen, tabWidth);
  }

  /** For constructs that do not interfere, the `changed` flag is set
      exactly when some construct's edit, computed on the original buffer,
      differs from the text it replaces. */
  lemma {:induction false} ChangedIffSomeEditDiffers(src: string, nodes: seq<Wrappable>, maxLen: int, tabWidth: int)
    requires tabWidth > 0 && AllOrdered(nodes) && Separate(nodes, |src|)
    ensures Changed(src, nodes, maxLen, tabWidth) == Differs(src, nodes, EditsOf(src, nodes, maxLen, tabWidth))
  {
    if nodes != [] {
      var init, last := nodes[..|nodes| - 1], nodes[|nodes| - 1];
      SeparateInit(nodes, init, last, |src|);
      ChangedIffSomeEditDiffers(src, init, maxLen, tabWidth);
      LastCallChanges(src, nodes, maxLen, tabWidth);
      var edits := EditsOf(src, nodes, maxLen, tabWidth);
      assert EditsOf(src, init, maxLen, tabWidth) == edits[..|edits| - 1];
    }
  }
}
