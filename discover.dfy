/** Which syntax nodes become bracketed lists (`collectWrappables` and
    `collectFuncType` in formatter.go). The parser and the tree walk are not
    modelled: the walk is given as the sequence of nodes it visits, each
    reduced to the delimiters and item offsets the selection looks at. */
module Discover {
  import opened Text
  import opened Node

  /** A parameter or result list of a function signature. `hasOpening` says
      whether the list has an opening parenthesis (Go's
      `Opening.IsValid()`): an unparenthesized single result has none. */
  datatype FieldList = FieldList(opening: int, hasOpening: bool, closing: int, fields: seq<Span>)

  /** The syntax nodes the walk can meet. `Signature` stands for the type
      of a function declaration or a function literal; nodes of any other
      kind are `Other`. */
  datatype Construct =
    | Call(lparen: int, rparen: int, args: seq<Span>)
    | CompositeLit(lbrace: int, rbrace: int, elts: seq<Span>)
    | Signature(params: Option<FieldList>, results: Option<FieldList>)
    | Other

  function ListOf(f: FieldList): Wrappable
  {
    Wrappable(f.opening, f.closing, f.fields)
  }

  /** `collectFuncType`: a non-empty parameter list, then a result list of
      at least two fields written in parentheses. */
  function SignatureLists(params: Option<FieldList>, results: Option<FieldList>): seq<Wrappable>
  {
    (if params.Some? && |params.value.fields| > 0 then [ListOf(params.value)] else [])
    + (if results.Some? && |results.value.fields| > 1 && results.value.hasOpening then [ListOf(results.value)] else [])
  }

  /** What visiting one node appends to the list: calls and composite
      literals with at least one element, and the lists of a signature. */
  function Selected(c: Construct): seq<Wrappable>
  {
    match c
    case Call(lparen, rparen, args) => if |args| > 0 then [Wrappable(lparen, rparen, args)] else []
    case CompositeLit(lbrace, rbrace, elts) => if |elts| > 0 then [Wrappable(lbrace, rbrace, elts)] else []
    case Signature(params, results) => SignatureLists(params, results)
    case Other => []
  }

  /** `collectWrappables`: the lists of every node, in the order the walk
      visits the nodes. */
  function Collect(cs: seq<Construct>): seq<Wrappable>
  {
    if cs == [] then [] else Collect(cs[..|cs| - 1]) + Selected(cs[|cs| - 1])
  }

  /** A node contributes at most two lists, and none of them is empty. */
  lemma SelectedShape(c: Construct)
    ensures |Selected(c)| <= 2
    ensures forall k :: 0 <= k < |Selected(c)| ==> |Selected(c)[k].items| > 0
    ensures !c.Signature? ==> |Selected(c)| <= 1
  {
  }

  /** A call or composite literal is selected exactly when it has an
      element, and then with its own delimiters and element offsets. */
  lemma CallSelectedIff(lparen: int, rparen: int, args: seq<Span>)
    ensures Selected(Call(lparen, rparen, args)) != [] <==> |args| > 0
    ensures |args| > 0 ==> Selected(Call(lparen, rparen, args)) == [Wrappable(lparen, rparen, args)]
    ensures Selected(CompositeLit(lparen, rparen, args)) != [] <==> |args| > 0
    ensures |args| > 0 ==> Selected(CompositeLit(lparen, rparen, args)) == [Wrappable(lparen, rparen, args)]
  {
  }

  /** A result list of one field, or one written without parentheses, is
      never selected: the signature contributes exactly what it would
      without any results. */
  lemma SingleResultNotCollected(params: Option<FieldList>, r: FieldList)
    requires |r.fields| <= 1 || !r.hasOpening
    ensures Selected(Signature(params, Some(r))) == Selected(Signature(params, None))
  {
  }

  /** A parenthesized result list of two or more fields is selected, after
      the parameter list. */
  lemma ResultsCollected(params: Option<FieldList>, r: FieldList)
    requires |r.fields| > 1 && r.hasOpening
    ensures Selected(Signature(params, Some(r))) == Selected(Signature(params, None)) + [ListOf(r)]
  {
    assert Selected(Signature(params, None)) == SignatureLists(params, None) + [];
  }

  /** The walk's order is kept: collecting two stretches of nodes gives the
      two collections one after the other. */
  lemma {:induction false} CollectAppend(a: seq<Construct>, b: seq<Construct>)
    ensures Collect(a + b) == Collect(a) + Collect(b)
    decreases |b|
  {
    if b == [] {
      assert a + b == a;
    } else {
      var b', last := b[..|b| - 1], b[|b| - 1];
      calc {
        Collect(a + b);
        { assert (a + b)[..|a + b| - 1] == a + b';
          assert (a + b)[|a + b| - 1] == last; }
        Collect(a + b') + Selected(last);
        { CollectAppend(a, b'); }
        (Collect(a) + Collect(b')) + Selected(last);
        Collect(a) + (Collect(b') + Selected(last));
        Collect(a) + Collect(b);
      }
    }
  }

  /** Every visited node's lists are collected. */
  lemma {:induction false} CollectKeeps(cs: seq<Construct>, k: int, w: Wrappable)
    requires 0 <= k < |cs| && w in Selected(cs[k])
    ensures w in Collect(cs)
  {
    var init, last := cs[..|cs| - 1], cs[|cs| - 1];
    assert Collect(cs) == Collect(init) + Selected(last);
    if k < |init| {
      assert cs[k] == init[k];
      CollectKeeps(init, k, w);
    }
  }

  /** Every collected list belongs to some visited node. */
  lemma {:induction false} CollectOrigin(cs: seq<Construct>, w: Wrappable) returns (k: int)
    requires w in Collect(cs)
    ensures 0 <= k < |cs| && w in Selected(cs[k])
  {
    var init, last := cs[..|cs| - 1], cs[|cs| - 1];
    assert Collect(cs) == Collect(init) + Selected(last);
    if w in Collect(init) {
      k := CollectOrigin(init, w);
      assert cs[k] == init[k];
    } else {
      k := |cs| - 1;
    }
  }

  /** Together: the collected lists are exactly the lists of the visited
      nodes. */
  lemma CollectMembers(cs: seq<Construct>)
    ensures forall w :: w in Collect(cs) <==> exists k :: 0 <= k < |cs| && w in Selected(cs[k])
  {
    forall w
      ensures w in Collect(cs) <==> exists k :: 0 <= k < |cs| && w in Selected(cs[k])
    {
      if w in Collect(cs) {
        var k := CollectOrigin(cs, w);
      }
      if exists k :: 0 <= k < |cs| && w in Selected(cs[k]) {
        var k :| 0 <= k < |cs| && w in Selected(cs[k]);
        CollectKeeps(cs, k, w);
      }
    }
  }

  /** No collected list is empty, and a walk over `n` nodes collects at
      most `2n` lists. */
  lemma {:induction false} CollectShape(cs: seq<Construct>)
    ensures forall k :: 0 <= k < |Collect(cs)| ==> |Collect(cs)[k].items| > 0
    ensures |Collect(cs)| <= 2 * |cs|
  {
    if cs != [] {
      var init, last := cs[..|cs| - 1], cs[|cs| - 1];
      CollectShape(init);
      SelectedShape(last);
      var before, added := Collect(init), Selected(last);
      assert Collect(cs) == before + added;
      forall k | 0 <= k < |Collect(cs)|
        ensures |Collect(cs)[k].items| > 0
      {
        if k < |before| {
          assert Collect(cs)[k] == before[k];
        } else {
          assert Collect(cs)[k] == added[k - |before|];
        }
      }
    }
  }
}
