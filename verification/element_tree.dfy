/**
 The parsed XML document the converter reads: an immutable element tree with
 namespace-resolved tags, and the two searches the converter uses on it.

 - `Find`/`FindAll` look at direct children only (ElementTree's
   `find(tag)`/`findall(tag)`).
 - `FindDescendant`/`FindAllDescendants` look at every element strictly below
   the node in document (pre-)order (ElementTree's `find('.//' + tag)` and
   `findall('.//' + tag)`).
 */
module ElementTree {
  import opened Wrappers

  /** An element: its tag, attributes, text (`None` when it has none) and
      child elements in document order. Tail text is not used and not modelled. */
  datatype Elem = Elem(tag: string, attrs: map<string, string>, text: Option<string>, children: seq<Elem>)

  /** Every element of the trees rooted at `cs`, in document order: each root
      comes before its own descendants, which come before the next root. */
  function Preorder(cs: seq<Elem>): seq<Elem>
    decreases cs
  {
    if |cs| == 0 then []
    else [cs[0]] + Preorder(cs[0].children) + Preorder(cs[1..])
  }

  /** The elements strictly below `e`, in document order. */
  function Descendants(e: Elem): seq<Elem> {
    Preorder(e.children)
  }

  /** The position of the first element of `xs` with the tag; `|xs|` when
      there is none. */
  function FirstIndex(xs: seq<Elem>, tag: string): (k: nat)
    ensures k <= |xs|
    ensures forall j :: 0 <= j < k ==> xs[j].tag != tag
    ensures k < |xs| ==> xs[k].tag == tag
  {
    if |xs| == 0 || xs[0].tag == tag then 0
    else
      var k := FirstIndex(xs[1..], tag);
      assert forall j :: 1 <= j < k + 1 ==> xs[j] == xs[1..][j - 1];
      k + 1
  }

  /** The first element of `xs` with the tag. */
  function FirstTagged(xs: seq<Elem>, tag: string): (r: Option<Elem>)
    ensures r.None? <==> forall i :: 0 <= i < |xs| ==> xs[i].tag != tag
    ensures r.Some? ==> r.value.tag == tag && r.value in xs
    ensures r.Some? ==> r.value == xs[FirstIndex(xs, tag)]
  {
    var k := FirstIndex(xs, tag);
    if k < |xs| then Some(xs[k]) else None
  }

  /** The elements of `xs` with the tag, in their order. */
  function Tagged(xs: seq<Elem>, tag: string): (r: seq<Elem>)
    ensures |r| <= |xs|
    ensures forall x :: x in r <==> x in xs && x.tag == tag
  {
    if |xs| == 0 then []
    else if xs[0].tag == tag then [xs[0]] + Tagged(xs[1..], tag)
    else Tagged(xs[1..], tag)
  }

  /** `e.find(tag)`: the first direct child with the tag. */
  function Find(e: Elem, tag: string): (r: Option<Elem>)
    ensures r.None? <==> forall i :: 0 <= i < |e.children| ==> e.children[i].tag != tag
    ensures r.Some? ==> r.value.tag == tag && r.value == e.children[FirstIndex(e.children, tag)]
  {
    FirstTagged(e.children, tag)
  }

  /** `e.findall(tag)`: the direct children with the tag. */
  function FindAll(e: Elem, tag: string): (r: seq<Elem>)
    ensures forall x :: x in r <==> x in e.children && x.tag == tag
  {
    Tagged(e.children, tag)
  }

  /** `e.find('.//' + tag)`: the first element below `e` with the tag. */
  function FindDescendant(e: Elem, tag: string): (r: Option<Elem>)
    ensures r.None? <==> forall i :: 0 <= i < |Descendants(e)| ==> Descendants(e)[i].tag != tag
    ensures r.Some? ==> r.value.tag == tag && r.value == Descendants(e)[FirstIndex(Descendants(e), tag)]
  {
    FirstTagged(Descendants(e), tag)
  }

  /** `e.findall('.//' + tag)`: every element below `e` with the tag. */
  function FindAllDescendants(e: Elem, tag: string): (r: seq<Elem>)
    ensures forall x :: x in r <==> x in Descendants(e) && x.tag == tag
  {
    Tagged(Descendants(e), tag)
  }

  // ---------------------------------------------------------------------
  // Properties of the searches
  // ---------------------------------------------------------------------

  /** `find` returns the head of what `findall` returns. */
  lemma {:induction false} FirstIsHeadOfTagged(xs: seq<Elem>, tag: string)
    ensures FirstTagged(xs, tag) == if Tagged(xs, tag) == [] then None else Some(Tagged(xs, tag)[0])
  {
    if |xs| > 0 && xs[0].tag != tag {
      FirstIsHeadOfTagged(xs[1..], tag);
    }
  }

  /** A single element is kept exactly when it carries the tag. Together with
      `TaggedConcat` this fixes `Tagged` on every list: the elements with the
      tag, each once per occurrence, in their original order. */
  lemma {:induction false} TaggedSingle(x: Elem, tag: string)
    ensures Tagged([x], tag) == if x.tag == tag then [x] else []
  {
    assert [x][1..] == [];
  }

  /** Nothing is dropped exactly when every element carries the tag, and then
      the list comes back unchanged. */
  lemma {:induction false} TaggedAll(xs: seq<Elem>, tag: string)
    ensures |Tagged(xs, tag)| == |xs| <==> forall i :: 0 <= i < |xs| ==> xs[i].tag == tag
    ensures |Tagged(xs, tag)| == |xs| ==> Tagged(xs, tag) == xs
  {
    if |xs| > 0 {
      TaggedAll(xs[1..], tag);
      assert forall i :: 0 < i < |xs| ==> xs[i] == xs[1..][i - 1];
      assert xs == [xs[0]] + xs[1..];
    }
  }

  /** Filtering distributes over concatenation, so the relative order of the
      kept elements is that of the input. */
  lemma {:induction false} TaggedConcat(a: seq<Elem>, b: seq<Elem>, tag: string)
    ensures Tagged(a + b, tag) == Tagged(a, tag) + Tagged(b, tag)
  {
    if |a| == 0 {
      assert a + b == b;
    } else {
      assert (a + b)[1..] == a[1..] + b;
      TaggedConcat(a[1..], b, tag);
    }
  }

  /** One tree lists its root, then everything below the root. */
  lemma {:induction false} PreorderOne(e: Elem)
    ensures Preorder([e]) == [e] + Descendants(e)
  {
    assert [e][1..] == [];
  }

  lemma {:induction false} PreorderConcat(a: seq<Elem>, b: seq<Elem>)
    ensures Preorder(a + b) == Preorder(a) + Preorder(b)
  {
    if |a| == 0 {
      assert a + b == b;
    } else {
      assert (a + b)[0] == a[0];
      assert (a + b)[1..] == a[1..] + b;
      PreorderConcat(a[1..], b);
    }
  }

  /** Depth-first search for the first element with the tag among the trees
      rooted at `cs`: a root is tried before its subtree, a subtree before the
      next root. This is the recursive formulation of `find('.//' + tag)`. */
  function SearchTrees(cs: seq<Elem>, tag: string): Option<Elem>
    decreases cs
  {
    if |cs| == 0 then None
    else if cs[0].tag == tag then Some(cs[0])
    else match SearchTrees(cs[0].children, tag)
      case Some(d) => Some(d)
      case None => SearchTrees(cs[1..], tag)
  }

  lemma {:induction false} FirstTaggedConcat(a: seq<Elem>, b: seq<Elem>, tag: string)
    ensures FirstTagged(a + b, tag) == if FirstTagged(a, tag).Some? then FirstTagged(a, tag) else FirstTagged(b, tag)
  {
    if |a| == 0 {
      assert a + b == b;
    } else {
      assert (a + b)[1..] == a[1..] + b;
      FirstTaggedConcat(a[1..], b, tag);
    }
  }

  /** The listing of a non-empty forest: its first root, that root's
      descendants, then the listing of the remaining trees. */
  lemma {:induction false} PreorderStep(cs: seq<Elem>)
    requires |cs| > 0
    ensures Preorder(cs) == [cs[0]] + (Preorder(cs[0].children) + Preorder(cs[1..]))
  {
  }

  lemma {:induction false} FirstTaggedCons(x: Elem, rest: seq<Elem>, tag: string)
    ensures FirstTagged([x] + rest, tag) == if x.tag == tag then Some(x) else FirstTagged(rest, tag)
  {
    FirstTaggedConcat([x], rest, tag);
    assert [x][1..] == [];
  }

  /** Searching the document-order listing agrees with the depth-first search. */
  lemma {:induction false} FirstTaggedPreorder(cs: seq<Elem>, tag: string)
    ensures FirstTagged(Preorder(cs), tag) == SearchTrees(cs, tag)
    decreases cs
  {
    if |cs| > 0 {
      var sub := Preorder(cs[0].children);
      var rest := Preorder(cs[1..]);
      PreorderStep(cs);
      FirstTaggedCons(cs[0], sub + rest, tag);
      FirstTaggedConcat(sub, rest, tag);
      FirstTaggedPreorder(cs[0].children, tag);
      FirstTaggedPreorder(cs[1..], tag);
    }
  }

  /** `find('.//' + tag)` is the depth-first search over the children. */
  lemma {:induction false} FindDescendantIsSearch(e: Elem, tag: string)
    ensures FindDescendant(e, tag) == SearchTrees(e.children, tag)
  {
    FirstTaggedPreorder(e.children, tag);
  }

  /** Every tree root is listed, and so is everything below it. */
  lemma {:induction false} PreorderContains(cs: seq<Elem>, i: int)
    requires 0 <= i < |cs|
    ensures cs[i] in Preorder(cs)
    ensures forall d :: d in Preorder(cs[i].children) ==> d in Preorder(cs)
    decreases cs
  {
    if i > 0 {
      PreorderContains(cs[1..], i - 1);
      assert cs[1..][i - 1] == cs[i];
    }
  }

  /** Below-ness is transitive: what is below a descendant of `e` is below `e`. */
  lemma {:induction false} PreorderClosed(cs: seq<Elem>, d: Elem)
    requires d in Preorder(cs)
    ensures forall x :: x in Descendants(d) ==> x in Preorder(cs)
    decreases cs
  {
    var sub := Preorder(cs[0].children);
    var rest := Preorder(cs[1..]);
    assert Preorder(cs) == [cs[0]] + sub + rest;
    if d == cs[0] {
      PreorderContains(cs, 0);
    } else if d in sub {
      PreorderClosed(cs[0].children, d);
    } else {
      assert d in rest;
      PreorderClosed(cs[1..], d);
    }
  }

  lemma {:induction false} DescendantsTransitive(e: Elem, d: Elem, x: Elem)
    requires d in Descendants(e) && x in Descendants(d)
    ensures x in Descendants(e)
  {
    PreorderClosed(e.children, d);
  }
}
