/**
 The document walker (`convert`, less its file I/O): every `Placemark`
 below the root, in document order, is mapped to a Feature, Placemarks
 without a Feature are dropped, and the Features are wrapped in a
 FeatureCollection together with their count.
 */
module Convert {
  import opened Wrappers
  import opened ElementTree
  import opened Placemark

  /** A GeoJSON FeatureCollection (section 3.3 of RFC 7946). */
  datatype FeatureCollection<N> = FeatureCollection(features: seq<Feature<N>>)

  /** The images of `pms` under `toFeature`, in order, each element without
      an image left out. */
  function KeepSome<F>(pms: seq<Elem>, toFeature: Elem -> Option<F>): (r: seq<F>)
    ensures |r| <= |pms|
  {
    if |pms| == 0 then []
    else OptionToSeq(toFeature(pms[0])) + KeepSome(pms[1..], toFeature)
  }

  /** Nothing is left out exactly when every element has an image, and then
      the result lists those images in order; the result is empty exactly
      when no element has one. */
  lemma {:induction false} KeepSomeAllOrNone<F>(pms: seq<Elem>, toFeature: Elem -> Option<F>)
    ensures |KeepSome(pms, toFeature)| == |pms| <==> forall i :: 0 <= i < |pms| ==> toFeature(pms[i]).Some?
    ensures |KeepSome(pms, toFeature)| == |pms| ==>
      forall i :: 0 <= i < |pms| ==> Some(KeepSome(pms, toFeature)[i]) == toFeature(pms[i])
    ensures KeepSome(pms, toFeature) == [] <==> forall i :: 0 <= i < |pms| ==> toFeature(pms[i]).None?
  {
    if |pms| > 0 {
      KeepSomeAllOrNone(pms[1..], toFeature);
      assert forall i :: 0 < i < |pms| ==> pms[i] == pms[1..][i - 1];
    }
  }

  lemma {:induction false} KeepSomeConcat<F>(a: seq<Elem>, b: seq<Elem>, toFeature: Elem -> Option<F>)
    ensures KeepSome(a + b, toFeature) == KeepSome(a, toFeature) + KeepSome(b, toFeature)
  {
    if |a| == 0 {
      assert a + b == b;
    } else {
      assert (a + b)[1..] == a[1..] + b;
      KeepSomeConcat(a[1..], b, toFeature);
    }
  }

  /** Extending the list by one element extends the result by its image. */
  lemma {:induction false} KeepSomeAppend<F>(pms: seq<Elem>, i: int, toFeature: Elem -> Option<F>)
    requires 0 <= i < |pms|
    ensures KeepSome(pms[..i + 1], toFeature) == KeepSome(pms[..i], toFeature) + OptionToSeq(toFeature(pms[i]))
  {
    assert pms[..i + 1] == pms[..i] + [pms[i]];
    KeepSomeConcat(pms[..i], [pms[i]], toFeature);
    assert [pms[i]][1..] == [];
  }

  /** A single element contributes its image, if it has one. */
  lemma {:induction false} KeepSomeSingle<F>(e: Elem, toFeature: Elem -> Option<F>)
    ensures KeepSome([e], toFeature) == OptionToSeq(toFeature(e))
  {
    assert [e][1..] == [];
  }

  /** A value is kept exactly when it is the image of one of the elements. */
  lemma {:induction false} KeepSomeMembers<F>(pms: seq<Elem>, toFeature: Elem -> Option<F>, f: F)
    ensures f in KeepSome(pms, toFeature) <==> exists pm :: pm in pms && toFeature(pm) == Some(f)
  {
    if |pms| > 0 {
      KeepSomeMembers(pms[1..], toFeature, f);
      assert pms == [pms[0]] + pms[1..];
      if exists pm :: pm in pms && toFeature(pm) == Some(f) {
        var pm :| pm in pms && toFeature(pm) == Some(f);
        if pm != pms[0] {
          assert pm in pms[1..];
        }
      }
    }
  }

  /** Every kept value satisfies what every image satisfies. */
  lemma {:induction false} KeepSomeAll<F>(pms: seq<Elem>, toFeature: Elem -> Option<F>, good: F -> bool)
    requires forall pm :: toFeature(pm).Some? ==> good(toFeature(pm).value)
    ensures forall i :: 0 <= i < |KeepSome(pms, toFeature)| ==> good(KeepSome(pms, toFeature)[i])
  {
    if |pms| > 0 {
      KeepSomeAll(pms[1..], toFeature, good);
    }
  }

  /** A recursive walk over the trees rooted at `cs`: the image of each root
      carrying the tag, then the images below it, then those of the following
      trees. */
  function Walk<F>(cs: seq<Elem>, tag: string, toFeature: Elem -> Option<F>): seq<F>
    decreases cs
  {
    if |cs| == 0 then []
    else
      var own := if cs[0].tag == tag then KeepSome([cs[0]], toFeature) else [];
      own + Walk(cs[0].children, tag, toFeature) + Walk(cs[1..], tag, toFeature)
  }

  /** What the walk contributes for a single root, before its subtree. */
  lemma {:induction false} KeepSomeTaggedOne<F>(e: Elem, tag: string, toFeature: Elem -> Option<F>)
    ensures KeepSome(Tagged([e], tag), toFeature) == if e.tag == tag then KeepSome([e], toFeature) else []
  {
    assert [e][1..] == [];
  }

  /** One step of the tagged document-order listing: the first root, its
      subtree, then the following trees. */
  lemma {:induction false} TaggedPreorderStep(cs: seq<Elem>, tag: string)
    requires |cs| > 0
    ensures Tagged(Preorder(cs), tag) ==
      Tagged([cs[0]], tag) + Tagged(Preorder(cs[0].children), tag) + Tagged(Preorder(cs[1..]), tag)
  {
    var sub := Preorder(cs[0].children);
    var rest := Preorder(cs[1..]);
    assert Preorder(cs) == [cs[0]] + (sub + rest);
    TaggedConcat([cs[0]], sub + rest, tag);
    TaggedConcat(sub, rest, tag);
  }

  lemma {:induction false} KeepSomeConcat3<F>(a: seq<Elem>, b: seq<Elem>, c: seq<Elem>, toFeature: Elem -> Option<F>)
    ensures KeepSome(a + b + c, toFeature) == KeepSome(a, toFeature) + KeepSome(b, toFeature) + KeepSome(c, toFeature)
  {
    KeepSomeConcat(a + b, c, toFeature);
    KeepSomeConcat(a, b, toFeature);
  }

  /** Filtering the document-order listing by tag and mapping agrees with the
      recursive walk. */
  lemma {:induction false} WalkIsKeepSomeOfPreorder<F>(cs: seq<Elem>, tag: string, toFeature: Elem -> Option<F>)
    ensures KeepSome(Tagged(Preorder(cs), tag), toFeature) == Walk(cs, tag, toFeature)
    decreases cs
  {
    if |cs| > 0 {
      var own := Tagged([cs[0]], tag);
      var sub := Tagged(Preorder(cs[0].children), tag);
      var rest := Tagged(Preorder(cs[1..]), tag);
      TaggedPreorderStep(cs, tag);
      KeepSomeConcat3(own, sub, rest, toFeature);
      KeepSomeTaggedOne(cs[0], tag, toFeature);
      WalkIsKeepSomeOfPreorder(cs[0].children, tag, toFeature);
      WalkIsKeepSomeOfPreorder(cs[1..], tag, toFeature);
    }
  }

  /** `placemark_to_feature`, as a function value. */
  function Mapper<N>(parseNum: string -> Option<N>): Elem -> Option<Feature<N>> {
    pm => PlacemarkToFeature(pm, parseNum)
  }

  /** The Features the conversion collects: the images of
      `root.findall('.//Placemark')`. There is at most one per Placemark, and
      there are none exactly when no Placemark below the root yields one. */
  function Features<N>(root: Elem, parseNum: string -> Option<N>): (r: seq<Feature<N>>)
    ensures |r| <= |FindAllDescendants(root, Kml("Placemark"))|
    ensures r == [] <==> forall i :: 0 <= i < |FindAllDescendants(root, Kml("Placemark"))| ==>
      PlacemarkToFeature(FindAllDescendants(root, Kml("Placemark"))[i], parseNum).None?
  {
    KeepSomeAllOrNone(FindAllDescendants(root, Kml("Placemark")), Mapper(parseNum));
    KeepSome(FindAllDescendants(root, Kml("Placemark")), Mapper(parseNum))
  }

  /** The loop of `convert`: each element in turn is mapped, and its image,
      when it has one, is appended. */
  method CollectImages<F>(pms: seq<Elem>, toFeature: Elem -> Option<F>) returns (features: seq<F>)
    ensures features == KeepSome(pms, toFeature)
  {
    features := [];
    var i := 0;
    while i < |pms|
      invariant 0 <= i <= |pms|
      invariant features == KeepSome(pms[..i], toFeature)
    {
      var feat := toFeature(pms[i]);
      KeepSomeAppend(pms, i, toFeature);
      features := features + OptionToSeq(feat);
      i := i + 1;
    }
    assert pms[..i] == pms;
  }

  /** `convert`, without parsing the input file and writing the output: the
      Features of the Placemarks below the root, wrapped in a
      FeatureCollection, and their count. */
  method Convert<N>(root: Elem, parseNum: string -> Option<N>) returns (fc: FeatureCollection<N>, count: nat)
    ensures fc.features == Features(root, parseNum)
    ensures count == |fc.features|
    ensures count <= |FindAllDescendants(root, Kml("Placemark"))|
  {
    var pms := FindAllDescendants(root, Kml("Placemark"));
    var features := CollectImages(pms, Mapper(parseNum));
    fc := FeatureCollection(features);
    count := |features|;
  }

  // ---------------------------------------------------------------------
  // Properties of the conversion
  // ---------------------------------------------------------------------

  /** The collected Features are those of a recursive walk below the root:
      the root itself is not a candidate, nested Placemarks are. */
  lemma {:induction false} FeaturesAreWalk<N>(root: Elem, parseNum: string -> Option<N>)
    ensures Features(root, parseNum) == Walk(root.children, Kml("Placemark"), Mapper(parseNum))
  {
    WalkIsKeepSomeOfPreorder(root.children, Kml("Placemark"), Mapper(parseNum));
  }

  /** A Feature is collected exactly when it is the Feature of a Placemark
      somewhere below the root. */
  lemma {:induction false} FeaturesMembers<N>(root: Elem, parseNum: string -> Option<N>, f: Feature<N>)
    ensures f in Features(root, parseNum) <==>
      exists pm :: pm in Descendants(root) && pm.tag == Kml("Placemark") && PlacemarkToFeature(pm, parseNum) == Some(f)
  {
    KeepSomeMembers(FindAllDescendants(root, Kml("Placemark")), Mapper(parseNum), f);
  }

  /** Every collected Feature has a non-empty geometry of a supported shape. */
  lemma {:induction false} FeaturesEmittable<N>(root: Elem, parseNum: string -> Option<N>)
    ensures forall i :: 0 <= i < |Features(root, parseNum)| ==> Emittable(Features(root, parseNum)[i].geometry)
  {
    var good := (f: Feature<N>) => Emittable(f.geometry);
    KeepSomeAll(FindAllDescendants(root, Kml("Placemark")), Mapper(parseNum), good);
  }

  /** A Placemark nested below another element below the root, however deep,
      still contributes its Feature. */
  lemma {:induction false} NestedPlacemarkCollected<N>(root: Elem, d: Elem, pm: Elem, parseNum: string -> Option<N>)
    ensures d in Descendants(root) && pm in Descendants(d) && pm.tag == Kml("Placemark") && PlacemarkToFeature(pm, parseNum).Some? ==>
      PlacemarkToFeature(pm, parseNum).value in Features(root, parseNum)
  {
    if d in Descendants(root) && pm in Descendants(d) && pm.tag == Kml("Placemark") && PlacemarkToFeature(pm, parseNum).Some? {
      DescendantsTransitive(root, d, pm);
      FeaturesMembers(root, parseNum, PlacemarkToFeature(pm, parseNum).value);
    }
  }

  /** A document with no Placemark below its root converts to an empty collection. */
  lemma {:induction false} NoPlacemarkNoFeature<N>(root: Elem, parseNum: string -> Option<N>)
    requires forall i :: 0 <= i < |Descendants(root)| ==> Descendants(root)[i].tag != Kml("Placemark")
    ensures Features(root, parseNum) == []
  {
    FirstIsHeadOfTagged(Descendants(root), Kml("Placemark"));
    assert FindAllDescendants(root, Kml("Placemark")) == [];
  }
}
