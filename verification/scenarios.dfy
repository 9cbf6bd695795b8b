/**
 Whole-document conversions of small concrete KML trees. The number parser
 stays abstract: each scenario only assumes what it returns for the fields
 that occur.
 */
module Scenarios {
  import opened Wrappers
  import opened Text
  import opened Coordinates
  import opened ElementTree
  import opened Placemark
  import opened Convert

  function Leaf(local: string, text: string): Elem {
    Elem(Kml(local), map[], Some(text), [])
  }

  function Node(local: string, children: seq<Elem>): Elem {
    Elem(Kml(local), map[], None, children)
  }

  /** A document whose only Placemark sits in a Document element. */
  function Doc(pm: Elem): Elem {
    Node("kml", [Node("Document", [pm])])
  }

  /** The only Placemark below the document root is `pm` itself. */
  lemma {:induction false} DocPlacemarks(pm: Elem)
    requires pm.tag == Kml("Placemark")
    requires forall i :: 0 <= i < |Descendants(pm)| ==> Descendants(pm)[i].tag != Kml("Placemark")
    ensures FindAllDescendants(Doc(pm), Kml("Placemark")) == [pm]
  {
    var doc := Node("Document", [pm]);
    var below := Descendants(pm);
    PreorderOne(doc);
    PreorderOne(pm);
    assert Descendants(Doc(pm)) == [doc] + ([pm] + below);
    KmlInjective("Document", "Placemark");
    FirstIsHeadOfTagged(below, Kml("Placemark"));
    TaggedConcat([doc], [pm] + below, Kml("Placemark"));
    TaggedConcat([pm], below, Kml("Placemark"));
    assert [doc][1..] == [] && [pm][1..] == [];
  }

  lemma {:induction false} DocFeatures<N>(pm: Elem, parseNum: string -> Option<N>)
    requires pm.tag == Kml("Placemark")
    requires forall i :: 0 <= i < |Descendants(pm)| ==> Descendants(pm)[i].tag != Kml("Placemark")
    ensures Features(Doc(pm), parseNum) == OptionToSeq(PlacemarkToFeature(pm, parseNum))
  {
    DocPlacemarks(pm);
    KeepSomeSingle(pm, Mapper(parseNum));
  }

  lemma {:induction false} LonLatFields()
    ensures |Fields("1.0" + [','] + "2.0")| == 2
  {
    FieldsConcat("1.0", "2.0");
    FieldsOfField("1.0");
    FieldsOfField("2.0");
  }

  lemma {:induction false} AltitudeTupleText()
    ensures "1.0,2.0,0" == ("1.0" + [','] + "2.0") + [','] + "0"
    ensures NoWs("1.0,2.0,0")
  {
  }

  /** `1.0,2.0,0` reads as the position (1.0, 2.0), the altitude dropped. */
  lemma {:induction false} TupleWithAltitude<N>(parseNum: string -> Option<N>, x: N, y: N)
    requires parseNum("1.0") == Some(x) && parseNum("2.0") == Some(y)
    ensures ParseCoordinates(Some("1.0,2.0,0"), parseNum) == [Position(x, y)]
  {
    var lonLat := "1.0" + [','] + "2.0";
    TwoFieldTuple("1.0", "2.0", parseNum);
    LonLatFields();
    AltitudeIgnored(lonLat, "0", parseNum);
    AltitudeTupleText();
    ParseCoordinatesOneTuple("1.0,2.0,0", parseNum);
  }

  /** The Placemark of the point scenario: named A, with a Point at `1.0,2.0,0`. */
  function PointPlacemark(): Elem {
    Node("Placemark", [Leaf("name", "A"), Node("Point", [Leaf("coordinates", "1.0,2.0,0")])])
  }

  lemma {:induction false} PointPlacemarkName()
    ensures SetFromChild(map[], PointPlacemark(), "name") == map["name" := "A"]
  {
    var name := Leaf("name", "A");
    var pm := PointPlacemark();
    assert pm.children[0] == name;
    assert FirstIndex(pm.children, Kml("name")) == 0;
    assert Find(pm, Kml("name")) == Some(name);
    StripTrimmed("A");
    assert StrippedText(name) == Some("A");
    assert SetFromChild(map[], pm, "name") == map[]["name" := "A"];
    assert map[]["name" := "A"] == map["name" := "A"];
  }

  lemma {:induction false} PointPlacemarkNoOtherChild()
    ensures Find(PointPlacemark(), Kml("description")).None?
    ensures Find(PointPlacemark(), Kml("styleUrl")).None?
    ensures Find(PointPlacemark(), Kml("ExtendedData")).None?
  {
    KmlInjective("name", "description");
    KmlInjective("name", "styleUrl");
    KmlInjective("name", "ExtendedData");
    KmlInjective("Point", "description");
    KmlInjective("Point", "styleUrl");
    KmlInjective("Point", "ExtendedData");
  }

  lemma {:induction false} PointPlacemarkProperties()
    ensures Properties(PointPlacemark()) == map["name" := "A"]
  {
    PointPlacemarkName();
    PointPlacemarkNoOtherChild();
  }

  lemma {:induction false} PointPlacemarkDescendants()
    ensures var pm := PointPlacemark();
      Descendants(pm) == [pm.children[0], pm.children[1], pm.children[1].children[0]]
  {
    var pm := PointPlacemark();
    var name := pm.children[0];
    var point := pm.children[1];
    var coords := point.children[0];
    PreorderOne(coords);
    PreorderOne(point);
    assert Descendants(point) == [coords];
    assert pm.children == [name] + [point];
    PreorderConcat([name], [point]);
    PreorderOne(name);
  }

  lemma {:induction false} PointPlacemarkNotNested()
    ensures PointPlacemark().tag == Kml("Placemark")
    ensures forall i :: 0 <= i < |Descendants(PointPlacemark())| ==> Descendants(PointPlacemark())[i].tag != Kml("Placemark")
  {
    PointPlacemarkDescendants();
    KmlInjective("name", "Placemark");
    KmlInjective("Point", "Placemark");
    KmlInjective("coordinates", "Placemark");
  }

  lemma {:induction false} PointPlacemarkGeometry<N>(parseNum: string -> Option<N>, x: N, y: N)
    requires parseNum("1.0") == Some(x) && parseNum("2.0") == Some(y)
    ensures PointCandidate(PointPlacemark(), parseNum) == [Position(x, y)]
  {
    var pm := PointPlacemark();
    var point := pm.children[1];
    PointPlacemarkDescendants();
    KmlInjective("name", "Point");
    assert FirstIndex(Descendants(pm), Kml("Point")) == 1;
    assert FindDescendant(pm, Kml("Point")) == Some(point);
    assert CoordinatesText(point) == Some("1.0,2.0,0");
    TupleWithAltitude(parseNum, x, y);
  }

  /** A Placemark named A with a Point at `1.0,2.0,0` converts to one Point
      Feature at (1.0, 2.0) whose only property is its name. */
  lemma {:induction false} PointScenario<N>(parseNum: string -> Option<N>, x: N, y: N)
    requires parseNum("1.0") == Some(x) && parseNum("2.0") == Some(y)
    ensures Features(Doc(PointPlacemark()), parseNum) == [Feature(map["name" := "A"], Point(Position(x, y)))]
  {
    var pm := PointPlacemark();
    var f := Feature(map["name" := "A"], Point(Position(x, y)));
    PointPlacemarkProperties();
    PointPlacemarkGeometry(parseNum, x, y);
    assert PlacemarkToFeature(pm, parseNum) == Some(f);
    assert OptionToSeq(Some(f)) == [f];
    PointPlacemarkNotNested();
    DocFeatures(pm, parseNum);
  }

  /** A tuple `d,d` whose field parses to `v` reads as the position (v, v). */
  lemma {:induction false} DiagonalTuple<N>(t: string, d: string, v: N, parseNum: string -> Option<N>)
    requires t == d + [','] + d
    requires d != "" && ',' !in d && parseNum(d) == Some(v)
    ensures ParseTokens([t], parseNum) == [Position(v, v)]
  {
    TwoFieldTuple(d, d, parseNum);
    ParseTokensSingle(t, parseNum);
  }

  lemma {:induction false} ThreeTuplesText()
    ensures Unwords(["0,0", "1,1", "2,2"]) == "0,0 1,1 2,2"
    ensures forall i :: 0 <= i < 3 ==> ["0,0", "1,1", "2,2"][i] != [] && NoWs(["0,0", "1,1", "2,2"][i])
  {
    var ts := ["0,0", "1,1", "2,2"];
    assert ts[1..] == ["1,1", "2,2"];
    assert ts[1..][1..] == ["2,2"];
  }

  lemma {:induction false} DigitTuples()
    ensures "0,0" == "0" + [','] + "0"
    ensures "1,1" == "1" + [','] + "1"
    ensures "2,2" == "2" + [','] + "2"
  {
  }

  lemma {:induction false} ParseThreeTokens<N>(t0: string, t1: string, t2: string, p0: Position<N>, p1: Position<N>, p2: Position<N>, parseNum: string -> Option<N>)
    requires ParseTokens([t0], parseNum) == [p0]
    requires ParseTokens([t1], parseNum) == [p1]
    requires ParseTokens([t2], parseNum) == [p2]
    ensures ParseTokens([t0, t1, t2], parseNum) == [p0, p1, p2]
  {
    ParseTokensConcat([t1], [t2], parseNum);
    ParseTokensConcat([t0], [t1] + [t2], parseNum);
    assert [t0, t1, t2] == [t0] + ([t1] + [t2]);
  }

  lemma {:induction false} ThreeTuplesTokens<N>(parseNum: string -> Option<N>, a: N, b: N, c: N)
    requires parseNum("0") == Some(a) && parseNum("1") == Some(b) && parseNum("2") == Some(c)
    ensures ParseTokens(["0,0", "1,1", "2,2"], parseNum) == [Position(a, a), Position(b, b), Position(c, c)]
  {
    DigitTuples();
    DiagonalTuple("0,0", "0", a, parseNum);
    DiagonalTuple("1,1", "1", b, parseNum);
    DiagonalTuple("2,2", "2", c, parseNum);
    ParseThreeTokens("0,0", "1,1", "2,2", Position(a, a), Position(b, b), Position(c, c), parseNum);
  }

  /** `0,0 1,1 2,2`, the line of the LineString scenario, reads as three
      positions in order. */
  lemma {:induction false} ThreeTuples<N>(parseNum: string -> Option<N>, a: N, b: N, c: N)
    requires parseNum("0") == Some(a) && parseNum("1") == Some(b) && parseNum("2") == Some(c)
    ensures ParseCoordinates(Some("0,0 1,1 2,2"), parseNum) == [Position(a, a), Position(b, b), Position(c, c)]
  {
    ThreeTuplesText();
    ParseCoordinatesOfTuples(["0,0", "1,1", "2,2"], parseNum);
    ThreeTuplesTokens(parseNum, a, b, c);
  }
}
