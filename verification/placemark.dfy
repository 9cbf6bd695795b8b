/**
 The Placemark mapper (`placemark_to_feature`): one KML `Placemark` element
 becomes one GeoJSON Feature (section 3.2 of RFC 7946) or nothing.

 Properties come from the direct `name`, `description` and `styleUrl`
 children and from the `Data` children of the direct `ExtendedData` child.
 Geometry is probed in the fixed order Point, LineString, Polygon, each time
 at the first descendant with that tag; a kind whose coordinates parse to
 nothing falls through to the next.
 */
module Placemark {
  import opened Wrappers
  import opened Text
  import opened Coordinates
  import opened ElementTree

  /** The KML 2.2 namespace, as ElementTree prefixes it to resolved tags. */
  const KmlNs := "{http://www.opengis.net/kml/2.2}"

  /** The resolved tag of the KML element with the given local name. */
  function Kml(local: string): string {
    KmlNs + local
  }

  /** Distinct local names resolve to distinct tags. */
  lemma {:induction false} KmlInjective(a: string, b: string)
    ensures Kml(a) == Kml(b) <==> a == b
  {
    assert Kml(a)[|KmlNs|..] == a;
    assert Kml(b)[|KmlNs|..] == b;
  }

  /** The geometry objects the converter emits: Point, LineString and Polygon
      (sections 3.1.2, 3.1.4 and 3.1.6 of RFC 7946), with [lon, lat] positions. */
  datatype Geometry<N> =
    | Point(position: Position<N>)
    | LineString(line: seq<Position<N>>)
    | Polygon(rings: seq<seq<Position<N>>>)

  /** A Feature: its properties (string keys, string values) and its geometry. */
  datatype Feature<N> = Feature(properties: map<string, string>, geometry: Geometry<N>)

  /** What every emitted geometry satisfies: a LineString has a position, a
      Polygon has exactly one ring (no holes) and that ring has a position.
      Ring closure and the minimum position counts of RFC 7946 are not checked. */
  predicate Emittable<N>(g: Geometry<N>) {
    match g
    case Point(_) => true
    case LineString(line) => |line| >= 1
    case Polygon(rings) => |rings| == 1 && |rings[0]| >= 1
  }

  // ---------------------------------------------------------------------
  // Properties
  // ---------------------------------------------------------------------

  /** The text an element contributes when it has any: `el.text.strip()`
      guarded by the truthiness of `el.text`, so a missing or empty text
      contributes nothing while a whitespace-only text contributes "". */
  function StrippedText(el: Elem): (r: Option<string>)
    ensures r.Some? <==> el.text.Some? && el.text.value != ""
    ensures r.Some? ==> (r.value == "" <==> AllWs(el.text.value))
    ensures r.Some? ==> exists i :: Padded(el.text.value, i, r.value)
    ensures r.Some? && r.value != "" ==> !IsWs(r.value[0]) && !IsWs(r.value[|r.value| - 1])
  {
    if el.text.Some? && el.text.value != "" then
      StripEmptyIff(el.text.value);
      Some(Strip(el.text.value))
    else None
  }

  /** Sets `props[local]` from the direct child `local` of the Placemark, when
      that child exists and has non-empty text. */
  function SetFromChild(props: map<string, string>, pm: Elem, local: string): (r: map<string, string>)
    ensures r.Keys == props.Keys + (if Find(pm, Kml(local)).Some? && StrippedText(Find(pm, Kml(local)).value).Some? then {local} else {})
    ensures forall k :: k in props && k != local ==> r[k] == props[k]
  {
    match Find(pm, Kml(local))
    case Some(el) =>
      (match StrippedText(el)
       case Some(t) => props[local := t]
       case None => props)
    case None => props
  }

  /** The key a `Data` element contributes: its `name` attribute, unless that
      is missing or empty. */
  function DataKey(data: Elem): Option<string> {
    if "name" in data.attrs && data.attrs["name"] != "" then Some(data.attrs["name"]) else None
  }

  /** The value a `Data` element contributes: the stripped text of its direct
      `value` child, or "" when that child is missing or has no text. */
  function DataValue(data: Elem): string {
    match Find(data, Kml("value"))
    case Some(v) => if StrippedText(v).Some? then StrippedText(v).value else ""
    case None => ""
  }

  /** No `Data` element after position `i` has the key of the one at `i`. */
  predicate LastWithKey(datas: seq<Elem>, i: int)
    requires 0 <= i < |datas|
  {
    forall j :: i < j < |datas| ==> DataKey(datas[j]) != DataKey(datas[i])
  }

  /** The loop over `Data` elements, in document order: each one with a key
      sets that key, a later one overwriting an earlier one. */
  function ApplyData(props: map<string, string>, datas: seq<Elem>): (r: map<string, string>)
    ensures props.Keys <= r.Keys
    decreases |datas|
  {
    if |datas| == 0 then props
    else
      var n := |datas| - 1;
      var m := ApplyData(props, datas[..n]);
      match DataKey(datas[n])
      case Some(k) => m[k := DataValue(datas[n])]
      case None => m
  }

  /** Some `Data` element among `datas` has the key `k`. */
  predicate HasDataKey(datas: seq<Elem>, k: string) {
    exists i :: 0 <= i < |datas| && DataKey(datas[i]) == Some(k)
  }

  lemma {:induction false} HasDataKeyStep(datas: seq<Elem>, k: string)
    requires |datas| > 0
    ensures HasDataKey(datas, k) <==> HasDataKey(datas[..|datas| - 1], k) || DataKey(datas[|datas| - 1]) == Some(k)
  {
    var n := |datas| - 1;
    var prefix := datas[..n];
    if HasDataKey(prefix, k) {
      var i :| 0 <= i < n && DataKey(prefix[i]) == Some(k);
      assert datas[i] == prefix[i];
    }
    if HasDataKey(datas, k) {
      var i :| 0 <= i < |datas| && DataKey(datas[i]) == Some(k);
      if i < n {
        assert prefix[i] == datas[i];
      }
    }
  }

  lemma {:induction false} ApplyDataKeyStep(props: map<string, string>, datas: seq<Elem>, k: string)
    requires |datas| > 0
    ensures k in ApplyData(props, datas) <==> k in ApplyData(props, datas[..|datas| - 1]) || DataKey(datas[|datas| - 1]) == Some(k)
  {
  }

  /** The keys after the loop: the earlier keys and the key of every `Data`
      element that has one. */
  lemma {:induction false} ApplyDataKeys(props: map<string, string>, datas: seq<Elem>, k: string)
    ensures k in ApplyData(props, datas) <==> k in props || exists i :: 0 <= i < |datas| && DataKey(datas[i]) == Some(k)
    decreases |datas|
  {
    if |datas| > 0 {
      ApplyDataKeys(props, datas[..|datas| - 1], k);
      ApplyDataKeyStep(props, datas, k);
      HasDataKeyStep(datas, k);
    }
    assert HasDataKey(datas, k) <==> exists i :: 0 <= i < |datas| && DataKey(datas[i]) == Some(k);
  }

  /** A `Data` element without the key `k` leaves the value of `k` alone. */
  lemma {:induction false} ApplyDataOtherKey(props: map<string, string>, datas: seq<Elem>, k: string)
    requires |datas| > 0 && DataKey(datas[|datas| - 1]) != Some(k)
    requires k in ApplyData(props, datas[..|datas| - 1])
    ensures k in ApplyData(props, datas)
    ensures ApplyData(props, datas)[k] == ApplyData(props, datas[..|datas| - 1])[k]
  {
  }

  lemma {:induction false} LastWithKeyPrefix(datas: seq<Elem>, i: int)
    requires 0 <= i < |datas| - 1 && LastWithKey(datas, i)
    ensures LastWithKey(datas[..|datas| - 1], i)
  {
    var prefix := datas[..|datas| - 1];
    forall j | i < j < |prefix| ensures DataKey(prefix[j]) != DataKey(prefix[i]) {
      assert prefix[j] == datas[j];
    }
  }

  /** Last write wins: the value of a key is that of the last `Data` element
      carrying it. */
  lemma {:induction false} ApplyDataLastWins(props: map<string, string>, datas: seq<Elem>, i: int)
    requires 0 <= i < |datas| && DataKey(datas[i]).Some? && LastWithKey(datas, i)
    ensures DataKey(datas[i]).value in ApplyData(props, datas)
    ensures ApplyData(props, datas)[DataKey(datas[i]).value] == DataValue(datas[i])
    decreases |datas|
  {
    var n := |datas| - 1;
    var prefix := datas[..n];
    if i < n {
      assert prefix[i] == datas[i];
      LastWithKeyPrefix(datas, i);
      ApplyDataLastWins(props, prefix, i);
      ApplyDataOtherKey(props, datas, DataKey(datas[i]).value);
    }
  }

  /** A key no `Data` element carries keeps its earlier value. */
  lemma {:induction false} ApplyDataKeeps(props: map<string, string>, datas: seq<Elem>, k: string)
    requires k in props
    requires forall i :: 0 <= i < |datas| ==> DataKey(datas[i]) != Some(k)
    ensures k in ApplyData(props, datas)
    ensures ApplyData(props, datas)[k] == props[k]
    decreases |datas|
  {
    if |datas| > 0 {
      var n := |datas| - 1;
      var prefix := datas[..n];
      assert forall i :: 0 <= i < |prefix| ==> DataKey(prefix[i]) != Some(k) by {
        forall i | 0 <= i < |prefix| ensures DataKey(prefix[i]) != Some(k) {
          assert prefix[i] == datas[i];
        }
      }
      ApplyDataKeeps(props, prefix, k);
      ApplyDataOtherKey(props, datas, k);
    }
  }

  /** The `Data` children of the Placemark's first direct `ExtendedData`
      child; none when there is no such child. */
  function DataElements(pm: Elem): seq<Elem> {
    match Find(pm, Kml("ExtendedData"))
    case Some(ed) => FindAll(ed, Kml("Data"))
    case None => []
  }

  /** The property map of a Placemark: the three standard children, then the
      `Data` entries. */
  function Properties(pm: Elem): map<string, string> {
    var p := SetFromChild(map[], pm, "name");
    var p := SetFromChild(p, pm, "description");
    var p := SetFromChild(p, pm, "styleUrl");
    ApplyData(p, DataElements(pm))
  }

  /** The keys of the property map: a standard key whose direct child exists
      with non-empty text, or the key of some `Data` entry; nothing else. */
  lemma {:induction false} PropertiesKeys(pm: Elem, k: string)
    ensures k in Properties(pm) <==>
      (k in {"name", "description", "styleUrl"} && Find(pm, Kml(k)).Some? && StrippedText(Find(pm, Kml(k)).value).Some?)
      || HasDataKey(DataElements(pm), k)
  {
    var p1 := SetFromChild(map[], pm, "name");
    var p2 := SetFromChild(p1, pm, "description");
    var p3 := SetFromChild(p2, pm, "styleUrl");
    ApplyDataKeys(p3, DataElements(pm), k);
  }

  /** `name`, `description` and `styleUrl` are set exactly when the direct
      child exists with non-empty text, to that text stripped, unless a `Data`
      entry uses the same key. */
  lemma {:induction false} StandardProperty(pm: Elem, local: string)
    requires local == "name" || local == "description" || local == "styleUrl"
    requires forall i :: 0 <= i < |DataElements(pm)| ==> DataKey(DataElements(pm)[i]) != Some(local)
    ensures local in Properties(pm) <==> Find(pm, Kml(local)).Some? && StrippedText(Find(pm, Kml(local)).value).Some?
    ensures local in Properties(pm) ==> Properties(pm)[local] == StrippedText(Find(pm, Kml(local)).value).value
  {
    var p1 := SetFromChild(map[], pm, "name");
    var p2 := SetFromChild(p1, pm, "description");
    var p3 := SetFromChild(p2, pm, "styleUrl");
    ApplyDataKeys(p3, DataElements(pm), local);
    if local in p3 {
      ApplyDataKeeps(p3, DataElements(pm), local);
    }
  }

  /** Every `Data` entry with a key is present; the last entry with a given
      key determines its value. */
  lemma {:induction false} DataProperty(pm: Elem, i: int)
    requires 0 <= i < |DataElements(pm)| && DataKey(DataElements(pm)[i]).Some?
    requires LastWithKey(DataElements(pm), i)
    ensures DataKey(DataElements(pm)[i]).value in Properties(pm)
    ensures Properties(pm)[DataKey(DataElements(pm)[i]).value] == DataValue(DataElements(pm)[i])
  {
    var p1 := SetFromChild(map[], pm, "name");
    var p2 := SetFromChild(p1, pm, "description");
    var p3 := SetFromChild(p2, pm, "styleUrl");
    ApplyDataLastWins(p3, DataElements(pm), i);
  }

  // ---------------------------------------------------------------------
  // Geometry
  // ---------------------------------------------------------------------

  /** The coordinates text of a Point or LineString: the text of its direct
      `coordinates` child, or "" when it has no such child. */
  function CoordinatesText(el: Elem): (r: Option<string>)
    ensures Find(el, Kml("coordinates")).None? ==> r.Some? && AllWs(r.value)
  {
    match Find(el, Kml("coordinates"))
    case Some(c) => c.text
    case None => Some("")
  }

  /** The positions the Point branch reads: those of the first `Point` below
      the Placemark, nothing when there is none. There are positions only when
      that Point has a direct `coordinates` child with non-blank text. */
  function PointCandidate<N>(pm: Elem, parseNum: string -> Option<N>): (r: seq<Position<N>>)
    ensures r != [] ==>
      var p := FindDescendant(pm, Kml("Point"));
      p.Some? && Find(p.value, Kml("coordinates")).Some? &&
      Find(p.value, Kml("coordinates")).value.text.Some? && !AllWs(Find(p.value, Kml("coordinates")).value.text.value)
  {
    match FindDescendant(pm, Kml("Point"))
    case Some(p) => ParseCoordinates(CoordinatesText(p), parseNum)
    case None => []
  }

  /** The positions the LineString branch reads, on the same terms as the
      Point branch. */
  function LineCandidate<N>(pm: Elem, parseNum: string -> Option<N>): (r: seq<Position<N>>)
    ensures r != [] ==>
      var l := FindDescendant(pm, Kml("LineString"));
      l.Some? && Find(l.value, Kml("coordinates")).Some? &&
      Find(l.value, Kml("coordinates")).value.text.Some? && !AllWs(Find(l.value, Kml("coordinates")).value.text.value)
  {
    match FindDescendant(pm, Kml("LineString"))
    case Some(l) => ParseCoordinates(CoordinatesText(l), parseNum)
    case None => []
  }

  /** The positions the Polygon branch reads: the first `coordinates` at any
      depth below the first `outerBoundaryIs` at any depth below the first
      `Polygon`. There are positions only when all three exist and that
      `coordinates` has non-blank text. */
  function PolygonCandidate<N>(pm: Elem, parseNum: string -> Option<N>): (r: seq<Position<N>>)
    ensures r != [] ==>
      var poly := FindDescendant(pm, Kml("Polygon"));
      poly.Some? &&
      var outer := FindDescendant(poly.value, Kml("outerBoundaryIs"));
      outer.Some? &&
      var c := FindDescendant(outer.value, Kml("coordinates"));
      c.Some? && c.value.text.Some? && !AllWs(c.value.text.value)
  {
    match FindDescendant(pm, Kml("Polygon"))
    case None => []
    case Some(poly) =>
      match FindDescendant(poly, Kml("outerBoundaryIs"))
      case None => []
      case Some(outer) =>
        match FindDescendant(outer, Kml("coordinates"))
        case Some(c) => ParseCoordinates(c.text, parseNum)
        case None => []
  }

  /** The early-return chain of `placemark_to_feature`, given the positions
      each kind reads: the first kind with a position decides the geometry. */
  function FirstGeometry<N>(point: seq<Position<N>>, line: seq<Position<N>>, ring: seq<Position<N>>): (r: Option<Geometry<N>>)
    ensures r.None? <==> point == [] && line == [] && ring == []
    ensures r.Some? ==> Emittable(r.value)
    ensures point != [] ==> r == Some(Point(point[0]))
    ensures point == [] && line != [] ==> r == Some(LineString(line))
    ensures point == [] && line == [] && ring != [] ==> r == Some(Polygon([ring]))
  {
    if point != [] then Some(Point(point[0]))
    else if line != [] then Some(LineString(line))
    else if ring != [] then Some(Polygon([ring]))
    else None
  }

  /** What each kind yields when tried on its own, in the order the source
      tries them. */
  function KindResults<N>(point: seq<Position<N>>, line: seq<Position<N>>, ring: seq<Position<N>>): seq<Option<Geometry<N>>> {
    [ if point != [] then Some(Point(point[0])) else None
    , if line != [] then Some(LineString(line)) else None
    , if ring != [] then Some(Polygon([ring])) else None ]
  }

  /** The early-return chain is the first kind, in source order, that yields
      a geometry on its own. */
  lemma {:induction false} FirstGeometryIsFirstSome<N>(point: seq<Position<N>>, line: seq<Position<N>>, ring: seq<Position<N>>)
    ensures FirstGeometry(point, line, ring) == FirstSome(KindResults(point, line, ring))
  {
    var ks := KindResults(point, line, ring);
    var k1 := ks[1..];
    var k2 := k1[1..];
    assert FirstSome(k2[1..]) == None;
    assert FirstSome(k2) == ks[2];
    assert FirstSome(k1) == if ks[1].Some? then ks[1] else ks[2];
  }

  /** `placemark_to_feature(pm)`. The result is a Feature exactly when one of
      the three kinds yields positions; the first such kind in the order
      Point, LineString, Polygon decides the geometry, and the property map is
      the same whichever kind it is. */
  function PlacemarkToFeature<N>(pm: Elem, parseNum: string -> Option<N>): (r: Option<Feature<N>>)
    ensures r.None? <==>
      PointCandidate(pm, parseNum) == [] && LineCandidate(pm, parseNum) == [] && PolygonCandidate(pm, parseNum) == []
    ensures r.Some? ==> r.value.properties == Properties(pm) && Emittable(r.value.geometry)
    ensures PointCandidate(pm, parseNum) != [] ==>
      r == Some(Feature(Properties(pm), Point(PointCandidate(pm, parseNum)[0])))
    ensures PointCandidate(pm, parseNum) == [] && LineCandidate(pm, parseNum) != [] ==>
      r == Some(Feature(Properties(pm), LineString(LineCandidate(pm, parseNum))))
    ensures PointCandidate(pm, parseNum) == [] && LineCandidate(pm, parseNum) == [] && PolygonCandidate(pm, parseNum) != [] ==>
      r == Some(Feature(Properties(pm), Polygon([PolygonCandidate(pm, parseNum)])))
  {
    var g := FirstGeometry(PointCandidate(pm, parseNum), LineCandidate(pm, parseNum), PolygonCandidate(pm, parseNum));
    if g.Some? then Some(Feature(Properties(pm), g.value)) else None
  }

  // ---------------------------------------------------------------------
  // Properties of the mapper
  // ---------------------------------------------------------------------

  /** Only the property map and the first descendant of each geometry tag
      matter: two Placemarks that agree on these map to the same result. */
  lemma {:induction false} OnlyFirstGeometryElementsMatter<N>(pm1: Elem, pm2: Elem, parseNum: string -> Option<N>)
    requires Properties(pm1) == Properties(pm2)
    requires FindDescendant(pm1, Kml("Point")) == FindDescendant(pm2, Kml("Point"))
    requires FindDescendant(pm1, Kml("LineString")) == FindDescendant(pm2, Kml("LineString"))
    requires FindDescendant(pm1, Kml("Polygon")) == FindDescendant(pm2, Kml("Polygon"))
    ensures PlacemarkToFeature(pm1, parseNum) == PlacemarkToFeature(pm2, parseNum)
  {
  }

  /** A Placemark with no Point, LineString or Polygon below it, such as one
      carrying only ExtendedData, yields no Feature. */
  lemma {:induction false} NoGeometryNoFeature<N>(pm: Elem, parseNum: string -> Option<N>)
    requires forall i :: 0 <= i < |Descendants(pm)| ==>
      Descendants(pm)[i].tag !in {Kml("Point"), Kml("LineString"), Kml("Polygon")}
    ensures PlacemarkToFeature(pm, parseNum).None?
  {
    assert FindDescendant(pm, Kml("Point")).None?;
    assert FindDescendant(pm, Kml("LineString")).None?;
    assert FindDescendant(pm, Kml("Polygon")).None?;
  }

  /** A Polygon without an `outerBoundaryIs` below it never supplies the geometry. */
  lemma {:induction false} PolygonNeedsOuterBoundary<N>(pm: Elem, parseNum: string -> Option<N>)
    requires FindDescendant(pm, Kml("Polygon")).Some?
    requires FindDescendant(FindDescendant(pm, Kml("Polygon")).value, Kml("outerBoundaryIs")).None?
    ensures PlacemarkToFeature(pm, parseNum).Some? ==> !PlacemarkToFeature(pm, parseNum).value.geometry.Polygon?
  {
    assert PolygonCandidate(pm, parseNum) == [];
  }

}
