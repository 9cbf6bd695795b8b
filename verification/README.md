# KML to GeoJSON conversion, modelled in Dafny

This project models the conversion core of `scripts/kml_to_geojson.py`. The converter reads a KML document and writes a GeoJSON FeatureCollection. The model has three parts:

- **Coordinate parser** (`parse_coordinates`). The text of a KML `coordinates` element is split on whitespace into `lon,lat[,alt]` tuples. Each tuple is split on commas and its empty fields are dropped. A tuple with at least two fields, whose first two fields both parse as numbers, contributes the position `[lon, lat]`. Any other tuple is skipped on its own.
- **Placemark mapper** (`placemark_to_feature`). One `Placemark` element becomes a Feature (section 3.2 of RFC 7946) or nothing. Its properties come from the direct `name`, `description` and `styleUrl` children and from the `Data` entries under `ExtendedData`. The geometry is probed in a fixed order: Point (section 3.1.2), then LineString (section 3.1.4), then Polygon with a single ring (section 3.1.6). Only the first element with each tag is looked at. A kind whose coordinates parse to nothing falls through to the next kind. The model computes the positions of all three kinds and then picks the first non-empty one (`Placemark.FirstGeometry`). Python stops at the first kind that succeeds. The result is the same, because every step is pure.
- **Document walker** (the loop in `convert`). Every `Placemark` below the root is mapped, in document order. The Features found are collected and counted.

The input is an already-parsed element tree, `ElementTree.Elem`. Its tags are namespace-resolved strings, such as `"{http://www.opengis.net/kml/2.2}Placemark"`. The model provides two kinds of search over the tree:

- a direct-child search (`Find`/`FindAll`, like ElementTree's `find(tag)`);
- a document-order search strictly below a node (`FindDescendant`/`FindAllDescendants`, like `find('.//' + tag)`).

Each lookup in the source uses the same kind of search in the model.

Number parsing (Python's `float`) is a parameter `parseNum: string -> Option<N>` over an abstract number type `N`. `None` stands for the `ValueError` case. Whitespace is Python's `str.isspace` class, written out in `Text.IsWs`.

Modules:
- `wrappers.dfy` defines `Option`, its list view `OptionToSeq` and `FirstSome`, the first present value of a list.
- `text.dfy` covers `split()`, `strip()`, `split(',')` and the removal of empty fields.
- `coordinates.dfy` is the coordinate parser.
- `element_tree.dfy` holds the tree and the two searches.
- `placemark.dfy` is the mapper.
- `convert.dfy` is the walker.
- `scenarios.dfy` holds whole-document examples.

Two behaviours of the code worth naming:

- `name`, `description` and `styleUrl` are tested on the raw text (`if name_el.text`, scripts/kml_to_geojson.py:38-43) and stored stripped, so a whitespace-only `<name>  </name>` is stored as `""` rather than omitted. `Placemark.StrippedText` and `Placemark.StandardProperty` model this.
- Numbers are read with Python's `float`, which also accepts `nan` and `inf`, so the number parser stays an abstract parameter `parseNum`.

## Model

| member | source | states |
|---|---|---|
| Text.Words | scripts/kml_to_geojson.py:21 | `split()` yields only non-empty, whitespace-free tuples. |
| Text.WordsConcat | scripts/kml_to_geojson.py:21 | Splitting on whitespace is compositional: any whitespace character separates the words before it from the words after it. |
| Text.WordsEmptyIff | scripts/kml_to_geojson.py:17-21 | The text splits into no tuples exactly when it is empty or whitespace-only. |
| Text.WordsUnwords | scripts/kml_to_geojson.py:21 | Splitting undoes joining with spaces: non-empty, whitespace-free words joined by spaces split back into the same words. |
| Text.WordsStrip | scripts/kml_to_geojson.py:21 | The `strip()` before `split()` never changes the tuples. |
| Text.LeadingWs | scripts/kml_to_geojson.py:39 | The cut point of the leading whitespace: everything before it is whitespace, and the character at it is not. |
| Text.TrailingWs | scripts/kml_to_geojson.py:39 | The start of the trailing whitespace: everything from it on is whitespace, and the character before it is not. |
| Text.Strip | scripts/kml_to_geojson.py:39 | `strip()` returns a contiguous slice of the text. Everything cut off is whitespace. The result neither starts nor ends with whitespace. |
| Text.StripTrimmed | scripts/kml_to_geojson.py:39 | A text with no whitespace at either end strips to itself. |
| Text.StripIdempotent | scripts/kml_to_geojson.py:39 | Stripping twice is the same as stripping once, for every text. |
| Text.StripEmptyIff | scripts/kml_to_geojson.py:39 | A text strips to `""` exactly when it is whitespace-only. |
| Text.Split | scripts/kml_to_geojson.py:22 | `split(',')` yields at least one piece, and no piece holds a comma; `Text.JoinSplit` shows nothing else is lost. |
| Text.JoinSplit | scripts/kml_to_geojson.py:22 | Joining the pieces of `split(',')` with commas gives back the tuple, so no character is lost. |
| Text.NonEmpty | scripts/kml_to_geojson.py:22 | The filter `p != ''` keeps at most as many pieces, each non-empty and taken from the input. |
| Text.NonEmptySingle | scripts/kml_to_geojson.py:22 | A single piece is kept exactly when it is non-empty. |
| Text.NonEmptyConcat | scripts/kml_to_geojson.py:22 | The filter distributes over concatenation. With `Text.NonEmptySingle` this fixes it on every list: every non-empty piece is kept, in order. |
| Text.Fields | scripts/kml_to_geojson.py:22 | The fields of a tuple are non-empty and comma-free. |
| Text.FieldsConcat | scripts/kml_to_geojson.py:22 | A comma separates the non-empty fields on its left from those on its right. Empty fields are dropped wherever they occur. |
| Text.FieldsOfField | scripts/kml_to_geojson.py:22 | A non-empty, comma-free text is exactly one field. |
| Coordinates.TokenPosition | scripts/kml_to_geojson.py:22-29 | A tuple yields a position iff it has at least two non-empty fields and both of the first two parse. The position is (first field, second field). |
| Coordinates.ParseCoordinates | scripts/kml_to_geojson.py:16-30 | Absent text gives no positions. There are never more positions than whitespace-separated tuples. Positions come only from a text that has a non-whitespace character. |
| Coordinates.ParseTokens | scripts/kml_to_geojson.py:21-29 | The tuple loop keeps at most one position per tuple. |
| Coordinates.ParseTokensAllOrNone | scripts/kml_to_geojson.py:21-29 | The loop keeps a position for every tuple exactly when every tuple parses, and then lists the tuples' positions in order. It keeps none exactly when no tuple parses. |
| Coordinates.ParseTokensConcat | scripts/kml_to_geojson.py:21-29 | Tuples are handled independently and in order: the positions of a concatenation of tuple lists are the positions of each list, concatenated. |
| Coordinates.ParseCoordinatesOfWords | scripts/kml_to_geojson.py:17-21 | The parser's result is the per-tuple result over the whitespace-separated tuples, including for the empty text that the source short-cuts. |
| Coordinates.ParseCoordinatesBlank | scripts/kml_to_geojson.py:16-21 | Empty and whitespace-only texts give no positions. |
| Coordinates.ParseCoordinatesConcat | scripts/kml_to_geojson.py:21-29 | `parse(a + ws + b) == parse(a) + parse(b)` for any whitespace character `ws`. |
| Coordinates.ParseCoordinatesOneTuple | scripts/kml_to_geojson.py:21-29 | A text holding one tuple yields that tuple's position, or nothing when the tuple is malformed. |
| Coordinates.MalformedTupleSkipped | scripts/kml_to_geojson.py:23-29 | A malformed tuple between two texts does not change the positions those texts yield. |
| Coordinates.ParseCoordinatesOfTuples | scripts/kml_to_geojson.py:21-30 | Tuples joined by spaces yield, in order, the position of each tuple that parses. |
| Coordinates.AltitudeIgnored | scripts/kml_to_geojson.py:22-27 | A third or later field never changes the position: `x,y,z` reads as `x,y`. |
| Coordinates.TwoFieldTuple | scripts/kml_to_geojson.py:22-27 | `lon,lat` yields `(parse(lon), parse(lat))` when both parse, and nothing otherwise. |
| ElementTree.FirstIndex | scripts/kml_to_geojson.py:34-36 | The index of the first element with the tag. Every element before it has another tag. |
| ElementTree.FirstTagged | scripts/kml_to_geojson.py:34-36 | `find`: no result iff no element has the tag; otherwise the result is the first element with that tag. |
| ElementTree.Tagged | scripts/kml_to_geojson.py:47 | `findall` keeps exactly the elements with the tag, and only those. |
| ElementTree.TaggedAll | scripts/kml_to_geojson.py:47 | `findall` drops nothing exactly when every element has the tag, and then returns the list unchanged. |
| ElementTree.TaggedSingle | scripts/kml_to_geojson.py:47 | A single element is kept exactly when it has the tag. |
| ElementTree.TaggedConcat | scripts/kml_to_geojson.py:94 | Filtering by tag distributes over concatenation. With `ElementTree.TaggedSingle` this fixes the result on every list: the tagged elements in their original order, duplicates kept. |
| ElementTree.Find | scripts/kml_to_geojson.py:34-36 | `pm.find(tag)` returns None exactly when no direct child has the tag; otherwise it returns the first direct child with the tag. |
| ElementTree.FindAll | scripts/kml_to_geojson.py:47 | `ed.findall(tag)` holds exactly the direct children with the tag. |
| ElementTree.FindDescendant | scripts/kml_to_geojson.py:53 | `find('.//' + tag)` returns None exactly when no element strictly below has the tag; otherwise it returns the first such element in document order. |
| ElementTree.FindAllDescendants | scripts/kml_to_geojson.py:94 | `findall('.//' + tag)` holds exactly the elements strictly below that have the tag. |
| ElementTree.FirstIsHeadOfTagged | scripts/kml_to_geojson.py:47 | `find` returns the head of what `findall` returns for the same tag. |
| ElementTree.FirstTaggedPreorder | scripts/kml_to_geojson.py:53 | A search of the document-order listing equals the recursive depth-first search, where a node comes before its subtree and a subtree before its next sibling. |
| ElementTree.FindDescendantIsSearch | scripts/kml_to_geojson.py:53 | `find('.//' + tag)` is the depth-first search over the node's children. The node itself is excluded. |
| ElementTree.PreorderContains | scripts/kml_to_geojson.py:94 | Every child is below its parent, and so is everything below that child. |
| ElementTree.DescendantsTransitive | scripts/kml_to_geojson.py:94 | What is below a descendant of a node is below the node. |
| Placemark.KmlInjective | scripts/kml_to_geojson.py:14 | With the fixed namespace prefix, two resolved tags are equal iff their local names are equal. |
| Placemark.StrippedText | scripts/kml_to_geojson.py:38-43 | The guard `el.text` passes exactly when the text exists and is non-empty. The stored value is a slice of the text with only whitespace cut off, and it neither starts nor ends with whitespace, so it is the text trimmed at both ends. It is `""` exactly when the text is whitespace-only. |
| Placemark.SetFromChild | scripts/kml_to_geojson.py:38-43 | The key is added iff the direct child exists with non-empty text. Every other key keeps its value. |
| Placemark.ApplyDataKeys | scripts/kml_to_geojson.py:46-51 | After the `Data` loop the keys are the earlier keys plus the key of every `Data` entry that has a non-empty `name` attribute. |
| Placemark.ApplyDataLastWins | scripts/kml_to_geojson.py:47-51 | The value of a key is the value of the last `Data` entry carrying that key. |
| Placemark.ApplyDataKeeps | scripts/kml_to_geojson.py:47-51 | A key that no `Data` entry carries keeps its earlier value. |
| Placemark.PropertiesKeys | scripts/kml_to_geojson.py:34-51 | A key is in the property map exactly when it is `name`, `description` or `styleUrl` with a direct child that has non-empty text, or when some `Data` entry carries it. No other key appears. |
| Placemark.StandardProperty | scripts/kml_to_geojson.py:34-43 | `name`, `description` and `styleUrl` are set iff the direct child exists with non-empty text. The value is that text, stripped. This holds unless a `Data` entry reuses the key. |
| Placemark.DataProperty | scripts/kml_to_geojson.py:45-51 | Each keyed `Data` entry that no later entry overrides is in the property map. Its value is the stripped text of the `value` child, or `""`. |
| Placemark.CoordinatesText | scripts/kml_to_geojson.py:55 | A missing `coordinates` child reads as blank text. |
| Placemark.PointCandidate | scripts/kml_to_geojson.py:53-57 | The Point branch yields positions only when a Point exists below the Placemark and the first one has a direct `coordinates` child with non-blank text. |
| Placemark.LineCandidate | scripts/kml_to_geojson.py:63-67 | The LineString branch yields positions only when a LineString exists below the Placemark and the first one has a direct `coordinates` child with non-blank text. |
| Placemark.PolygonCandidate | scripts/kml_to_geojson.py:73-79 | The Polygon branch yields positions only when a Polygon, an `outerBoundaryIs` below it and a `coordinates` below that all exist, and that `coordinates` has non-blank text. A missing `outerBoundaryIs` or `coordinates` yields nothing. |
| Placemark.FirstGeometry | scripts/kml_to_geojson.py:53-86 | The early-return chain: no geometry iff all three kinds read no position. Otherwise Point wins over LineString, and LineString over Polygon. The chosen geometry is non-empty. |
| Placemark.FirstGeometryIsFirstSome | scripts/kml_to_geojson.py:53-86 | The early-return chain equals an independent definition: the first of Point, LineString, Polygon, in source order, that yields a geometry when tried on its own. |
| Placemark.PlacemarkToFeature | scripts/kml_to_geojson.py:53-86 | The result is None iff none of Point, LineString or Polygon yields positions. Otherwise the first kind that does decides the geometry: Point takes the first position, LineString the whole list, Polygon the single ring. The geometry is non-empty, and the property map is the same in every branch. |
| Placemark.OnlyFirstGeometryElementsMatter | scripts/kml_to_geojson.py:53-86 | Only the property map and the first descendant of each geometry tag affect the result. |
| Placemark.NoGeometryNoFeature | scripts/kml_to_geojson.py:53-86 | A Placemark with no Point, LineString or Polygon below it yields no Feature, even when it has ExtendedData. |
| Placemark.PolygonNeedsOuterBoundary | scripts/kml_to_geojson.py:73-84 | Without an `outerBoundaryIs` below the first Polygon, the result is never a Polygon. |
| Convert.KeepSome | scripts/kml_to_geojson.py:94-97 | The `if feat` filter keeps at most one image per Placemark. |
| Convert.KeepSomeAllOrNone | scripts/kml_to_geojson.py:94-97 | The filter keeps an image for every Placemark exactly when each has one, and then lists them in order. It keeps none exactly when none has one. |
| Convert.KeepSomeConcat | scripts/kml_to_geojson.py:94-97 | Collecting images is compositional over concatenated element lists. |
| Convert.KeepSomeMembers | scripts/kml_to_geojson.py:95-97 | A value is collected iff it is the image of one of the elements. |
| Convert.KeepSomeAll | scripts/kml_to_geojson.py:95-97 | Every collected value has any property that every image has. |
| Convert.WalkIsKeepSomeOfPreorder | scripts/kml_to_geojson.py:94-97 | Filtering the document-order listing by tag and mapping it equals a recursive walk of the trees. |
| Convert.CollectImages | scripts/kml_to_geojson.py:92-97 | The loop builds exactly the in-order list of non-None images. |
| Convert.Convert | scripts/kml_to_geojson.py:89-101 | The collection holds the Features of the Placemarks below the root. The returned count is their number, and it is at most the number of Placemarks. |
| Convert.Features | scripts/kml_to_geojson.py:94-97 | There are at most as many Features as Placemarks below the root, and none exactly when no Placemark below the root yields one. |
| Convert.FeaturesAreWalk | scripts/kml_to_geojson.py:94-97 | The collected Features are those of a recursive walk starting at the root's children, so the root is excluded and nested Placemarks are included. |
| Convert.FeaturesMembers | scripts/kml_to_geojson.py:94-97 | A Feature is collected iff it is the Feature of some Placemark below the root. |
| Convert.FeaturesEmittable | scripts/kml_to_geojson.py:56-84 | Every collected Feature has a non-empty geometry. A Polygon has exactly one ring. |
| Convert.NestedPlacemarkCollected | scripts/kml_to_geojson.py:94-97 | A Placemark at any depth, even one nested in another Placemark, contributes its Feature. |
| Convert.NoPlacemarkNoFeature | scripts/kml_to_geojson.py:94-98 | A document with no Placemark converts to an empty FeatureCollection. |
| Scenarios.TupleWithAltitude | scripts/kml_to_geojson.py:21-27 | `1.0,2.0,0` reads as the single position (1.0, 2.0). |
| Scenarios.PointScenario | scripts/kml_to_geojson.py:33-62 | A Placemark named A with a Point at `1.0,2.0,0` converts to one Point Feature at (1.0, 2.0) with properties `{name: "A"}`. |
| Scenarios.ThreeTuples | scripts/kml_to_geojson.py:16-30 | `0,0 1,1 2,2` reads as three positions, in order. |

## Left out

- Parsing the input file (`ET.parse`, line 90) is a library call. The model takes the parsed tree as input, and malformed XML is outside the model.
- JSON serialisation and writing the output file (lines 98-100) are I/O. The FeatureCollection is the datatype `Convert.FeatureCollection`.
- The command-line block (lines 104-114) is left out. It covers argument count, file existence, messages and exit codes.
- Python's `float` is not modelled. The parameter `parseNum` stands for it and is assumed to be a function. Accepted spellings (`nan`, `inf`, underscores, surrounding whitespace) and IEEE values are not modelled.
- Python dict insertion order is not modelled. The property map is a `map`, which keeps "last write wins" but not key order.
- Element tail text is not modelled, because the converter never reads it.
- Placemark.Emittable: does not claim the minimum position counts of RFC 7946 (two for a LineString, four and closure for a ring), because the converter does not check them.
- Placemark.StandardProperty: covers only Placemarks whose `Data` entries do not reuse the key. When they do, `Placemark.DataProperty` gives the value, because the `Data` loop runs last.
