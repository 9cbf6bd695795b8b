/**
 The coordinate parser (`parse_coordinates`): the text of a KML
 `coordinates` element, a whitespace-separated list of `lon,lat[,alt]`
 tuples, becomes the ordered list of the [lon, lat] positions whose two
 numbers parse. A tuple that does not parse is skipped on its own.

 Number parsing (Python's `float`) is a parameter `parseNum`: a partial
 parser from a field to a number of the abstract type `N`, `None` where
 `float` raises `ValueError`.
 */
module Coordinates {
  import opened Wrappers
  import opened Text

  /** A GeoJSON position with the altitude dropped: `[lon, lat]`. */
  datatype Position<N> = Position(lon: N, lat: N)

  /** The position one whitespace-free tuple contributes, if any: it needs at
      least two non-empty comma fields, and both of the first two must parse. */
  function TokenPosition<N>(token: string, parseNum: string -> Option<N>): (r: Option<Position<N>>)
    ensures r.Some? <==>
      var f := Fields(token);
      |f| >= 2 && parseNum(f[0]).Some? && parseNum(f[1]).Some?
    ensures r.Some? ==>
      r.value == Position(parseNum(Fields(token)[0]).value, parseNum(Fields(token)[1]).value)
  {
    var parts := Fields(token);
    if |parts| >= 2 then
      match (parseNum(parts[0]), parseNum(parts[1]))
      case (Some(lon), Some(lat)) => Some(Position(lon, lat))
      case _ => None
    else None
  }

  /** The loop over tuples: each tuple in turn either appends its position
      or is skipped. */
  function ParseTokens<N>(tokens: seq<string>, parseNum: string -> Option<N>): (r: seq<Position<N>>)
    ensures |r| <= |tokens|
  {
    if |tokens| == 0 then []
    else OptionToSeq(TokenPosition(tokens[0], parseNum)) + ParseTokens(tokens[1..], parseNum)
  }

  /** Nothing is skipped exactly when every tuple parses, and then the
      positions are those of the tuples in order; the result is empty exactly
      when no tuple parses. */
  lemma {:induction false} ParseTokensAllOrNone<N>(tokens: seq<string>, parseNum: string -> Option<N>)
    ensures |ParseTokens(tokens, parseNum)| == |tokens| <==>
      forall i :: 0 <= i < |tokens| ==> TokenPosition(tokens[i], parseNum).Some?
    ensures |ParseTokens(tokens, parseNum)| == |tokens| ==>
      forall i :: 0 <= i < |tokens| ==> Some(ParseTokens(tokens, parseNum)[i]) == TokenPosition(tokens[i], parseNum)
    ensures ParseTokens(tokens, parseNum) == [] <==>
      forall i :: 0 <= i < |tokens| ==> TokenPosition(tokens[i], parseNum).None?
  {
    if |tokens| > 0 {
      ParseTokensAllOrNone(tokens[1..], parseNum);
      assert forall i :: 0 < i < |tokens| ==> tokens[i] == tokens[1..][i - 1];
    }
  }

  /** `parse_coordinates(text)`; `None` stands for an element without text.
      Positions come only from a text with a non-whitespace character, at
      most one per whitespace-separated tuple. */
  function ParseCoordinates<N>(text: Option<string>, parseNum: string -> Option<N>): (r: seq<Position<N>>)
    ensures text.None? ==> r == []
    ensures text.Some? ==> |r| <= |Words(text.value)|
    ensures r != [] ==> text.Some? && !AllWs(text.value)
  {
    if text.None? || text.value == "" then []
    else
      WordsStrip(text.value);
      WordsEmptyIff(text.value);
      ParseTokens(Words(Strip(text.value)), parseNum)
  }

  /** The tuples are handled independently: the result for a list of tuples
      is the concatenation of what each part contributes. */
  lemma {:induction false} ParseTokensConcat<N>(a: seq<string>, b: seq<string>, parseNum: string -> Option<N>)
    ensures ParseTokens(a + b, parseNum) == ParseTokens(a, parseNum) + ParseTokens(b, parseNum)
  {
    if |a| == 0 {
      assert a + b == b;
    } else {
      assert (a + b)[1..] == a[1..] + b;
      ParseTokensConcat(a[1..], b, parseNum);
    }
  }

  lemma {:induction false} ParseTokensSingle<N>(t: string, parseNum: string -> Option<N>)
    ensures ParseTokens([t], parseNum) == OptionToSeq(TokenPosition(t, parseNum))
  {
    assert [t][1..] == [];
  }

  /** The parser works on the whitespace-separated tuples of the text;
      this holds for the empty text too, which the source short-cuts. */
  lemma {:induction false} ParseCoordinatesOfWords<N>(s: string, parseNum: string -> Option<N>)
    ensures ParseCoordinates(Some(s), parseNum) == ParseTokens(Words(s), parseNum)
  {
    WordsStrip(s);
  }

  /** Empty and whitespace-only texts give no positions. */
  lemma {:induction false} ParseCoordinatesBlank<N>(s: string, parseNum: string -> Option<N>)
    requires AllWs(s)
    ensures ParseCoordinates(Some(s), parseNum) == []
  {
    ParseCoordinatesOfWords(s, parseNum);
    WordsEmptyIff(s);
  }

  /** Compositionality: `parse(a + " " + b) == parse(a) + parse(b)`, for any
      whitespace character in place of the space. */
  lemma {:induction false} ParseCoordinatesConcat<N>(a: string, c: char, b: string, parseNum: string -> Option<N>)
    requires IsWs(c)
    ensures ParseCoordinates(Some(a + [c] + b), parseNum)
         == ParseCoordinates(Some(a), parseNum) + ParseCoordinates(Some(b), parseNum)
  {
    ParseCoordinatesOfWords(a + [c] + b, parseNum);
    ParseCoordinatesOfWords(a, parseNum);
    ParseCoordinatesOfWords(b, parseNum);
    WordsConcat(a, c, b);
    ParseTokensConcat(Words(a), Words(b), parseNum);
  }

  /** A text holding one tuple yields that tuple's position, or nothing. */
  lemma {:induction false} ParseCoordinatesOneTuple<N>(t: string, parseNum: string -> Option<N>)
    requires t != "" && NoWs(t)
    ensures ParseCoordinates(Some(t), parseNum) == OptionToSeq(TokenPosition(t, parseNum))
  {
    ParseCoordinatesOfWords(t, parseNum);
    WordsOfWord(t);
    ParseTokensSingle(t, parseNum);
  }

  /** A malformed tuple between two texts leaves their positions as they are. */
  lemma {:induction false} MalformedTupleSkipped<N>(a: string, t: string, b: string, parseNum: string -> Option<N>)
    requires t != "" && NoWs(t) && TokenPosition(t, parseNum).None?
    ensures ParseCoordinates(Some(a + " " + t + " " + b), parseNum)
         == ParseCoordinates(Some(a), parseNum) + ParseCoordinates(Some(b), parseNum)
  {
    var tail := t + [' '] + b;
    assert a + " " + t + " " + b == a + [' '] + tail;
    ParseCoordinatesConcat(a, ' ', tail, parseNum);
    ParseCoordinatesConcat(t, ' ', b, parseNum);
    ParseCoordinatesOneTuple(t, parseNum);
    assert ParseCoordinates(Some(tail), parseNum) == ParseCoordinates(Some(b), parseNum);
  }

  /** The text made of tuples separated by single spaces yields, in order,
      the position of every tuple that parses. */
  lemma {:induction false} ParseCoordinatesOfTuples<N>(ts: seq<string>, parseNum: string -> Option<N>)
    requires forall i :: 0 <= i < |ts| ==> ts[i] != [] && NoWs(ts[i])
    ensures ParseCoordinates(Some(Unwords(ts)), parseNum) == ParseTokens(ts, parseNum)
  {
    ParseCoordinatesOfWords(Unwords(ts), parseNum);
    WordsUnwords(ts);
  }

  /** The altitude, and any later field, never changes a tuple's position:
      `"x,y,z"` reads as `"x,y"`. */
  lemma {:induction false} AltitudeIgnored<N>(t: string, alt: string, parseNum: string -> Option<N>)
    requires |Fields(t)| >= 2
    ensures TokenPosition(t + [','] + alt, parseNum) == TokenPosition(t, parseNum)
  {
    FieldsConcat(t, alt);
  }

  /** A tuple written `lon,lat` reads as its two fields. */
  lemma {:induction false} TwoFieldTuple<N>(lon: string, lat: string, parseNum: string -> Option<N>)
    requires lon != "" && ',' !in lon && lat != "" && ',' !in lat
    ensures TokenPosition(lon + [','] + lat, parseNum) ==
      if parseNum(lon).Some? && parseNum(lat).Some? then Some(Position(parseNum(lon).value, parseNum(lat).value))
      else None
  {
    FieldsConcat(lon, lat);
    FieldsOfField(lon);
    FieldsOfField(lat);
  }
}
