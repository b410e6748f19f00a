/** The well-known-text polygon string sent as the occurrence search's
    `geometry` parameter, and a parser that reads it back. Each `[lat, lon]`
    vertex is written `lon lat`, vertices are joined by commas, and the whole
    is framed by `POLYGON((` and `))`. */
module Wkt {
  import opened Options
  import opened Geometry

  const Opening := "POLYGON(("
  const Closing := "))"

  /** One vertex with its axes swapped: longitude, a single space, latitude. */
  function VertexText(v: Vertex): string {
    v.lon + " " + v.lat
  }

  function VertexTexts(ring: seq<Vertex>): (texts: seq<string>)
    ensures |texts| == |ring|
    ensures forall i :: 0 <= i < |ring| ==> texts[i] == VertexText(ring[i])
  {
    seq(|ring|, i requires 0 <= i < |ring| => VertexText(ring[i]))
  }

  /** `parts.join(',')`. */
  function JoinWithCommas(parts: seq<string>): string {
    if |parts| == 0 then ""
    else if |parts| == 1 then parts[0]
    else parts[0] + "," + JoinWithCommas(parts[1..])
  }

  /** The polygon text for a ring. No vertex is added or removed here: a
      ring that is not closed is written as it is. */
  function PolygonWkt(ring: seq<Vertex>): (wkt: string)
    ensures |wkt| >= |Opening| + |Closing|
    ensures wkt[..|Opening|] == Opening
    ensures wkt[|wkt| - |Closing|..] == Closing
  {
    Opening + JoinWithCommas(VertexTexts(ring)) + Closing
  }

  /** `s.split(sep)`: the pieces between separators, empty ones included. */
  function Split(s: string, sep: char): (parts: seq<string>)
    ensures |parts| > 0
  {
    if |s| == 0 then [""]
    else
      var rest := Split(s[1..], sep);
      if s[0] == sep then [""] + rest else [[s[0]] + rest[0]] + rest[1..]
  }

  /** Reads `lon lat` back into a vertex. */
  function ParseVertex(text: string): (r: Option<Vertex>)
    ensures r.Some? ==> VertexText(r.value) == text
  {
    var fields := Split(text, ' ');
    if |fields| == 2 && IsNumberText(fields[0]) && IsNumberText(fields[1]) then
      SplitRejoin(text, ' ');
      Some(Vertex(fields[1], fields[0]))
    else None
  }

  function ParseVertices(texts: seq<string>): (r: Option<seq<Vertex>>)
    ensures r.Some? ==> |r.value| == |texts|
  {
    if |texts| == 0 then Some([])
    else
      match (ParseVertex(texts[0]), ParseVertices(texts[1..]))
      case (Some(v), Some(vs)) => Some([v] + vs)
      case _ => None
  }

  /** Checks the framing, splits the inner text on commas and each piece on
      its space. */
  function ParsePolygonWkt(wkt: string): Option<seq<Vertex>> {
    if |wkt| < |Opening| + |Closing| || wkt[..|Opening|] != Opening
       || wkt[|wkt| - |Closing|..] != Closing then None
    else
      var inner := wkt[|Opening|..|wkt| - |Closing|];
      if inner == "" then Some([]) else ParseVertices(Split(inner, ','))
  }

  /** Number of occurrences of `c` in `s`. */
  function Count(s: string, c: char): nat {
    if |s| == 0 then 0 else (if s[0] == c then 1 else 0) + Count(s[1..], c)
  }

  // ---------------------------------------------------------------------
  // Splitting and joining

  /** Gluing the pieces of a split back together with the separator gives
      the original text. */
  lemma {:induction false} SplitRejoin(s: string, sep: char)
    ensures var parts := Split(s, sep);
      |parts| == 2 ==> parts[0] + [sep] + parts[1] == s
  {
    if |s| > 0 {
      SplitRejoin(s[1..], sep);
      var rest := Split(s[1..], sep);
      if s[0] == sep {
        if |rest| == 1 {
          assert rest[0] == s[1..] by { SplitSingle(s[1..], sep); }
        }
      }
    }
  }

  /** A split yields one piece exactly when it met no separator, and then
      that piece is the whole text. */
  lemma {:induction false} SplitSingle(s: string, sep: char)
    ensures |Split(s, sep)| == 1 ==> Split(s, sep)[0] == s
  {
    if |s| > 0 {
      SplitSingle(s[1..], sep);
      assert s == [s[0]] + s[1..];
    }
  }

  lemma {:induction false} SplitWithoutSeparator(s: string, sep: char)
    requires sep !in s
    ensures Split(s, sep) == [s]
  {
    if |s| > 0 {
      SplitWithoutSeparator(s[1..], sep);
      assert s == [s[0]] + s[1..];
    }
  }

  lemma {:induction false} SplitAtSeparator(a: string, sep: char, b: string)
    requires sep !in a
    ensures Split(a + [sep] + b, sep) == [a] + Split(b, sep)
  {
    if |a| == 0 {
      assert (a + [sep] + b)[1..] == b;
    } else {
      assert (a + [sep] + b)[1..] == a[1..] + [sep] + b;
      SplitAtSeparator(a[1..], sep, b);
      assert a == [a[0]] + a[1..];
    }
  }

  /** Splitting a comma-joined list of comma-free pieces recovers the
      pieces. */
  lemma {:induction false} SplitJoin(parts: seq<string>)
    requires |parts| > 0
    requires forall i :: 0 <= i < |parts| ==> ',' !in parts[i]
    ensures Split(JoinWithCommas(parts), ',') == parts
  {
    if |parts| == 1 {
      SplitWithoutSeparator(parts[0], ',');
    } else {
      SplitJoin(parts[1..]);
      SplitAtSeparator(parts[0], ',', JoinWithCommas(parts[1..]));
      assert parts[0] + "," + JoinWithCommas(parts[1..])
          == parts[0] + [','] + JoinWithCommas(parts[1..]);
      assert parts == [parts[0]] + parts[1..];
    }
  }

  // ---------------------------------------------------------------------
  // Properties of the polygon text

  /** Each vertex text splits on its one space into longitude then latitude. */
  lemma VertexTextFields(v: Vertex)
    ensures Split(VertexText(v), ' ') == [v.lon, v.lat]
    ensures ParseVertex(VertexText(v)) == Some(v)
  {
    SplitWithoutSeparator(v.lat, ' ');
    SplitAtSeparator(v.lon, ' ', v.lat);
    assert VertexText(v) == v.lon + [' '] + v.lat;
  }

  lemma {:induction false} ParseVertexTexts(ring: seq<Vertex>)
    ensures ParseVertices(VertexTexts(ring)) == Some(ring)
  {
    if |ring| > 0 {
      VertexTextFields(ring[0]);
      ParseVertexTexts(ring[1..]);
      assert VertexTexts(ring)[1..] == VertexTexts(ring[1..]);
      assert ring == [ring[0]] + ring[1..];
    }
  }

  /** Round trip: parsing the polygon text gives back the ring, vertex for
      vertex and in order, with each pair's axes restored. */
  lemma WktRoundTrip(ring: seq<Vertex>)
    ensures ParsePolygonWkt(PolygonWkt(ring)) == Some(ring)
  {
    var wkt := PolygonWkt(ring);
    var joined := JoinWithCommas(VertexTexts(ring));
    assert wkt[|Opening|..|wkt| - |Closing|] == joined;
    if |ring| == 0 {
    } else {
      forall i | 0 <= i < |ring|
        ensures ',' !in VertexTexts(ring)[i]
      {
        assert VertexTexts(ring)[i] == ring[i].lon + " " + ring[i].lat;
      }
      SplitJoin(VertexTexts(ring));
      NonEmptyJoin(VertexTexts(ring));
      ParseVertexTexts(ring);
    }
  }

  lemma NonEmptyJoin(parts: seq<string>)
    requires |parts| > 0 && |parts[0]| > 0
    ensures JoinWithCommas(parts) != ""
  {
  }

  lemma {:induction false} CountAppend(a: string, b: string, c: char)
    ensures Count(a + b, c) == Count(a, c) + Count(b, c)
  {
    if |a| > 0 {
      CountAppend(a[1..], b, c);
      assert (a + b)[1..] == a[1..] + b;
    } else {
      assert a + b == b;
    }
  }

  lemma {:induction false} CountAbsent(s: string, c: char)
    requires c !in s
    ensures Count(s, c) == 0
  {
    if |s| > 0 {
      CountAbsent(s[1..], c);
    }
  }

  lemma {:induction false} JoinCommaCount(parts: seq<string>)
    requires |parts| > 0
    requires forall i :: 0 <= i < |parts| ==> ',' !in parts[i]
    ensures Count(JoinWithCommas(parts), ',') == |parts| - 1
  {
    CountAbsent(parts[0], ',');
    if |parts| > 1 {
      JoinCommaCount(parts[1..]);
      CountAppend(parts[0] + ",", JoinWithCommas(parts[1..]), ',');
      CountAppend(parts[0], ",", ',');
    }
  }

  /** A ring of n >= 1 vertices is written with exactly n - 1 commas: one
      between each pair of neighbouring vertices and none inside a vertex
      or in the framing. */
  lemma CommaCount(ring: seq<Vertex>)
    requires |ring| > 0
    ensures Count(PolygonWkt(ring), ',') == |ring| - 1
  {
    var texts := VertexTexts(ring);
    forall i | 0 <= i < |ring|
      ensures ',' !in texts[i]
    {
      assert texts[i] == ring[i].lon + " " + ring[i].lat;
    }
    JoinCommaCount(texts);
    CountAppend(Opening + JoinWithCommas(texts), Closing, ',');
    CountAppend(Opening, JoinWithCommas(texts), ',');
  }
}
