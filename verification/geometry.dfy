/** Vertices of a drawn region and the closing of its boundary ring, as done
    before a species search and before a geofence is saved. */
module Geometry {
  import opened Options

  /** The text a coordinate number renders to (a JavaScript number's string
      form, or a Python number's). It is never empty and, like every such
      rendering, holds neither a comma nor a space. */
  predicate IsNumberText(s: string) {
    |s| > 0 && forall i :: 0 <= i < |s| ==> s[i] != ',' && s[i] != ' '
  }

  type NumberText = s: string | IsNumberText(s) witness "0"

  /** One `[lat, lng]` pair of a ring. A coordinate is kept as its rendered
      text: two finite numbers are `===` exactly when their renderings agree. */
  datatype Vertex = Vertex(lat: NumberText, lon: NumberText)

  /** A ring is closed when its last vertex repeats its first. */
  predicate IsClosed(ring: seq<Vertex>) {
    |ring| > 0 && ring[0] == ring[|ring| - 1]
  }

  /** Appends the first vertex when the first and last differ in latitude or
      in longitude. The result is closed, keeps the input as a prefix, and
      differs from the input exactly when the input was open. */
  function CloseRing(coords: seq<Vertex>): (ring: seq<Vertex>)
    requires |coords| > 0
    ensures IsClosed(ring)
    ensures coords <= ring
    ensures |coords| <= |ring| <= |coords| + 1
    ensures ring == coords <==> IsClosed(coords)
  {
    var first, last := coords[0], coords[|coords| - 1];
    if first.lat != last.lat || first.lon != last.lon then coords + [first] else coords
  }

  /** Closing an already closed ring changes nothing, so closing is
      idempotent. */
  lemma CloseRingIdempotent(coords: seq<Vertex>)
    requires |coords| > 0
    ensures CloseRing(CloseRing(coords)) == CloseRing(coords)
  {
  }

  /** The closing step as the callers run it: on an empty vertex list the
      read of `coords[0]` throws, and the caller's handler reports an error
      (`None`) instead of a ring. */
  function TryCloseRing(coords: seq<Vertex>): (r: Option<seq<Vertex>>)
    ensures r.None? <==> |coords| == 0
    ensures r.Some? ==> r.value == CloseRing(coords)
    ensures r.Some? ==> IsClosed(r.value) && coords <= r.value && |r.value| <= |coords| + 1
  {
    if |coords| == 0 then None else Some(CloseRing(coords))
  }
}
