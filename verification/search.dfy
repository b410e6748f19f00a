/** The species search end to end, as the search button runs it: read the
    drawn ring, close it, gather species page by page, sort them by name and
    de-duplicate them for display. */
module Search {
  import opened Options
  import opened Geometry
  import opened Wkt
  import opened Taxa
  import opened Pagination
  import opened Sorting
  import opened Display

  datatype SearchResult =
    | NoPolygon
    | RingError
    | Found(gathered: Gathered, sorted: seq<Species>, displayed: seq<Species>, count: nat)

  /** `searchSpecies`. Without a drawn polygon nothing is fetched; an empty
      vertex list makes the closing step throw, which the handler reports.
      Otherwise the species are gathered for the closed ring, whose polygon
      text is the request geometry and parses back to that ring; the
      sorted list is a permutation of what was gathered, ordered by name
      under a total preorder, and the display shows every sorted entry (the
      gathered keys are already distinct), so the count in the header is
      the number of entries. */
  function SearchSpecies(polygon: Option<seq<Vertex>>, pages: seq<Page>, le: (string, string) -> bool)
    : (r: SearchResult)
    ensures r.NoPolygon? <==> polygon.None?
    ensures r.RingError? <==> polygon.Some? && |polygon.value| == 0
    ensures r.Found? ==> polygon.Some? && r.gathered == GetSpeciesInPolygon(CloseRing(polygon.value), pages)
    ensures r.Found? ==> ParsePolygonWkt(r.gathered.geometry) == Some(CloseRing(polygon.value))
    ensures r.Found? ==> multiset(r.sorted) == multiset(r.gathered.species)
    ensures r.Found? && TotalPreorder(le) ==> SortedByName(le, r.sorted)
    ensures r.Found? ==> DistinctKeys(r.sorted)
    ensures r.Found? ==> r.displayed == r.sorted
    ensures r.Found? ==> r.count == |r.sorted| == |r.gathered.species|
  {
    match polygon
    case None => NoPolygon
    case Some(coords) =>
      match TryCloseRing(coords)
      case None => RingError
      case Some(ring) =>
        var gathered := GetSpeciesInPolygon(ring, pages);
        var sorted := SortSpeciesData(le, gathered.species);
        assert NamesPresent(gathered.species) by {
          assert forall i :: 0 <= i < |gathered.species| ==> WellFormed(gathered.species[i]);
        }
        DistinctKeysOfPermutation(gathered.species, sorted);
        UniqueByKeyOfDistinct(sorted);
        WktRoundTrip(ring);
        Found(gathered, sorted, UniqueByKey(sorted), DisplayedCount(sorted))
  }

  /** Every gathered entry has a scientific name, so when the list is sorted
      the comparator's fallback answer 0 is never taken: it always answers
      with `localeCompare` of the two names. */
  lemma GatheredComparatorUsesNames(ring: seq<Vertex>, pages: seq<Page>, le: (string, string) -> bool, i: nat, j: nat)
    requires var s := GetSpeciesInPolygon(ring, pages).species; i < |s| && j < |s|
    ensures var s := GetSpeciesInPolygon(ring, pages).species;
      Compare(le, s[i], s[j]) == LocaleCompare(le, s[i].scientificName, s[j].scientificName)
  {
    var s := GetSpeciesInPolygon(ring, pages).species;
    assert WellFormed(s[i]) && WellFormed(s[j]);
  }
}
