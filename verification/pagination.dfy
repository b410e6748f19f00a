/** The paging loop of the species search. The occurrence search is asked for
    pages of up to 300 records at offsets 0, 300, 600 and 900 (while the
    offset is below 1000); the network is a given sequence of responses, one
    per request, in request order. */
module Pagination {
  import opened Taxa
  import opened Accumulator
  import opened Geometry
  import opened Wkt

  const PageLimit := 300
  const MaxRecords := 1000
  /** Offsets 0, 300, 600 and 900 are the ones below MaxRecords. */
  const MaxFetches := 4

  /** The outcome of one request: a results array of records; a results
      array whose first `null` (or `undefined`) element follows the records
      `before`, so that reading its `taxonKey` throws partway through the
      page; a response without a results array; or an error thrown by the
      request or by decoding its body. */
  datatype Page =
    | Results(records: seq<Occurrence>)
    | BrokenResults(before: seq<Occurrence>)
    | NoResults
    | Failed

  /** The records of a page the inner loop gets through: all of a results
      array, those before the element that throws, none otherwise. */
  function Merged(p: Page): seq<Occurrence> {
    match p
    case Results(records) => records
    case BrokenResults(before) => before
    case _ => []
  }

  /** A response the loop merges and continues after: a non-empty results
      array. A short page counts; only a missing or empty one does not. */
  predicate Delivers(p: Page) {
    p.Results? && |p.records| > 0
  }

  /** The response to request `n`; a request beyond the given responses
      fails. */
  function ResponseAt(pages: seq<Page>, n: nat): Page {
    if n < |pages| then pages[n] else Failed
  }

  /** What the loop leaves behind: the accumulator and the offsets it asked
      for, in order. */
  datatype Crawl = Crawl(harvest: Harvest, offsets: seq<nat>)

  /** The loop from request `n` on. Every request asks for offset
      n * PageLimit; a missing or empty results array and an error both end
      the loop with what was accumulated; a delivered page is merged and the
      offset advances by one page. A results array with a `null` element
      has its records before that element merged, and then the error ends
      the loop. */
  function CrawlFrom(pages: seq<Page>, n: nat, h: Harvest): (c: Crawl)
    requires n <= MaxFetches
    ensures n + |c.offsets| <= MaxFetches
    ensures n < MaxFetches ==> |c.offsets| > 0
    ensures forall k :: 0 <= k < |c.offsets| ==> c.offsets[k] == (n + k) * PageLimit
    ensures Consistent(h) ==> Consistent(c.harvest)
    ensures h.species <= c.harvest.species
    decreases MaxFetches - n
  {
    var offset := n * PageLimit;
    if offset >= MaxRecords then Crawl(h, [])
    else
      var page := ResponseAt(pages, n);
      if page.BrokenResults? then Crawl(MergePage(h, page.before), [offset])
      else if !Delivers(page) then Crawl(h, [offset])
      else
        var rest := CrawlFrom(pages, n + 1, MergePage(h, page.records));
        Crawl(rest.harvest, [offset] + rest.offsets)
  }

  /** The result of a species search: the geometry text every request
      carries, the species list, and the offsets requested. */
  datatype Gathered = Gathered(geometry: string, species: seq<Species>, offsets: seq<nat>)

  /** The whole gathering: between one and four requests at strictly
      increasing offsets 0, 300, ...; a list with distinct keys and well
      formed entries, for any responses at all. */
  function GetSpeciesInPolygon(polygonCoords: seq<Vertex>, pages: seq<Page>): (g: Gathered)
    ensures g.geometry == PolygonWkt(polygonCoords)
    ensures 1 <= |g.offsets| <= MaxFetches
    ensures forall k :: 0 <= k < |g.offsets| ==> g.offsets[k] == k * PageLimit
    ensures forall k :: 0 <= k < |g.offsets| ==> g.offsets[k] < MaxRecords
    ensures forall j, k :: 0 <= j < k < |g.offsets| ==> g.offsets[j] < g.offsets[k]
    ensures DistinctKeys(g.species)
    ensures forall i :: 0 <= i < |g.species| ==> WellFormed(g.species[i])
  {
    var c := CrawlFrom(pages, 0, Fresh);
    Gathered(PolygonWkt(polygonCoords), c.harvest.species, c.offsets)
  }

  /** All merged records of a page sequence, page by page. */
  function RecordsOf(pages: seq<Page>): seq<Occurrence> {
    if |pages| == 0 then [] else Merged(pages[0]) + RecordsOf(pages[1..])
  }

  /** The records merged from the response that ends the loop (only a
      results array with a `null` element contributes any). */
  function StopRecords(pages: seq<Page>, d: nat): seq<Occurrence> {
    if d < MaxFetches then Merged(ResponseAt(pages, d)) else []
  }

  /** The records of pages n .. d-1, then those merged from the response
      at d that ended the loop. */
  function MergedRecords(pages: seq<Page>, n: nat, d: nat): seq<Occurrence>
    requires n <= d <= |pages|
  {
    RecordsOf(pages[n..d]) + StopRecords(pages, d)
  }

  /** The pages the loop merges are exactly the delivered ones before the
      first request that does not deliver, and at most four, plus the
      records before the `null` element when that request's results array
      holds one. If pages n .. d-1 deliver and d is either the request cap
      or a request that does not deliver, the loop from n merges exactly
      those records and asks for one offset per delivered page, plus offset
      d when d is below the cap. */
  lemma {:induction false} CrawlMergesDeliveredPages(pages: seq<Page>, n: nat, d: nat, h: Harvest)
    requires n <= d <= MaxFetches && d <= |pages|
    requires forall k :: n <= k < d ==> Delivers(pages[k])
    requires d == MaxFetches || !Delivers(ResponseAt(pages, d))
    ensures CrawlFrom(pages, n, h).harvest == MergePage(h, MergedRecords(pages, n, d))
    ensures |CrawlFrom(pages, n, h).offsets| == (if d < MaxFetches then d + 1 - n else d - n)
    decreases d - n
  {
    if n == d {
      assert pages[n..d] == [];
      assert RecordsOf(pages[n..d]) + StopRecords(pages, d) == StopRecords(pages, d);
      if d < MaxFetches && !ResponseAt(pages, d).BrokenResults? {
        assert StopRecords(pages, d) == [];
        assert MergePage(h, []) == h;
      }
    } else {
      var rs := pages[n].records;
      CrawlMergesDeliveredPages(pages, n + 1, d, MergePage(h, rs));
      assert pages[n..d][0] == pages[n];
      assert pages[n..d][1..] == pages[n + 1..d];
      var tail := RecordsOf(pages[n + 1..d]) + StopRecords(pages, d);
      MergePageAppend(h, rs, tail);
      assert RecordsOf(pages[n..d]) + StopRecords(pages, d) == rs + tail;
    }
  }

  /** The species search as a whole: with d the number of leading delivered
      pages (at most four), the list is the first sightings among the
      records of those d pages in page order, followed by the records before
      the `null` element of the response that stopped the loop, if it had
      one; the offsets asked for are 0, 300, ... one per delivered page plus
      the one that stopped the loop. An error or an empty page therefore
      keeps the partial result, and a short page does not stop the loop. */
  lemma GatheredFromDeliveredPages(polygonCoords: seq<Vertex>, pages: seq<Page>, d: nat)
    requires d <= MaxFetches && d <= |pages|
    requires forall k :: 0 <= k < d ==> Delivers(pages[k])
    requires d == MaxFetches || !Delivers(ResponseAt(pages, d))
    ensures var records := MergedRecords(pages, 0, d);
      GetSpeciesInPolygon(polygonCoords, pages).species == FirstSightings({}, records, |records|)
    ensures |GetSpeciesInPolygon(polygonCoords, pages).offsets| == if d < MaxFetches then d + 1 else d
  {
    CrawlMergesDeliveredPages(pages, 0, d, Fresh);
    assert pages[0..d] == pages[..d];
    MergeFreshIsFirstSightings(MergedRecords(pages, 0, d));
  }

  /** A failed request keeps what the earlier pages accumulated: the result
      is the same as if the responses had ended there. */
  lemma ErrorKeepsPartialResult(polygonCoords: seq<Vertex>, pages: seq<Page>, d: nat)
    requires d < MaxFetches && d < |pages|
    requires forall k :: 0 <= k < d ==> Delivers(pages[k])
    requires pages[d] == Failed
    ensures GetSpeciesInPolygon(polygonCoords, pages).species
         == GetSpeciesInPolygon(polygonCoords, pages[..d]).species
    ensures |GetSpeciesInPolygon(polygonCoords, pages).offsets| == d + 1
  {
    GatheredFromDeliveredPages(polygonCoords, pages, d);
    GatheredFromDeliveredPages(polygonCoords, pages[..d], d);
    assert pages[..d][..d] == pages[..d];
  }

  /** A `null` element in the results array of request d ends the loop
      after the records before it are merged: the list is the first
      sightings among the earlier pages' records followed by those records,
      after d + 1 requests. */
  lemma NullElementKeepsEarlierRecords(polygonCoords: seq<Vertex>, pages: seq<Page>, d: nat, before: seq<Occurrence>)
    requires d < MaxFetches && d < |pages|
    requires forall k :: 0 <= k < d ==> Delivers(pages[k])
    requires pages[d] == BrokenResults(before)
    ensures var records := RecordsOf(pages[..d]) + before;
      GetSpeciesInPolygon(polygonCoords, pages).species == FirstSightings({}, records, |records|)
    ensures |GetSpeciesInPolygon(polygonCoords, pages).offsets| == d + 1
  {
    GatheredFromDeliveredPages(polygonCoords, pages, d);
    assert StopRecords(pages, d) == before;
  }

  /** A page shorter than the limit is merged and the loop goes on to the
      next offset: only a missing or empty results array stops it. */
  lemma ShortPageContinues(polygonCoords: seq<Vertex>, pages: seq<Page>)
    requires |pages| > 0 && Delivers(pages[0]) && |pages[0].records| < PageLimit
    ensures |GetSpeciesInPolygon(polygonCoords, pages).offsets| >= 2
    ensures GetSpeciesInPolygon(polygonCoords, pages).offsets[1] == PageLimit
  {
  }
}
