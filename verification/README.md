# Species-in-geofence search: a Dafny model

This project models the logic of a small web application. A user draws a
region (a geofence) on a map. The app asks the GBIF occurrence search for
the animal records inside it and lists the distinct taxa it found. Named
geofences can be saved, loaded and deleted in browser storage. A small Flask
back end also writes a drawn polygon as well-known text (WKT).

The model covers the logic parts of `docs/js/app.js` and the WKT line of
`app.py`. Each part is written as pure functions over immutable datatypes:

- **Geometry** (`geometry.dfy`): vertices, and closing a ring before a
  search or a save.
- **Wkt** (`wkt.dfy`): the `POLYGON((lon lat,...))` text, with a parser
  for it and a proof that the two round-trip.
- **Taxa** (`taxa.dfy`): raw occurrence records, species entries, and the
  fallback value each field gets when the record lacks it.
- **Accumulator** (`accumulator.dfy`): merging a page of records into the
  species list and the set of keys already processed. A reference
  definition, the first sighting of each taxon in record order, is proved
  equal to the merge.
- **Pagination** (`pagination.dfy`): the paging loop. The network is
  modelled as a given sequence of responses, one per request. Each
  response is a results array, a response without one, or an error. The
  loop then becomes a fold over that sequence.
- **Sorting** (`sorting.dfy`): `sortSpeciesData`, with `localeCompare`
  abstracted as a total preorder on strings.
- **Display** (`display.dfy`): the de-duplication by taxon key and the
  count shown in the list header.
- **Geofences** (`geofences.dfy`): save (insert, or update after a
  confirmation), delete, load and clear-all on the saved list.
- **Search** (`search.dfy`): the search button end to end.

Modelling choices:

- A string field of a record that is absent, `null` or empty is the empty
  string. A `taxonKey` that is absent, `null` or zero is 0.
  `getSpeciesInPolygon` tests these with JavaScript truthiness, and under
  it each group behaves alike.
- A coordinate is kept as the text it renders to. That text is never empty
  and holds no comma or space.
- Each `confirm()` answer is a boolean argument. Browser storage is the
  list itself.

What the code does not do, and what it does instead:

- The code has no retry, backoff, resumable cursor, winding-order
  normalisation or name enrichment, so none of these are modelled.
- A short non-empty page does not end the loop
  (`Pagination.ShortPageContinues`).
- The first error ends the loop and keeps what was gathered
  (`Pagination.ErrorKeepsPartialResult`). An error can also come from a
  `null` element inside a results array. Then the records before that
  element are kept too (`Pagination.NullElementKeepsEarlierRecords`).

## Model

| member | source | states |
|---|---|---|
| Geometry.CloseRing | docs/js/app.js:371-375 | the result is closed (last vertex equals first), has the input as a prefix, is at most one vertex longer, and equals the input exactly when the input was already closed |
| Geometry.CloseRingIdempotent | docs/js/app.js:371-375 | closing a ring twice gives the same ring as closing it once |
| Geometry.TryCloseRing | docs/js/app.js:412-416 | an empty vertex list is an error (reading `coords[0]` throws); any other list gives exactly `CloseRing` of it, a closed ring that extends the input by at most one vertex and leaves a closed ring unchanged |
| Wkt.PolygonWkt | app.py:46-47 | the text begins with `POLYGON((` and ends with `))` |
| Wkt.VertexTextFields | app.py:46 | a vertex is written as longitude, one space, latitude: splitting its text on the space gives `[lon, lat]`, and parsing it gives the vertex back |
| Wkt.CommaCount | app.py:46 | a ring of n >= 1 vertices is written with exactly n - 1 commas |
| Wkt.WktRoundTrip | docs/js/app.js:123-125 | parsing the polygon text (checking the framing, splitting on commas, then on the space) recovers the ring vertex for vertex and in order, so no vertex is added or removed |
| Taxa.ToSpecies | docs/js/app.js:155-164 | every field is the record's own value when present; otherwise the scientific name falls back to `Unknown species`, the vernacular name to the entry's scientific name, phylum/class/order to `-`, and species to the record's scientific name and then `-`; an eligible record gives a well-formed entry (kingdom `Animalia`, no empty field, truthy key) |
| Accumulator.MergeRecord | docs/js/app.js:150-166 | a record is appended exactly when its key is truthy, its kingdom is `Animalia` and its key is unprocessed; otherwise nothing changes; the list/key-set invariant is kept |
| Accumulator.MergePage | docs/js/app.js:149-167 | merging a page keeps the invariant (key set = keys of the list, keys pairwise distinct, entries well formed), only appends to the list, and adds exactly the page's eligible keys to the processed set |
| Accumulator.MergeKeepsFirstSightings | docs/js/app.js:149-166 | first sighting wins: a merge appends exactly the entries built from the records that are the first eligible sighting of an unprocessed key, in record order |
| Accumulator.MergeFreshIsFirstSightings | docs/js/app.js:135-167 | starting from the empty list and key set, the accumulated list is the first sightings of the records and the invariant holds |
| Accumulator.MergeSeenPageIsIdentity | docs/js/app.js:150-153 | a page whose eligible keys are all processed already leaves the list and the key set unchanged |
| Accumulator.MergePageTwice | docs/js/app.js:149-166 | merging the same page twice gives the same state as merging it once |
| Pagination.CrawlFrom | docs/js/app.js:140-175 | the loop asks for offsets n*300, (n+1)*300, ... and never more than four in all; it keeps the accumulator invariant and never drops an accumulated entry |
| Pagination.GetSpeciesInPolygon | docs/js/app.js:121-179 | for any responses: one to four requests at strictly increasing offsets 0, 300, 600, 900, all below 1000; the returned list has pairwise-distinct keys and well-formed entries; every request carries the ring's polygon text |
| Pagination.CrawlMergesDeliveredPages | docs/js/app.js:140-175 | the loop merges exactly the non-empty pages before the first missing, empty or failed response (at most four), and makes one request per merged page plus the one that stopped it |
| Pagination.GatheredFromDeliveredPages | docs/js/app.js:135-178 | the species list is the first sightings among the records of the leading non-empty pages, in page order, followed by the records before a `null` element of the response that stopped the loop; the request count is that number of pages plus one, or four |
| Pagination.ErrorKeepsPartialResult | docs/js/app.js:171-174 | an error at request d keeps exactly what the d earlier pages accumulated, after d + 1 requests |
| Pagination.NullElementKeepsEarlierRecords | docs/js/app.js:149-173 | a `null` element in the results array of request d throws at `result.taxonKey`: the records before it are merged, the loop ends after d + 1 requests, and the list is the first sightings of the earlier pages' records followed by those records |
| Pagination.ShortPageContinues | docs/js/app.js:145-169 | a non-empty page shorter than the limit does not stop the loop: the next offset, 300, is requested |
| Sorting.SortSpeciesData | docs/js/app.js:182-188 | the result is a permutation of the input; when the order is a total preorder and every entry has a scientific name, it is ordered non-decreasingly by scientific name |
| Search.GatheredComparatorUsesNames | docs/js/app.js:182-188 | on gathered species the comparator's fallback `return 0` is never taken: it always answers `localeCompare` of the two names |
| Display.UniqueByKey | docs/js/app.js:209-220 | the displayed list has pairwise-distinct keys, the same key set as the input, and only entries of the input |
| Display.UniqueByKeyKeepsFirsts | docs/js/app.js:212-217 | exactly the first entry for each key is kept, in the input's order |
| Display.UniqueByKeyOfDistinct | docs/js/app.js:209-220 | on a list whose keys are already distinct the output equals the input |
| Display.UniqueByKeyIdempotent | docs/js/app.js:209-220 | de-duplicating twice equals de-duplicating once |
| Display.DisplayedCount | docs/js/app.js:196-226 | the header count is the number of distinct taxon keys of the list (0 for an empty list), and equals the list's length when its keys are distinct |
| Geofences.FindIndex | docs/js/app.js:427 | the result is -1 exactly when no entry has the name; otherwise it is the first position holding the name |
| Geofences.SaveGeofence | docs/js/app.js:396-440 | without a polygon, with an empty name, or with an empty ring nothing is written; an unused name is appended; an existing name is replaced in place at its first position (the index `findIndex` gave) when confirmed and left alone when declined; no other entry changes, and after a save the first entry of that name is the new one |
| Geofences.SaveKeepsNamesUnique | docs/js/app.js:426-438 | if names were unique before a save they are unique after it |
| Geofences.SaveThenLoad | docs/js/app.js:424-440 | after a successful save, loading at the name's index gives the name with the closed ring |
| Geofences.DeleteGeofence | docs/js/app.js:309-314 | an index out of range throws before anything is written; otherwise exactly that entry is removed, its name is reported, and the others keep their order |
| Geofences.DeleteUndoesAppend | docs/js/app.js:309-314 | deleting the entry that a save just appended restores the previous list |
| Geofences.LoadGeofence | docs/js/app.js:331-338 | the entry at the index, or "not found" exactly when the index is out of range |
| Geofences.ClearAllGeofences | docs/js/app.js:321-328 | a confirmed clear empties the list; a declined one leaves it unchanged |
| Geofences.ClearThenLoadFindsNothing | docs/js/app.js:321-338 | after a confirmed clear, loading any index reports "not found" |
| Search.SearchSpecies | docs/js/app.js:360-393 | without a polygon nothing is fetched; an empty vertex list is an error; otherwise the species are exactly those `getSpeciesInPolygon` gathers for the closed ring (`CloseRing` of the drawn one), whose polygon text is the query geometry and parses back to that ring; the sorted list is a permutation of the gathered one with distinct keys (ordered by name under a total preorder), the display shows it unchanged, and the header count equals the number of species gathered |

## Left out

- Map, drawing, toast, modal and loading-overlay UI, and all HTML rendering (`docs/js/app.js` lines 1-90, the rendering in 191-256, and 258-306): none of it has checkable logic.
- `searchLocation` (the Nominatim geocoding search) and the Flask routes and geopy geocoding in `app.py`: these are network calls with no logic to model.
- `fetch`, `response.json()`, the 100 ms pause between requests, and async control flow: the network is a sequence of responses. A request past the end of that sequence is answered with an error.
- The query parameters other than `geometry` (limit, kingdom key, coordinate flag, status): these are passed to the server and not interpreted by the code.
- `localStorage`, `JSON.parse`/`JSON.stringify` and `confirm()`: the saved list is a sequence, and a confirmation is a boolean.
- The locale rules of `localeCompare` are not modelled: it is a relation `le` that is assumed total and transitive.
- Sorting.SortSpeciesData: the model does not state stability, and does not model sorting in place. (Sorting in place means the caller's unsorted list is changed too.) The model's insertion sort stands in for the engine's sort algorithm. Only the permutation and the ordering are promised.
- Coordinates that are `NaN`: the model compares coordinates by their rendered text, and `NaN` is not equal to itself in JavaScript.
- How numbers are rendered as text (JavaScript in the browser, Python's float formatting in `app.py`): a coordinate is given as its text.
- A `taxonKey` of a non-numeric type: keys are integers.
- The CSV download (`docs/js/app.js` lines 450-477) is Blob and anchor plumbing, so it is not modelled. Its last column reads `species.taxonId`, but entries carry only `taxonKey`.
- `polygon_visualizer.py` and `chicago_river_buffer.py`: these are wrappers over GIS and plotting libraries, file writes and floating-point buffering.
