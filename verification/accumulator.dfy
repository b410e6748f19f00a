/** The accumulator of the species search: the list of entries built so far
    and the set of taxon keys already processed, and the merge of one page of
    records into them. */
module Accumulator {
  import opened Taxa

  datatype Harvest = Harvest(species: seq<Species>, seen: set<int>)

  /** The state before the first page. */
  const Fresh := Harvest([], {})

  /** The invariant the merge keeps: the key set is exactly the keys of the
      list, no key is listed twice and every entry is well formed. */
  predicate Consistent(h: Harvest) {
    && h.seen == KeySet(h.species)
    && DistinctKeys(h.species)
    && forall i :: 0 <= i < |h.species| ==> WellFormed(h.species[i])
  }

  /** The full admission test: eligible, and a key not processed yet. */
  predicate Admits(h: Harvest, r: Occurrence) {
    Eligible(r) && r.taxonKey !in h.seen
  }

  /** One iteration of the inner loop over a page's results. */
  function MergeRecord(h: Harvest, r: Occurrence): (h': Harvest)
    ensures Consistent(h) ==> Consistent(h')
    ensures Admits(h, r) ==> h'.species == h.species + [ToSpecies(r)]
    ensures h'.seen == h.seen + (if Eligible(r) then {r.taxonKey} else {})
    ensures !Admits(h, r) ==> h' == h
  {
    if Admits(h, r) then
      KeySetAppend(h.species, ToSpecies(r));
      Harvest(h.species + [ToSpecies(r)], h.seen + {r.taxonKey})
    else h
  }

  /** Keys of the eligible records of a sequence. */
  function EligibleKeys(records: seq<Occurrence>): set<int> {
    set i | 0 <= i < |records| && Eligible(records[i]) :: records[i].taxonKey
  }

  /** The inner loop over one page: each record in turn, in page order. The
      merge keeps the invariant, only appends to the list, and afterwards
      the processed keys are the old ones plus every eligible key of the
      page. */
  function MergePage(h: Harvest, records: seq<Occurrence>): (h': Harvest)
    ensures Consistent(h) ==> Consistent(h')
    ensures h.species <= h'.species
    ensures h'.seen == h.seen + EligibleKeys(records)
    decreases |records|
  {
    if |records| == 0 then h
    else
      var rest := records[1..];
      assert EligibleKeys(records)
          == (if Eligible(records[0]) then {records[0].taxonKey} else {}) + EligibleKeys(rest) by {
        assert forall i :: 0 < i < |records| ==> records[i] == rest[i - 1];
        assert forall i :: 0 <= i < |rest| ==> rest[i] == records[i + 1];
      }
      MergePage(MergeRecord(h, records[0]), rest)
  }

  // ---------------------------------------------------------------------
  // Reference: the first sightings of a record sequence

  /** Record `i` is the first sighting of its taxon: it is eligible, its key
      was not processed before the sequence began, and no earlier eligible
      record carries the same key. A record with the same key but another
      kingdom does not count as a sighting. */
  ghost predicate FirstSighting(seen: set<int>, records: seq<Occurrence>, i: int)
    requires 0 <= i < |records|
  {
    && Eligible(records[i])
    && records[i].taxonKey !in seen
    && forall j :: 0 <= j < i && Eligible(records[j]) ==> records[j].taxonKey != records[i].taxonKey
  }

  /** The entries built from the first sightings among the first `n`
      records, in record order. */
  ghost function FirstSightings(seen: set<int>, records: seq<Occurrence>, n: nat): seq<Species>
    requires n <= |records|
  {
    if n == 0 then []
    else
      FirstSightings(seen, records, n - 1)
        + (if FirstSighting(seen, records, n - 1) then [ToSpecies(records[n - 1])] else [])
  }

  // ---------------------------------------------------------------------
  // Properties of the merge

  /** Merging two record sequences one after the other is merging their
      concatenation: the merge is a left fold. */
  lemma {:induction false} MergePageAppend(h: Harvest, a: seq<Occurrence>, b: seq<Occurrence>)
    ensures MergePage(h, a + b) == MergePage(MergePage(h, a), b)
    decreases |a|
  {
    if |a| == 0 {
      assert a + b == b;
    } else {
      assert (a + b)[1..] == a[1..] + b;
      MergePageAppend(MergeRecord(h, a[0]), a[1..], b);
    }
  }

  /** First sighting wins: merging records appends to the list exactly the
      entries of the records that are first sightings of their taxon, built
      from those records and in record order. */
  lemma {:induction false} MergeKeepsFirstSightings(h: Harvest, records: seq<Occurrence>, n: nat)
    requires n <= |records|
    ensures MergePage(h, records[..n]).species == h.species + FirstSightings(h.seen, records, n)
  {
    if n == 0 {
      assert records[..0] == [];
    } else {
      var init := records[..n - 1];
      var r := records[n - 1];
      MergeKeepsFirstSightings(h, records, n - 1);
      assert records[..n] == init + [r];
      MergePageAppend(h, init, [r]);
      var m := MergePage(h, init);
      assert MergePage(m, [r]) == MergeRecord(m, r);
      assert m.seen == h.seen + EligibleKeys(init);
      assert Admits(m, r) <==> FirstSighting(h.seen, records, n - 1) by {
        assert forall j :: 0 <= j < n - 1 ==> init[j] == records[j];
        if r.taxonKey in EligibleKeys(init) {
          var j :| 0 <= j < |init| && Eligible(init[j]) && init[j].taxonKey == r.taxonKey;
          assert records[j] == init[j];
        }
      }
    }
  }

  /** The same statement for a whole record sequence merged into the fresh
      state: the list is the first sightings and nothing else. */
  lemma MergeFreshIsFirstSightings(records: seq<Occurrence>)
    ensures MergePage(Fresh, records).species == FirstSightings({}, records, |records|)
    ensures Consistent(MergePage(Fresh, records))
  {
    MergeKeepsFirstSightings(Fresh, records, |records|);
    assert records[..|records|] == records;
  }

  /** Idempotent merge: a page whose eligible keys were all processed already
      leaves the list and the key set unchanged. */
  lemma {:induction false} MergeSeenPageIsIdentity(h: Harvest, records: seq<Occurrence>)
    requires forall i :: 0 <= i < |records| && Eligible(records[i]) ==> records[i].taxonKey in h.seen
    ensures MergePage(h, records) == h
    decreases |records|
  {
    if |records| > 0 {
      assert !Admits(h, records[0]);
      MergeSeenPageIsIdentity(h, records[1..]);
    }
  }

  /** Merging the same page twice gives the same state as merging it once;
      in particular a record seen twice yields one entry. */
  lemma MergePageTwice(h: Harvest, records: seq<Occurrence>)
    ensures MergePage(MergePage(h, records), records) == MergePage(h, records)
  {
    var once := MergePage(h, records);
    forall i | 0 <= i < |records| && Eligible(records[i])
      ensures records[i].taxonKey in once.seen
    {
      assert records[i].taxonKey in EligibleKeys(records);
    }
    MergeSeenPageIsIdentity(once, records);
  }
}
