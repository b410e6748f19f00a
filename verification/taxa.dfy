/** Occurrence records as the occurrence search returns them, and the species
    entries the search keeps, one per admitted taxon. */
module Taxa {

  const Animalia := "Animalia"
  const UnknownSpecies := "Unknown species"
  const Dash := "-"

  /** One raw occurrence record. A string field that is absent, null or empty
      is the empty string here, and an absent, null or zero `taxonKey` is 0:
      `getSpeciesInPolygon` tests each with JavaScript truthiness, under which these are
      all alike. */
  datatype Occurrence = Occurrence(
    taxonKey: int,
    kingdom: string,
    scientificName: string,
    vernacularName: string,
    phylum: string,
    taxonClass: string,
    order: string,
    species: string)

  /** One entry of the species list, with its fields in the order the app
      builds them. */
  datatype Species = Species(
    scientificName: string,
    vernacularName: string,
    taxonKey: int,
    kingdom: string,
    phylum: string,
    taxonClass: string,
    order: string,
    species: string)

  /** `given || fallback` on strings: the empty string is the one falsy
      string. */
  function Or(given: string, fallback: string): string {
    if given != "" then given else fallback
  }

  /** The record-level part of the admission test: a truthy key and a kingdom
      that is exactly `Animalia`. */
  predicate Eligible(r: Occurrence) {
    r.taxonKey != 0 && r.kingdom == Animalia
  }

  /** `taken` is the record's own value when it has one, else `fallback`. */
  predicate FilledFrom(given: string, taken: string, fallback: string) {
    (given != "" ==> taken == given) && (given == "" ==> taken == fallback)
  }

  /** What every accumulated entry looks like: a truthy key, the kingdom
      `Animalia`, and no empty text field. */
  predicate WellFormed(e: Species) {
    && e.taxonKey != 0
    && e.kingdom == Animalia
    && e.scientificName != ""
    && e.vernacularName != ""
    && e.phylum != ""
    && e.taxonClass != ""
    && e.order != ""
    && e.species != ""
  }

  /** The entry built from a record, with its fallbacks. */
  function ToSpecies(r: Occurrence): (e: Species)
    ensures e.taxonKey == r.taxonKey
    ensures FilledFrom(r.scientificName, e.scientificName, UnknownSpecies)
    ensures FilledFrom(r.vernacularName, e.vernacularName, e.scientificName)
    ensures FilledFrom(r.phylum, e.phylum, Dash)
    ensures FilledFrom(r.taxonClass, e.taxonClass, Dash)
    ensures FilledFrom(r.order, e.order, Dash)
    ensures r.species != "" ==> e.species == r.species
    ensures r.species == "" ==> FilledFrom(r.scientificName, e.species, Dash)
    ensures Eligible(r) ==> WellFormed(e)
  {
    Species(
      scientificName := Or(r.scientificName, UnknownSpecies),
      vernacularName := Or(r.vernacularName, Or(r.scientificName, UnknownSpecies)),
      taxonKey := r.taxonKey,
      kingdom := Or(r.kingdom, Animalia),
      phylum := Or(r.phylum, Dash),
      taxonClass := Or(r.taxonClass, Dash),
      order := Or(r.order, Dash),
      species := Or(r.species, Or(r.scientificName, Dash)))
  }

  /** The set of taxon keys of a species list. */
  function KeySet(s: seq<Species>): set<int> {
    set i | 0 <= i < |s| :: s[i].taxonKey
  }

  /** Appending an entry adds its key to the key set. */
  lemma KeySetAppend(s: seq<Species>, e: Species)
    ensures KeySet(s + [e]) == KeySet(s) + {e.taxonKey}
  {
    var t := s + [e];
    assert t[|s|] == e;
    assert forall i :: 0 <= i < |s| ==> t[i] == s[i];
  }

  /** No two entries share a taxon key. */
  predicate DistinctKeys(s: seq<Species>) {
    forall i, j :: 0 <= i < j < |s| ==> s[i].taxonKey != s[j].taxonKey
  }

  /** A list with distinct keys has exactly as many keys as entries. */
  lemma {:induction false} DistinctKeysCount(s: seq<Species>)
    requires DistinctKeys(s)
    ensures |KeySet(s)| == |s|
  {
    if |s| > 0 {
      var init := s[..|s| - 1];
      DistinctKeysCount(init);
      assert KeySet(s) == KeySet(init) + {s[|s| - 1].taxonKey};
      assert s[|s| - 1].taxonKey !in KeySet(init);
    }
  }

  /** There are never more keys than entries. */
  lemma {:induction false} KeySetBound(s: seq<Species>)
    ensures |KeySet(s)| <= |s|
  {
    if |s| > 0 {
      var init := s[..|s| - 1];
      KeySetBound(init);
      assert s == init + [s[|s| - 1]];
      KeySetAppend(init, s[|s| - 1]);
    }
  }

  lemma SubsetCount(a: set<int>, b: set<int>)
    requires a <= b
    ensures |a| <= |b|
  {
    assert b == a + (b - a);
    assert a * (b - a) == {};
  }

  /** As many keys as entries means no key is repeated: the converse of
      DistinctKeysCount. */
  lemma CountedKeysAreDistinct(s: seq<Species>)
    requires |KeySet(s)| == |s|
    ensures DistinctKeys(s)
  {
    if !DistinctKeys(s) {
      var i, j :| 0 <= i < j < |s| && s[i].taxonKey == s[j].taxonKey;
      var rest := s[..j] + s[j + 1..];
      assert KeySet(s) <= KeySet(rest) by {
        forall k | k in KeySet(s) ensures k in KeySet(rest) {
          var m :| 0 <= m < |s| && s[m].taxonKey == k;
          if m < j {
            assert rest[m] == s[m];
          } else if m == j {
            assert rest[i] == s[i];
          } else {
            assert rest[m - 1] == s[m];
          }
        }
      }
      KeySetBound(rest);
      SubsetCount(KeySet(s), KeySet(rest));
    }
  }

  /** Reordering a list keeps its keys. */
  lemma KeySetOfPermutation(s: seq<Species>, t: seq<Species>)
    requires multiset(s) == multiset(t)
    ensures KeySet(s) == KeySet(t)
  {
    forall k | k in KeySet(s) ensures k in KeySet(t) {
      var i :| 0 <= i < |s| && s[i].taxonKey == k;
      assert s[i] in multiset(t);
      var j :| 0 <= j < |t| && t[j] == s[i];
    }
    forall k | k in KeySet(t) ensures k in KeySet(s) {
      var i :| 0 <= i < |t| && t[i].taxonKey == k;
      assert t[i] in multiset(s);
      var j :| 0 <= j < |s| && s[j] == t[i];
    }
  }

  /** Reordering a list with distinct keys keeps them distinct. */
  lemma DistinctKeysOfPermutation(s: seq<Species>, t: seq<Species>)
    requires multiset(s) == multiset(t) && DistinctKeys(s)
    ensures DistinctKeys(t)
  {
    KeySetOfPermutation(s, t);
    DistinctKeysCount(s);
    assert |s| == |multiset(s)| == |multiset(t)| == |t|;
    CountedKeysAreDistinct(t);
  }
}
