/** The sort of the species list by scientific name. `localeCompare` is
    abstracted as a relation `le` on strings ("sorts no later than"); the
    comparator answers 0 whenever either name is empty. */
module Sorting {
  import opened Taxa

  /** What `localeCompare` is assumed to be: total and transitive. Two
      different strings may still compare as equal. */
  ghost predicate TotalPreorder(le: (string, string) -> bool) {
    && (forall a, b :: le(a, b) || le(b, a))
    && (forall a, b, c :: le(a, b) && le(b, c) ==> le(a, c))
  }

  /** The sign `a.localeCompare(b)` returns. */
  function LocaleCompare(le: (string, string) -> bool, a: string, b: string): int {
    if le(a, b) && le(b, a) then 0 else if le(a, b) then -1 else 1
  }

  /** The comparator passed to `sort`. */
  function Compare(le: (string, string) -> bool, a: Species, b: Species): int {
    if a.scientificName != "" && b.scientificName != "" then
      LocaleCompare(le, a.scientificName, b.scientificName)
    else 0
  }

  /** Ordered non-decreasingly by scientific name under `le`. */
  ghost predicate SortedByName(le: (string, string) -> bool, s: seq<Species>) {
    forall i, j :: 0 <= i < j < |s| ==> le(s[i].scientificName, s[j].scientificName)
  }

  predicate NamesPresent(s: seq<Species>) {
    forall i :: 0 <= i < |s| ==> s[i].scientificName != ""
  }

  /** Places `x` before the first entry it does not compare after, so that
      entries comparing equal keep their order. */
  function Insert(le: (string, string) -> bool, x: Species, sorted: seq<Species>): (r: seq<Species>)
    ensures multiset(r) == multiset(sorted) + multiset{x}
    ensures |r| == |sorted| + 1
  {
    if |sorted| == 0 then [x]
    else if Compare(le, x, sorted[0]) <= 0 then [x] + sorted
    else
      assert sorted == [sorted[0]] + sorted[1..];
      [sorted[0]] + Insert(le, x, sorted[1..])
  }

  lemma {:induction false} InsertSorted(le: (string, string) -> bool, x: Species, sorted: seq<Species>)
    requires TotalPreorder(le)
    requires x.scientificName != "" && NamesPresent(sorted)
    requires SortedByName(le, sorted)
    ensures SortedByName(le, Insert(le, x, sorted))
  {
    if |sorted| > 0 && Compare(le, x, sorted[0]) > 0 {
      var tail := sorted[1..];
      InsertSorted(le, x, tail);
      var r := Insert(le, x, tail);
      assert le(sorted[0].scientificName, x.scientificName);
      forall k | 0 <= k < |r|
        ensures le(sorted[0].scientificName, r[k].scientificName)
      {
        assert r[k] in multiset(r);
        assert r[k] in multiset(tail) || r[k] == x;
        if r[k] != x {
          var m :| 0 <= m < |tail| && tail[m] == r[k];
          assert sorted[m + 1] == r[k];
        }
      }
    }
  }

  /** `sortSpeciesData`: a permutation of its input, and, when `le` is a
      total preorder and every entry has a scientific name (as every entry
      of the species search has), ordered by scientific name. */
  function SortSpeciesData(le: (string, string) -> bool, data: seq<Species>): (r: seq<Species>)
    ensures multiset(r) == multiset(data)
    ensures |r| == |data|
    ensures TotalPreorder(le) && NamesPresent(data) ==> SortedByName(le, r)
  {
    if |data| == 0 then []
    else
      var rest := SortSpeciesData(le, data[1..]);
      assert data == [data[0]] + data[1..];
      assert TotalPreorder(le) && NamesPresent(data) ==> SortedByName(le, Insert(le, data[0], rest)) by {
        if TotalPreorder(le) && NamesPresent(data) {
          forall i | 0 <= i < |rest| ensures rest[i].scientificName != "" {
            assert rest[i] in multiset(data[1..]);
          }
          InsertSorted(le, data[0], rest);
        }
      }
      Insert(le, data[0], rest)
  }
}
