/** The de-duplication step of the species display: an insertion-ordered map
    from taxon key to the first entry with that key, whose size is the count
    shown in the list header. */
module Display {
  import opened Taxa

  /** Entry `i` is the first of the list with its taxon key. */
  ghost predicate FirstOfKey(s: seq<Species>, i: int)
    requires 0 <= i < |s|
  {
    forall j :: 0 <= j < i ==> s[j].taxonKey != s[i].taxonKey
  }

  /** Reference: the entries among the first `n` that are first of their
      key, in list order. */
  ghost function FirstOfEachKey(s: seq<Species>, n: nat): seq<Species>
    requires n <= |s|
  {
    if n == 0 then [] else FirstOfEachKey(s, n - 1) + (if FirstOfKey(s, n - 1) then [s[n - 1]] else [])
  }

  /** The `forEach` over the list filling the map: an entry is stored only
      when its key is not in the map yet. The result is the map's values in
      insertion order. */
  function UniqueByKey(s: seq<Species>): (r: seq<Species>)
    ensures DistinctKeys(r)
    ensures KeySet(r) == KeySet(s)
    ensures forall k :: 0 <= k < |r| ==> r[k] in s
    ensures |r| <= |s|
  {
    if |s| == 0 then []
    else
      var init := s[..|s| - 1];
      var last := s[|s| - 1];
      var kept := UniqueByKey(init);
      assert KeySet(s) == KeySet(init) + {last.taxonKey} by {
        assert s == init + [last];
        KeySetAppend(init, last);
      }
      if last.taxonKey in KeySet(kept) then kept
      else
        KeySetAppend(kept, last);
        kept + [last]
  }

  /** The map keeps exactly the first entry for each key, in the order of
      the list. */
  lemma {:induction false} UniqueByKeyKeepsFirsts(s: seq<Species>)
    ensures UniqueByKey(s) == FirstOfEachKey(s, |s|)
  {
    if |s| > 0 {
      var n := |s|;
      var init := s[..n - 1];
      UniqueByKeyKeepsFirsts(init);
      assert FirstOfEachKey(init, n - 1) == FirstOfEachKey(s, n - 1) by {
        FirstOfEachKeyPrefix(s, n - 1, n - 1);
      }
      var last := s[n - 1];
      assert last.taxonKey in KeySet(init) <==> !FirstOfKey(s, n - 1) by {
        if last.taxonKey in KeySet(init) {
          var j :| 0 <= j < |init| && init[j].taxonKey == last.taxonKey;
          assert s[j] == init[j];
        } else {
          forall j | 0 <= j < n - 1 ensures s[j].taxonKey != last.taxonKey {
            assert s[j] == init[j];
            assert init[j].taxonKey in KeySet(init);
          }
        }
      }
    }
  }

  /** The reference over a prefix depends only on that prefix. */
  lemma {:induction false} FirstOfEachKeyPrefix(s: seq<Species>, m: nat, n: nat)
    requires n <= m <= |s|
    ensures FirstOfEachKey(s[..m], n) == FirstOfEachKey(s, n)
  {
    if n > 0 {
      FirstOfEachKeyPrefix(s, m, n - 1);
      assert forall j :: 0 <= j < m ==> s[..m][j] == s[j];
      assert FirstOfKey(s[..m], n - 1) <==> FirstOfKey(s, n - 1);
    }
  }

  /** On a list whose keys are already distinct, such as the species search
      produces, the map changes nothing. */
  lemma {:induction false} UniqueByKeyOfDistinct(s: seq<Species>)
    requires DistinctKeys(s)
    ensures UniqueByKey(s) == s
  {
    if |s| > 0 {
      var init := s[..|s| - 1];
      var last := s[|s| - 1];
      UniqueByKeyOfDistinct(init);
      assert last.taxonKey !in KeySet(init);
      assert s == init + [last];
    }
  }

  /** The count in the header: 0 for an empty list, else the size of the
      map. It is the number of distinct taxon keys of the list. */
  function DisplayedCount(species: seq<Species>): (count: nat)
    ensures count == |KeySet(species)|
    ensures count <= |species|
    ensures DistinctKeys(species) ==> count == |species|
  {
    if |species| == 0 then 0
    else
      var unique := UniqueByKey(species);
      DistinctKeysCount(unique);
      assert DistinctKeys(species) ==> |KeySet(species)| == |species| by {
        if DistinctKeys(species) {
          DistinctKeysCount(species);
        }
      }
      |unique|
  }

  /** De-duplicating twice is de-duplicating once. */
  lemma UniqueByKeyIdempotent(s: seq<Species>)
    ensures UniqueByKey(UniqueByKey(s)) == UniqueByKey(s)
  {
    UniqueByKeyOfDistinct(UniqueByKey(s));
  }
}
