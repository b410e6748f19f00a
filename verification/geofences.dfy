/** The saved-geofence list: named rings kept in browser storage, and the
    save (insert or confirmed update), delete, load and clear-all edits on
    it. Storage is the list itself (an absent entry reads as the empty list)
    and each `confirm()` answer is a boolean argument. */
module Geofences {
  import opened Options
  import opened Geometry

  datatype Geofence = Geofence(name: string, coordinates: seq<Vertex>)

  /** `findIndex` by name: the first position holding the name, or -1. */
  function FindIndex(saved: seq<Geofence>, name: string): (r: int)
    ensures -1 <= r < |saved|
    ensures r == -1 <==> forall i :: 0 <= i < |saved| ==> saved[i].name != name
    ensures r >= 0 ==> saved[r].name == name
    ensures r >= 0 ==> forall j :: 0 <= j < r ==> saved[j].name != name
  {
    if |saved| == 0 then -1
    else if saved[0].name == name then 0
    else
      var r := FindIndex(saved[1..], name);
      if r == -1 then -1 else r + 1
  }

  /** The first position holding a name is the one `FindIndex` reports. */
  lemma FindIndexIsFirst(saved: seq<Geofence>, name: string, i: int)
    requires 0 <= i < |saved| && saved[i].name == name
    requires forall j :: 0 <= j < i ==> saved[j].name != name
    ensures FindIndex(saved, name) == i
  {
  }

  /** How a save ended. Only `Appended` and `Updated` write the list. */
  datatype SaveStatus = Appended | Updated | Declined | NoPolygon | NoName | Failed

  datatype SaveResult = SaveResult(status: SaveStatus, saved: seq<Geofence>)

  /** `saveGeofence`. Without a drawn polygon or with an empty name nothing
      happens; an empty vertex list makes the ring closing throw, which the
      handler reports (`Failed`). Otherwise the ring is closed and the entry
      replaces the first one of the same name when the user confirms, leaves
      the list alone when they decline, and is appended when no entry has
      that name. No other entry changes in any case. */
  function SaveGeofence(saved: seq<Geofence>, polygon: Option<seq<Vertex>>, name: string, confirmed: bool)
    : (r: SaveResult)
    ensures r.status in {NoPolygon, NoName, Failed, Declined} ==> r.saved == saved
    ensures r.status == NoPolygon <==> polygon.None?
    ensures r.status == NoName <==> polygon.Some? && name == ""
    ensures r.status == Failed <==> polygon.Some? && name != "" && |polygon.value| == 0
    ensures r.status in {Appended, Updated} ==>
      && polygon.Some? && |polygon.value| > 0
      && 0 <= FindIndex(r.saved, name)
      && r.saved[FindIndex(r.saved, name)] == Geofence(name, CloseRing(polygon.value))
    ensures r.status == Appended <==>
      r.status !in {NoPolygon, NoName, Failed} && FindIndex(saved, name) == -1
    ensures r.status == Appended ==> r.saved == saved + [Geofence(name, CloseRing(polygon.value))]
    ensures r.status == Updated <==>
      r.status !in {NoPolygon, NoName, Failed} && FindIndex(saved, name) >= 0 && confirmed
    ensures r.status == Updated ==>
      && |r.saved| == |saved|
      && r.saved[FindIndex(saved, name)] == Geofence(name, CloseRing(polygon.value))
      && forall j :: 0 <= j < |saved| && j != FindIndex(saved, name) ==> r.saved[j] == saved[j]
  {
    if polygon.None? then SaveResult(NoPolygon, saved)
    else if name == "" then SaveResult(NoName, saved)
    else match TryCloseRing(polygon.value)
    case None => SaveResult(Failed, saved)
    case Some(ring) =>
      var entry := Geofence(name, ring);
      var existing := FindIndex(saved, name);
      if existing >= 0 then
        if confirmed then
          var updated := saved[existing := entry];
          assert FindIndex(updated, name) == existing by {
            assert forall j :: 0 <= j < existing ==> updated[j] == saved[j];
            FindIndexIsFirst(updated, name, existing);
          }
          SaveResult(Updated, updated)
        else SaveResult(Declined, saved)
      else
        var appended := saved + [entry];
        assert FindIndex(appended, name) == |saved| by {
          assert forall j :: 0 <= j < |saved| ==> appended[j] == saved[j];
          FindIndexIsFirst(appended, name, |saved|);
        }
        SaveResult(Appended, appended)
  }

  /** No two entries share a name. */
  predicate UniqueNames(saved: seq<Geofence>) {
    forall i, j :: 0 <= i < j < |saved| ==> saved[i].name != saved[j].name
  }

  /** Saving keeps names unique: it updates in place or appends a new name,
      never adding a second entry under an existing name. */
  lemma SaveKeepsNamesUnique(saved: seq<Geofence>, polygon: Option<seq<Vertex>>, name: string, confirmed: bool)
    requires UniqueNames(saved)
    ensures UniqueNames(SaveGeofence(saved, polygon, name, confirmed).saved)
  {
  }

  /** `deleteGeofence`: reading the name of an entry that is not there
      throws before anything is written (`None`); otherwise the entry at
      `index` is removed, its name reported, and the others keep their
      order. */
  function DeleteGeofence(saved: seq<Geofence>, index: int): (r: Option<(string, seq<Geofence>)>)
    ensures r.Some? <==> 0 <= index < |saved|
    ensures r.Some? ==> r.value.0 == saved[index].name
    ensures r.Some? ==> |r.value.1| == |saved| - 1
    ensures r.Some? ==> forall j :: 0 <= j < index ==> r.value.1[j] == saved[j]
    ensures r.Some? ==> forall j :: index <= j < |r.value.1| ==> r.value.1[j] == saved[j + 1]
    ensures r.Some? ==> multiset(r.value.1) + multiset{saved[index]} == multiset(saved)
  {
    if 0 <= index < |saved| then
      var rest := saved[..index] + saved[index + 1..];
      assert saved == saved[..index] + [saved[index]] + saved[index + 1..];
      Some((saved[index].name, rest))
    else None
  }

  /** `loadGeofence`: the entry at `index`, or `None` ("Geofence not found")
      when there is none. */
  function LoadGeofence(saved: seq<Geofence>, index: int): (r: Option<Geofence>)
    ensures r.Some? <==> 0 <= index < |saved|
    ensures r.Some? ==> r.value in saved && r.value == saved[index]
  {
    if 0 <= index < |saved| then Some(saved[index]) else None
  }

  /** `clearAllGeofences`: the list is emptied only when confirmed. */
  function ClearAllGeofences(saved: seq<Geofence>, confirmed: bool): (r: seq<Geofence>)
    ensures confirmed ==> |r| == 0
    ensures !confirmed ==> r == saved
  {
    if confirmed then [] else saved
  }

  /** After a confirmed clear no index loads a geofence. */
  lemma ClearThenLoadFindsNothing(saved: seq<Geofence>, index: int)
    ensures LoadGeofence(ClearAllGeofences(saved, true), index) == None
  {
  }

  /** Save then load: after a successful save, loading the first entry of
      that name gives back the name and the closed ring. */
  lemma SaveThenLoad(saved: seq<Geofence>, coords: seq<Vertex>, name: string, confirmed: bool)
    requires name != "" && |coords| > 0
    requires FindIndex(saved, name) == -1 || confirmed
    ensures var r := SaveGeofence(saved, Some(coords), name, confirmed);
      LoadGeofence(r.saved, FindIndex(r.saved, name)) == Some(Geofence(name, CloseRing(coords)))
  {
    var r := SaveGeofence(saved, Some(coords), name, confirmed);
    assert r.status in {Appended, Updated};
  }

  /** Deleting an entry that was just appended restores the list. */
  lemma DeleteUndoesAppend(saved: seq<Geofence>, coords: seq<Vertex>, name: string, confirmed: bool)
    requires name != "" && |coords| > 0 && FindIndex(saved, name) == -1
    ensures var r := SaveGeofence(saved, Some(coords), name, confirmed);
      DeleteGeofence(r.saved, |saved|) == Some((name, saved))
  {
    var entry := Geofence(name, CloseRing(coords));
    var r := SaveGeofence(saved, Some(coords), name, confirmed);
    assert r.saved == saved + [entry];
    var d := DeleteGeofence(r.saved, |saved|);
    assert d.value.1 == saved by {
      assert |d.value.1| == |saved|;
      forall j | 0 <= j < |saved| ensures d.value.1[j] == saved[j] {
        assert d.value.1[j] == r.saved[j];
      }
    }
  }
}
