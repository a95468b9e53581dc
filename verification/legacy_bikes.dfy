/**
 * The legacy prototype's bike table: its records and their dictionary form,
 * the lookup by id, the "available" view, and the two reservation
 * transitions a bike goes through (free -> reserved -> free, relocated).
 */
module LegacyBikes {
  import opened Wrappers

  /** A JSON scalar as it appears in the bike table file. */
  datatype Json = JStr(s: string) | JInt(i: int) | JNum(x: real) | JBool(b: bool)

  /**
   * A coordinate as the table file holds it. JSON keeps an integer apart from a
   * float, and a coordinate loaded as one is written back as the same.
   */
  datatype Coord = CInt(i: int) | CNum(x: real)

  /** The numeric value of a coordinate. */
  function CoordValue(c: Coord): real
  {
    match c
    case CInt(i) => i as real
    case CNum(x) => x
  }

  /** A coordinate written as JSON. */
  function CoordJson(c: Coord): Json
  {
    match c
    case CInt(i) => JInt(i)
    case CNum(x) => JNum(x)
  }

  /** One row of the bike table. */
  datatype Bike = Bike(id: Json, lat: Coord, lng: Coord, isReserved: bool)

  /** A bike in its serialised (dictionary) form. */
  type Dict = map<string, Json>

  function ToDict(b: Bike): (d: Dict)
    ensures d.Keys == {"id", "lat", "lng", "is_reserved"}
  {
    map["id" := b.id, "lat" := CoordJson(b.lat), "lng" := CoordJson(b.lng), "is_reserved" := JBool(b.isReserved)]
  }

  /** A coordinate read back from JSON: an integer or a float, kept as it was written. */
  function AsCoordinate(v: Json): (r: Option<Coord>)
    ensures r.Some? <==> v.JInt? || v.JNum?
    ensures r.Some? ==> CoordJson(r.value) == v
  {
    match v
    case JNum(x) => Some(CNum(x))
    case JInt(i) => Some(CInt(i))
    case _ => None
  }

  /**
   * Builds a bike from one row of the table file. A row loads exactly when it
   * has the four fields, numeric coordinates and a boolean flag; extra fields
   * are ignored, and every field is kept as it was written.
   */
  function FromDict(d: Dict): (r: Option<Bike>)
    ensures r.Some? <==>
      "id" in d && "lat" in d && "lng" in d && "is_reserved" in d
      && (d["lat"].JInt? || d["lat"].JNum?) && (d["lng"].JInt? || d["lng"].JNum?) && d["is_reserved"].JBool?
    ensures r.Some? ==> "id" in d && r.value.id == d["id"]
    ensures r.Some? ==> "lat" in d && "lng" in d && CoordJson(r.value.lat) == d["lat"] && CoordJson(r.value.lng) == d["lng"]
    ensures r.Some? ==> "is_reserved" in d && d["is_reserved"] == JBool(r.value.isReserved)
    ensures !("id" in d && "lat" in d && "lng" in d && "is_reserved" in d) ==> r.None?
  {
    if "id" in d && "lat" in d && "lng" in d && "is_reserved" in d
       && AsCoordinate(d["lat"]).Some? && AsCoordinate(d["lng"]).Some? && d["is_reserved"].JBool?
    then Some(Bike(d["id"], AsCoordinate(d["lat"]).value, AsCoordinate(d["lng"]).value, d["is_reserved"].b))
    else None
  }

  /** Reading back a serialised bike gives the same bike. */
  lemma DictRoundTrip(b: Bike)
    ensures FromDict(ToDict(b)) == Some(b)
  {
  }

  /** The dictionary form of a whole table, row by row. */
  function ToDictList(bikes: seq<Bike>): (rows: seq<Dict>)
    ensures |rows| == |bikes|
    ensures forall i :: 0 <= i < |bikes| ==> rows[i] == ToDict(bikes[i])
  {
    if bikes == [] then [] else [ToDict(bikes[0])] + ToDictList(bikes[1..])
  }

  /** A whole table read back from its rows; it fails if any row is malformed. */
  function FromDictList(rows: seq<Dict>): (r: Option<seq<Bike>>)
    ensures r.Some? <==> forall i :: 0 <= i < |rows| ==> FromDict(rows[i]).Some?
    ensures r.Some? ==> |r.value| == |rows|
    ensures r.Some? ==> forall i :: 0 <= i < |rows| ==> FromDict(rows[i]) == Some(r.value[i])
  {
    if rows == [] then Some([])
    else match (FromDict(rows[0]), FromDictList(rows[1..]))
      case (Some(b), Some(rest)) => Some([b] + rest)
      case (None, _) => None
      case (_, None) =>
        assert forall i :: 1 <= i < |rows| ==> rows[i] == rows[1..][i - 1];
        None
  }

  /** Storing a table and loading it again gives back the same table. */
  lemma {:induction false} LoadAfterStore(bikes: seq<Bike>)
    ensures FromDictList(ToDictList(bikes)) == Some(bikes)
  {
    var rows := ToDictList(bikes);
    forall i | 0 <= i < |rows|
      ensures FromDict(rows[i]) == Some(bikes[i])
    {
      DictRoundTrip(bikes[i]);
    }
    var loaded := FromDictList(rows);
    assert loaded.Some?;
    assert forall i :: 0 <= i < |bikes| ==> loaded.value[i] == bikes[i];
    assert loaded.value == bikes;
  }

  /** Serialises a table, one row per bike, in table order. */
  method ConvertDbToDictList(bikes: seq<Bike>) returns (rows: seq<Dict>)
    ensures rows == ToDictList(bikes)
  {
    rows := [];
    for i := 0 to |bikes|
      invariant |rows| == i
      invariant forall k :: 0 <= k < i ==> rows[k] == ToDict(bikes[k])
    {
      rows := rows + [ToDict(bikes[i])];
    }
  }

  /** Builds the table from the rows read from the file; a malformed row aborts the load. */
  method InitDb(rows: seq<Dict>) returns (db: Option<seq<Bike>>)
    ensures db == FromDictList(rows)
  {
    var bikes := [];
    for i := 0 to |rows|
      invariant |bikes| == i
      invariant forall k :: 0 <= k < i ==> FromDict(rows[k]) == Some(bikes[k])
    {
      var bike := FromDict(rows[i]);
      if bike.None? {
        assert FromDictList(rows).None?;
        return None;
      }
      bikes := bikes + [bike.value];
    }
    var loaded := FromDictList(rows);
    assert loaded.Some? && forall k :: 0 <= k < |rows| ==> loaded.value[k] == bikes[k];
    assert loaded.value == bikes;
    db := Some(bikes);
  }

  /**
   * The position of the first bike whose id is the given text, if any.
   * Ids are compared as stored: a bike whose id is the number 33 is not found by "33".
   */
  function GetBikeWithId(searchId: string, bikes: seq<Bike>): (r: Option<nat>)
    ensures r.Some? ==> r.value < |bikes| && bikes[r.value].id == JStr(searchId)
    ensures r.Some? ==> forall j :: 0 <= j < r.value ==> bikes[j].id != JStr(searchId)
    ensures r.None? <==> forall j :: 0 <= j < |bikes| ==> bikes[j].id != JStr(searchId)
  {
    if bikes == [] then None
    else if bikes[0].id == JStr(searchId) then Some(0)
    else match GetBikeWithId(searchId, bikes[1..])
      case Some(j) => Some(j + 1)
      case None =>
        assert forall j :: 1 <= j < |bikes| ==> bikes[j] == bikes[1..][j - 1];
        None
  }

  /** The lookup sees only the ids: tables with the same ids in the same order give the same answer. */
  lemma LookupDependsOnlyOnIds(searchId: string, a: seq<Bike>, b: seq<Bike>)
    requires |a| == |b|
    requires forall k :: 0 <= k < |a| ==> a[k].id == b[k].id
    ensures GetBikeWithId(searchId, a) == GetBikeWithId(searchId, b)
  {
  }

  /** The bikes that are not reserved, in table order. */
  function AvailableBikes(bikes: seq<Bike>): (r: seq<Bike>)
    ensures |r| <= |bikes|
    ensures forall b :: b in r <==> b in bikes && !b.isReserved
  {
    if bikes == [] then []
    else (if bikes[0].isReserved then [] else [bikes[0]]) + AvailableBikes(bikes[1..])
  }

  /** The view keeps table order: the view of two tables joined is the two views joined. */
  lemma {:induction false} AvailableBikesAppend(a: seq<Bike>, b: seq<Bike>)
    ensures AvailableBikes(a + b) == AvailableBikes(a) + AvailableBikes(b)
  {
    if a == [] {
      assert a + b == b;
    } else {
      assert (a + b)[1..] == a[1..] + b;
      AvailableBikesAppend(a[1..], b);
    }
  }

  /** Replacing one row changes the size of the view by what that row contributes before and after. */
  lemma {:induction false} AvailableCountAfterUpdate(bikes: seq<Bike>, i: nat, nb: Bike)
    requires i < |bikes|
    ensures |AvailableBikes(bikes[i := nb])| ==
      |AvailableBikes(bikes)| - (if bikes[i].isReserved then 0 else 1) + (if nb.isReserved then 0 else 1)
  {
    if i == 0 {
      assert bikes[i := nb][1..] == bikes[1..];
    } else {
      assert bikes[i := nb][1..] == bikes[1..][i - 1 := nb];
      AvailableCountAfterUpdate(bikes[1..], i - 1, nb);
    }
  }

  /** Starting a reservation: the bike at `i` becomes reserved, nothing else changes. */
  function Reserve(bikes: seq<Bike>, i: nat): (r: seq<Bike>)
    requires i < |bikes|
    ensures |r| == |bikes| && forall k :: 0 <= k < |bikes| && k != i ==> r[k] == bikes[k]
    ensures r[i].isReserved
    ensures r[i].id == bikes[i].id && r[i].lat == bikes[i].lat && r[i].lng == bikes[i].lng
  {
    bikes[i := bikes[i].(isReserved := true)]
  }

  /**
   * Ending a reservation: the bike at `i` becomes free and moves to the end
   * point, whose coordinates were parsed as floats.
   */
  function Release(bikes: seq<Bike>, i: nat, lat: real, lng: real): (r: seq<Bike>)
    requires i < |bikes|
    ensures |r| == |bikes| && forall k :: 0 <= k < |bikes| && k != i ==> r[k] == bikes[k]
    ensures !r[i].isReserved && r[i].id == bikes[i].id
    ensures CoordValue(r[i].lat) == lat && CoordValue(r[i].lng) == lng
  {
    bikes[i := bikes[i].(isReserved := false, lat := CNum(lat), lng := CNum(lng))]
  }

  /** Reserving a free bike takes exactly one bike out of the available view. */
  lemma ReserveTakesOneFromView(bikes: seq<Bike>, i: nat)
    requires i < |bikes| && !bikes[i].isReserved
    ensures |AvailableBikes(Reserve(bikes, i))| == |AvailableBikes(bikes)| - 1
  {
    AvailableCountAfterUpdate(bikes, i, bikes[i].(isReserved := true));
  }

  /** Releasing a reserved bike puts exactly one bike back into the available view. */
  lemma ReleaseAddsOneToView(bikes: seq<Bike>, i: nat, lat: real, lng: real)
    requires i < |bikes| && bikes[i].isReserved
    ensures |AvailableBikes(Release(bikes, i, lat, lng))| == |AvailableBikes(bikes)| + 1
  {
    AvailableCountAfterUpdate(bikes, i, bikes[i].(isReserved := false, lat := CNum(lat), lng := CNum(lng)));
  }

  /**
   * Ending a reservation where it started undoes starting it, except that a
   * coordinate stored as an integer comes back as the equal float.
   */
  lemma ReleaseUndoesReserve(bikes: seq<Bike>, i: nat)
    requires i < |bikes| && !bikes[i].isReserved
    ensures var lat, lng := CoordValue(bikes[i].lat), CoordValue(bikes[i].lng);
      Release(Reserve(bikes, i), i, lat, lng) == bikes[i := bikes[i].(lat := CNum(lat), lng := CNum(lng))]
    ensures bikes[i].lat.CNum? && bikes[i].lng.CNum? ==>
      Release(Reserve(bikes, i), i, CoordValue(bikes[i].lat), CoordValue(bikes[i].lng)) == bikes
  {
  }

  /**
   * Both transitions keep every id, so a bike found before a transition is
   * found at the same place after it; and once reserved it is found reserved.
   */
  lemma TransitionsKeepLookup(searchId: string, bikes: seq<Bike>, i: nat, lat: real, lng: real)
    requires i < |bikes|
    ensures GetBikeWithId(searchId, Reserve(bikes, i)) == GetBikeWithId(searchId, bikes)
    ensures GetBikeWithId(searchId, Release(bikes, i, lat, lng)) == GetBikeWithId(searchId, bikes)
    ensures GetBikeWithId(searchId, bikes) == Some(i) ==>
      GetBikeWithId(searchId, Reserve(bikes, i)) == Some(i) && Reserve(bikes, i)[i].isReserved
    ensures GetBikeWithId(searchId, bikes) == Some(i) ==>
      GetBikeWithId(searchId, Release(bikes, i, lat, lng)) == Some(i) && !Release(bikes, i, lat, lng)[i].isReserved
  {
    LookupDependsOnlyOnIds(searchId, Reserve(bikes, i), bikes);
    LookupDependsOnlyOnIds(searchId, Release(bikes, i, lat, lng), bikes);
  }
}
