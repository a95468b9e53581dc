/**
 * The legacy prototype's request handlers, on a bike table already loaded
 * into an array. A handler that changes the table also returns the rows it
 * stores back to the table file (`None` when it stores nothing).
 */
module LegacyHandlers {
  import opened Wrappers
  import opened LegacyBikes

  const Ok: int := 200
  const UnprocessableEntity: int := 422

  /** The transaction id the stubbed payment gateway always returns. */
  const StubTxnId: int := 379892831

  datatype Body = Msg(msg: string) | Paid(msg: string, txnId: int) | Listing(rows: seq<Dict>)

  datatype Response = Response(code: int, body: Body)

  /** Geodesic distance in metres between two (latitude, longitude) points. */
  type Distance = (real, real, real, real) -> real

  const LatRangeMsg := "Error 422 - Latitude must be in the [-90, 90] range."
  const LngRangeMsg := "Error 422 - Longitude must be in the [-180, 180] range."

  function Unprocessable(msg: string): Response
  {
    Response(UnprocessableEntity, Msg(msg))
  }

  function NotFoundMsg(id: string): string
  {
    "Error 422 - No bike with id " + id + " was found."
  }

  /**
   * The range check on a requested point: latitude first, then longitude,
   * each within its closed range.
   */
  function CoordinateError(lat: real, lng: real): (r: Option<string>)
    ensures r.None? <==> -90.0 <= lat <= 90.0 && -180.0 <= lng <= 180.0
    ensures !(-90.0 <= lat <= 90.0) ==> r == Some(LatRangeMsg)
    ensures -90.0 <= lat <= 90.0 && !(-180.0 <= lng <= 180.0) ==> r == Some(LngRangeMsg)
  {
    if !(-90.0 <= lat <= 90.0) then Some(LatRangeMsg)
    else if !(-180.0 <= lng <= 180.0) then Some(LngRangeMsg)
    else None
  }

  /** Rounding to the nearest integer, halves to the even neighbour. */
  function RoundHalfEven(x: real): (n: int)
    ensures x - 0.5 <= n as real <= x + 0.5
    ensures (n as real == x - 0.5 || n as real == x + 0.5) ==> n % 2 == 0
  {
    var f := x.Floor;
    var frac := x - f as real;
    if frac < 0.5 then f
    else if frac > 0.5 then f + 1
    else if f % 2 == 0 then f
    else f + 1
  }

  /** The cost of a ride: for now, its length in metres. */
  function CalculateCost(distance: int): (cost: int)
    ensures cost == distance
  {
    distance
  }

  datatype Payment = Payment(status: bool, txnId: int)

  /** The stubbed gateway: every payment succeeds with the same transaction id. */
  function PaymentGateway(cost: int): (p: Payment)
    ensures p.status && p.txnId == StubTxnId
  {
    Payment(true, StubTxnId)
  }

  /** Charges for the ride from the bike's position to the end point. */
  function Pay(bike: Bike, endLat: real, endLng: real, distance: Distance): (p: Payment)
    ensures p.status && p.txnId == StubTxnId
  {
    var ridden := RoundHalfEven(distance(CoordValue(bike.lat), CoordValue(bike.lng), endLat, endLng));
    PaymentGateway(CalculateCost(ridden))
  }

  /** What write_db stores: the table's rows. */
  method WriteDb(db: array<Bike>) returns (rows: seq<Dict>)
    ensures rows == ToDictList(db[..])
  {
    rows := ConvertDbToDictList(db[..]);
  }

  /** Lists the unreserved bikes, in table order. */
  method ViewAllAvailable(db: array<Bike>) returns (resp: Response)
    ensures resp.code == Ok && resp.body.Listing?
    ensures resp.body.rows == ToDictList(AvailableBikes(db[..]))
    ensures forall k :: 0 <= k < |resp.body.rows| ==> resp.body.rows[k]["is_reserved"] == JBool(false)
  {
    var available := AvailableBikes(db[..]);
    var rows := ConvertDbToDictList(available);
    forall k | 0 <= k < |rows|
      ensures rows[k]["is_reserved"] == JBool(false)
    {
      assert available[k] in available;
    }
    resp := Response(Ok, Listing(rows));
  }

  /** The summary of a bike in a search result. */
  function Summary(b: Bike): (d: Dict)
    ensures d == ToDict(b) - {"is_reserved"}
  {
    map["id" := b.id, "lat" := CoordJson(b.lat), "lng" := CoordJson(b.lng)]
  }

  /** Whether a bike lies within `radius` metres of the point. */
  predicate Near(b: Bike, lat: real, lng: real, radius: real, distance: Distance)
  {
    distance(CoordValue(b.lat), CoordValue(b.lng), lat, lng) <= radius
  }

  /** The search hits: unreserved bikes near the point, summarised, in table order. */
  function SearchHits(bikes: seq<Bike>, lat: real, lng: real, radius: real, distance: Distance): (r: seq<Dict>)
    ensures |r| <= |bikes|
  {
    if bikes == [] then []
    else Hit(bikes[0], lat, lng, radius, distance) + SearchHits(bikes[1..], lat, lng, radius, distance)
  }

  /** What one bike contributes to the search hits. */
  function Hit(b: Bike, lat: real, lng: real, radius: real, distance: Distance): (r: seq<Dict>)
    ensures |r| <= 1
    ensures r != [] <==> Near(b, lat, lng, radius, distance) && !b.isReserved
    ensures r != [] ==> r == [Summary(b)]
  {
    if Near(b, lat, lng, radius, distance) && !b.isReserved then [Summary(b)] else []
  }

  /** Scanning one more bike adds what that bike contributes, at the end. */
  lemma {:induction false} SearchHitsSnoc(
    bikes: seq<Bike>, b: Bike, lat: real, lng: real, radius: real, distance: Distance)
    ensures SearchHits(bikes + [b], lat, lng, radius, distance) ==
      SearchHits(bikes, lat, lng, radius, distance) + Hit(b, lat, lng, radius, distance)
  {
    if bikes == [] {
      assert bikes + [b] == [b];
      assert [b][1..] == [];
    } else {
      assert (bikes + [b])[1..] == bikes[1..] + [b];
      SearchHitsSnoc(bikes[1..], b, lat, lng, radius, distance);
    }
  }

  /** The bikes of a list that lie near the point, in list order. */
  function NearBikes(bikes: seq<Bike>, lat: real, lng: real, radius: real, distance: Distance): (r: seq<Bike>)
    ensures forall b :: b in r <==> b in bikes && Near(b, lat, lng, radius, distance)
  {
    if bikes == [] then []
    else
      (if Near(bikes[0], lat, lng, radius, distance) then [bikes[0]] else [])
      + NearBikes(bikes[1..], lat, lng, radius, distance)
  }

  /** The summaries of a list of bikes, in list order. */
  function Summaries(bikes: seq<Bike>): (r: seq<Dict>)
    ensures |r| == |bikes| && forall i :: 0 <= i < |bikes| ==> r[i] == Summary(bikes[i])
  {
    if bikes == [] then [] else [Summary(bikes[0])] + Summaries(bikes[1..])
  }

  /** A search answers with exactly the available bikes that are near the point, in table order. */
  lemma {:induction false} SearchHitsAreNearAvailable(
    bikes: seq<Bike>, lat: real, lng: real, radius: real, distance: Distance)
    ensures SearchHits(bikes, lat, lng, radius, distance) ==
      Summaries(NearBikes(AvailableBikes(bikes), lat, lng, radius, distance))
  {
    if bikes != [] {
      SearchHitsAreNearAvailable(bikes[1..], lat, lng, radius, distance);
      var head := if bikes[0].isReserved then [] else [bikes[0]];
      var rest := AvailableBikes(bikes[1..]);
      assert AvailableBikes(bikes) == head + rest;
      NearBikesAppend(head, rest, lat, lng, radius, distance);
      SummariesAppend(NearBikes(head, lat, lng, radius, distance), NearBikes(rest, lat, lng, radius, distance));
    }
  }

  /** Selecting the nearby bikes keeps list order: it distributes over joined lists. */
  lemma {:induction false} NearBikesAppend(
    a: seq<Bike>, b: seq<Bike>, lat: real, lng: real, radius: real, distance: Distance)
    ensures NearBikes(a + b, lat, lng, radius, distance) ==
      NearBikes(a, lat, lng, radius, distance) + NearBikes(b, lat, lng, radius, distance)
  {
    if a == [] {
      assert a + b == b;
    } else {
      assert (a + b)[1..] == a[1..] + b;
      NearBikesAppend(a[1..], b, lat, lng, radius, distance);
    }
  }

  /** Summarising distributes over joined lists. */
  lemma SummariesAppend(a: seq<Bike>, b: seq<Bike>)
    ensures Summaries(a + b) == Summaries(a) + Summaries(b)
  {
    var whole, joined := Summaries(a + b), Summaries(a) + Summaries(b);
    forall i | 0 <= i < |a + b|
      ensures whole[i] == joined[i]
    {
      if i < |a| {
        assert (a + b)[i] == a[i];
      } else {
        assert (a + b)[i] == b[i - |a|];
      }
    }
    assert whole == joined;
  }

  /** Finds the unreserved bikes within `radius` metres of a valid point. */
  method Search(db: array<Bike>, lat: real, lng: real, radius: real, distance: Distance) returns (resp: Response)
    ensures CoordinateError(lat, lng).Some? ==> resp == Unprocessable(CoordinateError(lat, lng).value)
    ensures CoordinateError(lat, lng).None? ==>
      resp == Response(Ok, Listing(SearchHits(db[..], lat, lng, radius, distance)))
  {
    var error := CoordinateError(lat, lng);
    if error.Some? {
      return Unprocessable(error.value);
    }
    var bikes := db[..];
    var results := [];
    for i := 0 to |bikes|
      invariant results == SearchHits(bikes[..i], lat, lng, radius, distance)
    {
      var bike := bikes[i];
      SearchHitsSnoc(bikes[..i], bike, lat, lng, radius, distance);
      assert bikes[..i + 1] == bikes[..i] + [bike];
      if Near(bike, lat, lng, radius, distance) && !bike.isReserved {
        results := results + [Summary(bike)];
      }
    }
    assert bikes[..|bikes|] == bikes;
    resp := Response(Ok, Listing(results));
  }

  /**
   * Reserves the first bike with the given id. An unknown id or a bike that is
   * already reserved is refused with 422 and the table is left as it was.
   */
  method StartReservation(db: array<Bike>, reserveId: string) returns (resp: Response, stored: Option<seq<Dict>>)
    modifies db
    ensures var found := GetBikeWithId(reserveId, old(db[..]));
      && (found.None? ==>
            resp == Unprocessable(NotFoundMsg(reserveId)) && db[..] == old(db[..]) && stored == None)
      && (found.Some? && old(db[found.value]).isReserved ==>
            resp == Unprocessable("Error 422 - Bike with id " + reserveId + " is already reserved.")
            && db[..] == old(db[..]) && stored == None)
      && (found.Some? && !old(db[found.value]).isReserved ==>
            resp == Response(Ok, Msg("Bike " + reserveId + " was reserved successfully."))
            && db[..] == Reserve(old(db[..]), found.value) && stored == Some(ToDictList(db[..])))
  {
    var found := GetBikeWithId(reserveId, db[..]);
    if found.None? {
      return Unprocessable(NotFoundMsg(reserveId)), None;
    }
    var i := found.value;
    if db[i].isReserved {
      return Unprocessable("Error 422 - Bike with id " + reserveId + " is already reserved."), None;
    }
    db[i] := db[i].(isReserved := true);
    var rows := WriteDb(db);
    resp, stored := Response(Ok, Msg("Bike " + reserveId + " was reserved successfully.")), Some(rows);
  }

  /**
   * Ends the reservation of the first bike with the given id: a point out of
   * range is refused before the table is looked at; a reserved bike is paid
   * for, freed and moved to the end point; an unknown id or a bike that is
   * not reserved is refused with 422 and the table is left as it was.
   */
  method EndReservation(db: array<Bike>, bikeId: string, endLat: real, endLng: real, distance: Distance)
    returns (resp: Response, stored: Option<seq<Dict>>)
    modifies db
    ensures CoordinateError(endLat, endLng).Some? ==>
      resp == Unprocessable(CoordinateError(endLat, endLng).value) && db[..] == old(db[..]) && stored == None
    ensures CoordinateError(endLat, endLng).None? ==>
      var found := GetBikeWithId(bikeId, old(db[..]));
      && (found.None? ==>
            resp == Unprocessable(NotFoundMsg(bikeId)) && db[..] == old(db[..]) && stored == None)
      && (found.Some? && !old(db[found.value]).isReserved ==>
            resp == Unprocessable("Error 422 - No reservation for bike " + bikeId + " presently exists.")
            && db[..] == old(db[..]) && stored == None)
      && (found.Some? && old(db[found.value]).isReserved ==>
            resp == Response(Ok, Paid("Payment for bike " + bikeId
                                      + " was made successfully and the reservation was ended.", StubTxnId))
            && db[..] == Release(old(db[..]), found.value, endLat, endLng)
            && stored == Some(ToDictList(db[..])))
  {
    var error := CoordinateError(endLat, endLng);
    if error.Some? {
      return Unprocessable(error.value), None;
    }
    var found := GetBikeWithId(bikeId, db[..]);
    if found.None? {
      return Unprocessable(NotFoundMsg(bikeId)), None;
    }
    var i := found.value;
    if !db[i].isReserved {
      return Unprocessable("Error 422 - No reservation for bike " + bikeId + " presently exists."), None;
    }
    // The gateway stub approves every payment, so the ride is always settled.
    var payment := Pay(db[i], endLat, endLng, distance);
    db[i] := db[i].(isReserved := false, lat := CNum(endLat), lng := CNum(endLng));
    var rows := WriteDb(db);
    var msg := "Payment for bike " + bikeId + " was made successfully and the reservation was ended.";
    resp, stored := Response(Ok, Paid(msg, payment.txnId)), Some(rows);
  }
}
