# Bike rental rules and the legacy reservation table, in Dafny

This project models two parts of a small bike-rental backend.

**The rental rule service** (`app/services/rental_service.py`) holds the four
stateless rules that every rental creation goes through:

- normalising a date or a timestamp to a calendar date;
- the rental window check, which must be 1 to 3 whole days and returns the day count;
- the price computation, rate times days, with its argument checks in a fixed order;
- the availability check, which re-runs the window check, reads the bike's
  status (attribute first, dictionary key second) and compares it with
  "available" ignoring case.

A calendar date is its day ordinal, so the day count of a window is a difference
of ordinals. Every `ValueError` of the source is a tagged `Error` variant, and
`Message` gives the exact text it is raised with. The model is in
`rental_service.dfy` (module `RentalService`), with `Option`/`Result` in
`wrappers.dfy`.

**The legacy prototype** (`app.py`) keeps a table of bikes (id, latitude,
longitude, reserved flag) in a JSON file. It has:

- a first-match lookup by id;
- an "available" view;
- a radius search;
- two handlers that change one bike in place: starting a reservation (free to
  reserved) and ending one (reserved to free, moved to the end point, after a
  payment that the stub always approves).

A coordinate keeps the JSON form it was loaded with, so an integer is written
back as an integer. `legacy_bikes.dfy` (module `LegacyBikes`) has the records, their dictionary
form (`to_dict`, and the row-to-`Bike` step of `init_db`), the lookup, the view,
and the two transitions as functions on the table's contents.
`legacy_handlers.dfy` (module `LegacyHandlers`) has the handlers. They are
methods on the loaded table, an `array<Bike>`, and they update the changed bike
in place. A handler that writes the table back also returns the rows that
`write_db` would store (`None` when it stores nothing).

The service raises nine different messages. The model keeps one error tag per
message, so the order in which the checks fire can be stated.

## Model

| member | source | states |
|---|---|---|
| `RentalService.Message` | app/services/rental_service.py:17 | the error for a value that is not a date names the offending field at the head of its message |
| `RentalService.MissingStatusMentionsStatus` | app/services/rental_service.py:61 | the error for a bike without a status mentions "status" |
| `RentalService.NormalizeDate` | app/services/rental_service.py:11-17 | a date or a timestamp gives its calendar date (the time of day is dropped); any other value fails with an error naming the field |
| `RentalService.ValidateRange` | app/services/rental_service.py:20-31 | succeeds exactly when both values are dates or timestamps and the end is 1 to 3 days after the start, and then returns that difference; a bad start is reported before a bad end |
| `RentalService.ValidateRangeRejectsNonPositive` | app/services/rental_service.py:26-27 | a zero-length or reversed window fails with "end_date must be after start_date" |
| `RentalService.ValidateRangeRejectsTooLong` | app/services/rental_service.py:28-29 | a window of more than 3 days fails with the duration error |
| `RentalService.TimeOfDayIgnored` | app/services/rental_service.py:13-14 | timestamps give exactly the same outcome as the dates they fall on |
| `RentalService.ComputeTotalPriceCents` | app/services/rental_service.py:34-48 | succeeds exactly for an integer rate of at least 0 and an integer day count of 1 to 3; the result is rate times days, between the rate and three times the rate |
| `RentalService.PriceErrorOrder` | app/services/rental_service.py:36-46 | the first violated check wins: rate type, rate sign, days type, days at least 1, days at most 3 |
| `RentalService.PricingAfterValidRange` | app/routers/rentals.py:31-54 | a day count returned by the window check is always accepted by pricing, for any non-negative integer rate, giving rate times days |
| `RentalService.Lower` | app/services/rental_service.py:63 | lowercasing keeps the length and lowercases each character |
| `RentalService.LowerMatchesIgnoringCase` | app/services/rental_service.py:63 | comparing the lowercased status with a lowercase literal is the same as comparing the two ignoring case |
| `RentalService.ResolveStatus` | app/services/rental_service.py:55-61 | the status attribute wins over a dictionary key; with neither, the lookup fails with the missing-status error |
| `RentalService.IsBikeAvailable` | app/services/rental_service.py:51-63 | a failing window check is passed on unchanged before the bike is looked at; then a missing status fails; otherwise the result is true exactly when the status equals "available" ignoring case, and any other status gives false, never an error |
| `RentalService.RangeScenarios` | tests/test_rental_service.py:23-61 | 2024-06-01 to 2024-06-03 gives 2; timestamps 1 and 3 days apart give 1 and 3; 0 days, -1 day and 4 days are refused with the expected errors |
| `RentalService.PriceScenarios` | tests/test_rental_service.py:64-81 | (1500, 3) gives 4500; a non-integer rate, a rate of -10, 0 days and 4 days each give their own error |
| `RentalService.UppercaseStatusScenario` | app/services/rental_service.py:63 | a bike whose status is "AVAILABLE" is available: the status is matched ignoring case |
| `RentalService.AvailabilityScenarios` | tests/test_rental_service.py:84-111 | "available" gives true; a dictionary with "UNAVAILABLE" gives false; no status fails; a 4-day window fails with the duration error even for an available bike |
| `LegacyBikes.ToDict` | app.py:228-233 | a bike's dictionary has exactly the keys id, lat, lng and is_reserved |
| `LegacyBikes.AsCoordinate` | app.py:196-197 | a coordinate is read from an integer or a float, and is written back as the same JSON value |
| `LegacyBikes.FromDict` | app.py:195-199 | a row loads exactly when it has the four fields, numeric coordinates and a boolean flag (extra fields are ignored); the bike keeps the row's id, coordinates and flag as written |
| `LegacyBikes.DictRoundTrip` | app.py:228-233 | building a bike from its own dictionary gives back the same bike |
| `LegacyBikes.ToDictList` | app.py:235-239 | the serialised table has one entry per bike, in order, each that bike's dictionary |
| `LegacyBikes.FromDictList` | app.py:193-201 | loading succeeds exactly when every row is well formed, and then gives one bike per row, in order |
| `LegacyBikes.LoadAfterStore` | app.py:189-218 | loading the rows that write_db stores gives back the same table |
| `LegacyBikes.ConvertDbToDictList` | app.py:235-239 | the loop builds exactly the serialised table |
| `LegacyBikes.InitDb` | app.py:193-201 | the loop builds exactly the loaded table, or fails when some row is malformed |
| `LegacyBikes.GetBikeWithId` | app.py:204-210 | the result is the first position whose id equals the search text, or none exactly when no id equals it; ids are compared as stored (the number 33 is not the text "33") |
| `LegacyBikes.LookupDependsOnlyOnIds` | app.py:206 | tables with the same ids in the same order give the same lookup result |
| `LegacyBikes.AvailableBikes` | app.py:16 | the view holds exactly the unreserved bikes of the table, and is no longer than it |
| `LegacyBikes.AvailableBikesAppend` | app.py:16 | the view keeps table order: the view of two joined tables is the join of their views |
| `LegacyBikes.AvailableCountAfterUpdate` | app.py:16 | replacing one bike changes the size of the view by that bike's contribution before and after |
| `LegacyBikes.Reserve` | app.py:82 | starting a reservation sets the flag of that one bike, keeps its id and position, and changes no other bike |
| `LegacyBikes.Release` | app.py:136-137 | ending a reservation clears the flag of that one bike and moves it to the end point, keeps its id, and changes no other bike |
| `LegacyBikes.ReserveTakesOneFromView` | app.py:80-82 | reserving a free bike removes exactly one bike from the available view |
| `LegacyBikes.ReleaseAddsOneToView` | app.py:135-137 | ending a reservation adds exactly one bike back to the available view |
| `LegacyBikes.ReleaseUndoesReserve` | app.py:136-137 | ending a reservation at the bike's own position undoes starting it, except that a coordinate stored as an integer comes back as the equal float |
| `LegacyBikes.TransitionsKeepLookup` | app.py:82 | neither transition changes any id, so every lookup gives the same result afterwards; a bike just reserved is found at the same place, reserved, and a bike just released is found there free |
| `LegacyHandlers.CoordinateError` | app.py:116-121 | a point is accepted exactly when latitude is in [-90, 90] and longitude in [-180, 180]; latitude is checked first |
| `LegacyHandlers.RoundHalfEven` | app.py:171 | the rounded distance is within one half of the distance, and an exact half goes to the even neighbour |
| `LegacyHandlers.CalculateCost` | app.py:184-186 | the cost of a ride is its rounded length in metres, unchanged |
| `LegacyHandlers.PaymentGateway` | app.py:177-182 | the stub approves every payment with transaction id 379892831 |
| `LegacyHandlers.Pay` | app.py:164-175 | paying for a ride always succeeds with the stub's transaction id |
| `LegacyHandlers.WriteDb` | app.py:213-218 | what is stored is the serialised table |
| `LegacyHandlers.ViewAllAvailable` | app.py:14-18 | answers 200 with the serialised available view, every entry of which has is_reserved false |
| `LegacyHandlers.Summary` | app.py:55-57 | a search hit is the bike's dictionary without its reserved flag |
| `LegacyHandlers.Hit` | app.py:53-57 | a bike gives one hit, its summary, exactly when it is within the radius and not reserved, and no hit otherwise |
| `LegacyHandlers.SearchHits` | app.py:50-58 | the hits of a table are no more than its bikes; with the next two rows, they are the table's bikes' hits in table order |
| `LegacyHandlers.SearchHitsSnoc` | app.py:49-58 | scanning one more bike appends exactly that bike's hit |
| `LegacyHandlers.SearchHitsAreNearAvailable` | app.py:50-58 | the search hits are exactly the available bikes near the point, summarised, in table order |
| `LegacyHandlers.Search` | app.py:23-60 | an out-of-range point is refused with 422 (latitude first); otherwise the answer is 200 with the search hits |
| `LegacyHandlers.StartReservation` | app.py:65-94 | an unknown id or an already reserved bike gives 422 with the table unchanged and nothing stored; otherwise only that bike's flag becomes true, the answer is 200 and the new table is stored |
| `LegacyHandlers.EndReservation` | app.py:99-156 | an out-of-range point gives 422 before any lookup; an unknown id or a free bike gives 422 with the table unchanged and nothing stored; otherwise only that bike changes (freed and moved to the end point), the answer is 200 with the stub's transaction id, and the new table is stored |

## Left out

- HTTP and framework wiring is not modelled. This covers the FastAPI routers, the Flask routes' request parsing and the `home` redirect. The handlers take the already parsed id and coordinates. The 422 answers for a missing query parameter or a non-numeric coordinate (app.py:26-37, 67-72, 101-113) are therefore not modelled.
- The JSON file is not modelled: reading and writing `bike_db.json` and the JSON text. `InitDb` starts from the parsed rows. The handlers return the rows that `write_db` stores instead of writing them.
- Geodesic distance (geopy) is a parameter of `Search` and `Pay`. It is not computed.
- The failed-payment branch of `end_reservation` (app.py:144-148) can never run, because the gateway stub approves every payment. It is not modelled.
- Floating point is not modelled. Coordinates, the search radius and distances are reals, so NaN and infinities do not exist in the model. The range checks reject a NaN or infinite coordinate in the source, but the radius is never checked: a radius of `nan` finds no bike and `inf` finds every available bike, and neither can be expressed here.
- Python's `str(status)` is modelled by its result. A status is given as its text.
- `str.lower` is modelled for ASCII only. Other Unicode case mappings are not modelled.
- Python's `bool` is a subclass of `int`, so `True` passes the source's integer checks. The model treats only `Int` values as integers.
- Dates are unbounded integer ordinals. Python's year range 1 to 9999 is not modelled.
- FromDict: refuses a row whose lat or lng is not a number or whose is_reserved is not a boolean, so the model refuses whole tables that the source loads and serves. The source reads the flag only for its truth value (app.py:16, 53, 80, 127), so a flag of 0 or null consistently means free there; and it stores coordinates of any type unchecked.
- GetBikeWithId: returns the position of the bike rather than the bike object. The source's objects are distinct per row (`init_db` builds a new one for each), so the handlers update that position of the array in place. Object aliasing between rows is not modelled.
- Persistence through SQLAlchemy, the migration, password hashing and JWTs are not modelled. They are library calls. The same holds for the payments router with its uuid transaction ids, and for the frontend.
