/** The point-of-interest table the page loads once from its CSV file, one
    `Place` per row, and the distance column the proximity section adds. */
module Places {

  /** One row: the columns `nombre`, `descripcion`, `imagen`, `categoria`,
      `lat` and `lon`. Coordinates are degrees. */
  datatype Place = Place(
    name: string,
    description: string,
    image: string,
    category: string,
    lat: real,
    lon: real)

  /** A row with its `dist_km` column filled in. */
  datatype RankedPlace = RankedPlace(place: Place, distKm: real)

  /** The great-circle distance `haversine_km(lat1, lon1, lat2, lon2)` in
      kilometres, taken as given. */
  type DistanceFn = (real, real, real, real) -> real

  /** Adding the `dist_km` column: one ranked row per row, in table order,
      each keeping its row and carrying that row's distance to the user, the
      user's coordinates passed first and the row's second. */
  function Annotate(rows: seq<Place>, latUser: real, lonUser: real, haversine: DistanceFn): (r: seq<RankedPlace>)
    ensures |r| == |rows|
    ensures forall k :: 0 <= k < |r| ==>
      r[k].place == rows[k] && r[k].distKm == haversine(latUser, lonUser, rows[k].lat, rows[k].lon)
  {
    seq(|rows|, k requires 0 <= k < |rows| =>
      RankedPlace(rows[k], haversine(latUser, lonUser, rows[k].lat, rows[k].lon)))
  }
}
