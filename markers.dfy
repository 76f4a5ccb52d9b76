/** A marker record as the page receives it from the server. */
module Markers {
  import opened Wrappers
  import opened JsScalar

  /** What parseFloat makes of a raw latitude or longitude. */
  datatype Coord = Finite(value: real) | PosInfinity | NegInfinity | NaN

  /** One census record: record number, coordinates, the two enumerated
      classifications, free-text address, status label and status code.
      A string field that is null or undefined is None. */
  datatype Marker = Marker(
    id: Scalar,
    lat: Coord,
    lng: Coord,
    location: Option<string>,
    address: Option<string>,
    buildingType: Option<string>,
    status: Option<string>,
    statusId: Scalar)

  /** JavaScript truthiness of an optional string field. */
  predicate Present(field: Option<string>)
  {
    field.Some? && field.value != []
  }
}
