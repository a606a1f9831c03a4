/** The values the page handles: the stored note record and what the browser's
    geolocation service answers for one save. */
module Notes {

  datatype Option<T> = None | Some(value: T)

  /** `position.coords` as captured; the page only copies them into the note. */
  datatype Coordinates = Coordinates(latitude: real, longitude: real)

  /** One stored record. The page writes `JSON.stringify(note)` and reads it back
      with `JSON.parse`; the model keeps the record itself. */
  datatype Note = Note(title: string, content: string, location: Coordinates, timestamp: string)

  /** The codes `getCurrentPosition` reports to its error callback; `UnknownError`
      stands for every other code (the `default` branch). */
  datatype GeolocationErrorCode = PermissionDenied | PositionUnavailable | Timeout | UnknownError

  /** What one save learns from `navigator.geolocation`: nothing (the browser has
      no geolocation object), an error callback, or a position callback. */
  datatype Geolocation =
    | Unsupported
    | PositionError(code: GeolocationErrorCode)
    | Position(coords: Coordinates)
}
