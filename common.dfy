/**
 * Failure-carrying results shared by the whole model. Every exception the
 * Transpool code throws (a checked `FormattedMessageException`, an
 * `OperationNotSupportedException`, a `DateTimeException`, ...) becomes one
 * constructor of `Error`; the text of the messages is not modelled.
 */
module Common {

  /** Why a dataset was rejected by the loader (TranspoolXmlValidationException). */
  datatype ValidationFailure =
    | LengthTooBig
    | LengthTooSmall
    | WidthTooBig
    | WidthTooSmall
    | StationOutOfMap(station: string)
    | CoordinateOccupied(station: string, x: int, y: int, occupant: string)
    | DuplicateStationName(station: string)
    | PathSourceMissing(src: string, dst: string)
    | PathDestinationMissing(src: string, dst: string)
    | DuplicateRoad(src: string, dst: string)
    | RouteStationMissing(route: string, station: string)
    | RouteRoadMissing(route: string, src: string, dst: string)

  datatype Error =
    | NotInitialized                        // Engine guard: no dataset loaded
    | MapAlreadyInitialized                 // Map.init on an existing instance
    | StationDoesNotExist(name: string)
    | RoadDoesNotExist(src: string, dst: string)
    | InvalidTime(hour: int, minute: int)   // DateTimeException from LocalTime.of
    | UnknownRepetitionRate(name: string)   // IllegalArgumentException from valueOf
    | UserAlreadyExists(userName: string)
    | Validation(failure: ValidationFailure)
    | FileNotFound                          // the path names no file
    | UnsupportedFileType(extension: string)
    | LoadFailed                            // JAXBException: the document does not fit the schema
    | IndexOutOfRange                       // an array indexed past its end

  datatype Option<T> = None | Some(value: T)

  datatype Result<T> = Success(value: T) | Failure(error: Error)

  /** The outcome of a `void` Java method that may throw. */
  datatype Outcome = Pass | Fail(error: Error)
}
