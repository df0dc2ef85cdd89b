# Transpool in Dafny

Transpool is a ride-sharing system. Drivers post **trip offers**: a route of stations joined by roads, a departure time, a number of seats and a price per kilometre. Riders post **trip requests**: a source station, a destination station and a wanted departure time. The engine then proposes the offers that fit a request and records a chosen match.

Everything rests on a road network, the `Map` singleton. A map is a grid of stations with directed or two-way roads between them, loaded from an XML dataset. The loader validates the dataset in a fixed order before it touches any global state.

This project models that core and proves its properties:

- Datatypes stand for the value-like entities: stations, roads, maps, parsed datasets and times of day.
- Classes stand for the objects whose fields the Java code updates in place:
  - `TripTiming`, `TripOffer`, `TripRequest` and `TripsManager`;
  - `User` and its static id counter;
  - the `Map` singleton's static field;
  - `TranspoolManager`, the generic `Graph` and the `Engine` facade.
- Loops of the source are methods with loop invariants, proved against specification functions. The properties of those functions are proved as lemmas.

The files follow the Java packages:

| file | models |
|---|---|
| `common.dfy` | the exceptions as one `Error` datatype, `Option`, `Result`, `Outcome` |
| `java_strings.dfy`, `java_hash.dfy` | `String.trim`/`split`/`toLowerCase` and the shape of Java hash codes |
| `enums.dfy` | `RepetitionRate`, `UserAction` |
| `integer_extensions.dfy`, `file_extensions.dfy` | `IntegerExtensions`, `FileExtensions` |
| `stations.dfy`, `roads.dfy`, `users.dfy` | `Station`, both `Road` versions, `User` |
| `timing.dfy` | `LocalTime` at minute precision and `TripTiming` |
| `maps.dfy` | both `Map` versions |
| `graph.dfy` | `Graph` with its `Vertex` and `Edge` classes |
| `trips.dfy` | `TripOffer`, `TripRequest`, `TripsManager` |
| `manager.dfy`, `input_validation.dfy` | `TranspoolManager`, `InputValidation` |
| `loader.dfy` | `TranspoolXmlLoader` |
| `engine.dfy` | both `Engine` versions |

## Model

| member | source | states |
|---|---|---|
| Enums.RateOrdinal | Transpool/model/src/model/Enums/RepetitionRate.java:3-8 | each repetition rate sits at its declared position in `values()` |
| Enums.RateValuesCount | Transpool/model/src/model/Enums/RepetitionRate.java:14-16 | `getValuesCount` is the number of declared rates, and every ordinal is below it |
| Enums.RateInRangeIffOrdinal | Transpool/model/src/model/Enums/RepetitionRate.java:10-12 | `isValueInRange(v)` holds exactly when `v` is the ordinal of some rate |
| Enums.RatesDistinct | Transpool/model/src/model/Enums/RepetitionRate.java:3-8 | the five declared rates are pairwise distinct |
| Enums.RateValueOf | Transpool/model/src/model/TripTiming.java:18 | `valueOf` returns a rate whose name is the argument, or fails with the unknown name |
| Enums.RateValueOfName | Transpool/model/src/model/TripTiming.java:18 | every declared name is accepted and yields its own constant |
| Enums.RateValueOfOnlyDeclaredNames | Transpool/model/src/model/TripTiming.java:18 | `valueOf` succeeds exactly on the five declared names |
| Enums.RateValueOfIsCaseSensitive | Transpool/model/src/model/TripTiming.java:18 | "daily" and "ONETIME" are rejected |
| Enums.ActionOrdinal | Transpool/model/src/model/Enums/UserAction.java:3-9 | each user action sits at its declared position in `values()` |
| Enums.ActionValuesCount | Transpool/model/src/model/Enums/UserAction.java:15-17 | `getValuesCount` is the number of declared actions, and every ordinal is below it |
| Enums.ActionInRangeIffOrdinal | Transpool/model/src/model/Enums/UserAction.java:11-13 | `isValueInRange(v)` holds exactly when `v` is the ordinal of some action |
| Enums.ActionsDistinct | Transpool/model/src/model/Enums/UserAction.java:3-9 | the six declared actions are pairwise distinct |
| Enums.MenuAction | Transpool/ui/src/ui/Input.java:22-29 | menu number `n` selects an action exactly when `1 <= n <= 6`, and then the one with ordinal `n - 1` |
| Enums.MenuNumberOfAction | Transpool/ui/src/ui/Input.java:22-29 | every action has exactly one menu number, its ordinal plus one |
| FileExtensions.GetFileExtension | Transpool/model/src/model/Extensions/FileExtensions.java:6-9 | the extension holds no dot; a dot-free name is its own extension, lower-cased; a dotted name has a non-empty one |
| FileExtensions.ExtensionIsLastPiece | Transpool/model/src/model/Extensions/FileExtensions.java:6-9 | a name `pre + ext + dots` has extension `ext` lower-cased: the last non-empty piece, with trailing dots ignored |
| FileExtensions.DropTrailingEmptyKeepsFront | Transpool/model/src/model/Extensions/FileExtensions.java:7 | `split` drops trailing empty pieces only, so pieces before a kept one stay |
| FileExtensions.SplitOfNonDot | Transpool/model/src/model/Extensions/FileExtensions.java:7 | a name with a non-dot character splits into its segments with the trailing empties dropped, and keeps at least one piece |
| FileExtensions.ExtensionOfSplit | Transpool/model/src/model/Extensions/FileExtensions.java:6-9 | such a name's extension is its last split piece, lower-cased |
| FileExtensions.InnerDotsSkipped | Transpool/model/src/model/Extensions/FileExtensions.java:6-9 | for every prefix and every name with a non-dot character, `pre + "." + name` has the extension of `name` |
| FileExtensions.TrailingDotIgnored | Transpool/model/src/model/Extensions/FileExtensions.java:6-9 | for every name with a non-dot character, a trailing dot leaves the extension unchanged, as `split` drops trailing empty pieces |
| FileExtensions.LeadingDotSkipped | Transpool/model/src/model/Extensions/FileExtensions.java:6-9 | for every name with a non-dot character, a leading dot leaves the extension unchanged |
| FileExtensions.EmptyAndDotOnlyNames | Transpool/model/src/model/Extensions/FileExtensions.java:7-8 | examples: the empty name has the empty extension; with a name of dots only, the last-piece index is out of range |
| InputValidation.AssertStationsExist | Transpool/engine/src/engine/InputValidation/InputValidation.java:8-13 | passes exactly when every name is a station of the map; otherwise reports the first missing name, in argument order |
| InputValidation.NoNamesPass | Transpool/engine/src/engine/InputValidation/InputValidation.java:9 | an empty argument list always passes |
| InputValidation.SourceReportedFirst | Transpool/engine/src/engine/InputValidation/InputValidation.java:9-11 | for `(src, dst)` a missing source is the one reported |
| IntegerExtensions.ParseInt | Transpool/model/src/model/Extensions/IntegerExtensions.java:15 | `Integer.parseInt` on ASCII text succeeds exactly on an optionally signed decimal literal within the 32-bit range, with its value |
| IntegerExtensions.ParseDecimal | Transpool/model/src/model/Extensions/IntegerExtensions.java:15 | parsing the decimal rendering of any 32-bit integer gives it back |
| IntegerExtensions.IsIntegerStr | Transpool/model/src/model/Extensions/IntegerExtensions.java:10-20 | `null` is not an integer; otherwise the trimmed string must parse |
| IntegerExtensions.TryParseInt | Transpool/model/src/model/Extensions/IntegerExtensions.java:27-33 | the value of the trimmed string exactly when `isIntegerStr` holds, and it is within the 32-bit range |
| IntegerExtensions.TryParseDecimal | Transpool/model/src/model/Extensions/IntegerExtensions.java:27-33 | `tryParseInt` reads back every rendered 32-bit integer |
| IntegerExtensions.TryParsePadded | Transpool/model/src/model/Extensions/IntegerExtensions.java:28 | blanks around a literal are ignored |
| IntegerExtensions.RejectedMalformed | Transpool/model/src/model/Extensions/IntegerExtensions.java:10-20 | "", "-", "1.5" and `null` are rejected |
| IntegerExtensions.RejectedOverflow | Transpool/model/src/model/Extensions/IntegerExtensions.java:27-33 | 2147483648 is rejected |
| IntegerExtensions.PaddedFortyTwo | Transpool/model/src/model/Extensions/IntegerExtensions.java:27-33 | an example: " 42 " reads as 42 |
| JavaStrings.TrimStartSpec | Transpool/engine/src/engine/DAL/TranspoolXmlLoader.java:178 | the front trim keeps a suffix and drops exactly its blank front |
| JavaStrings.TrimEndSpec | Transpool/engine/src/engine/DAL/TranspoolXmlLoader.java:178 | the back trim keeps a prefix and drops exactly its blank back |
| JavaStrings.Trim | Transpool/engine/src/engine/DAL/TranspoolXmlLoader.java:178 | `trim()`: the back trim of the front trim; what it keeps is stated by TrimIsSlice, TrimHasNoBlankEnds, TrimOfUnpadded and TrimIdempotent |
| JavaStrings.TrimIsSlice | Transpool/engine/src/engine/DAL/TranspoolXmlLoader.java:178 | `trim()` is a slice of its input |
| JavaStrings.TrimHasNoBlankEnds | Transpool/engine/src/engine/DAL/TranspoolXmlLoader.java:178 | a trimmed string has no character at or below U+0020 at either end |
| JavaStrings.TrimOfUnpadded | Transpool/engine/src/engine/DAL/TranspoolXmlLoader.java:178 | a string without blank ends is its own trim |
| JavaStrings.TrimIdempotent | Transpool/model/src/model/Extensions/IntegerExtensions.java:28-30 | trimming twice is trimming once, so re-trimming in `isIntegerStr` changes nothing |
| JavaStrings.SegmentsHaveNoSeparator | Transpool/engine/src/engine/DAL/TranspoolXmlLoader.java:337 | no piece between separators contains the separator |
| JavaStrings.SegmentsWithoutSeparator | Transpool/engine/src/engine/DAL/TranspoolXmlLoader.java:337 | a string without the separator is a single piece |
| JavaStrings.SegmentsAtSeparator | Transpool/engine/src/engine/DAL/TranspoolXmlLoader.java:337 | cutting at a separator splits the pieces into those of either side |
| JavaStrings.DropTrailingEmptySpec | Transpool/engine/src/engine/DAL/TranspoolXmlLoader.java:337 | `split` keeps a prefix of the pieces that ends in a non-empty one, and drops only empty ones |
| JavaStrings.Split | Transpool/engine/src/engine/DAL/TranspoolXmlLoader.java:337 | no piece holds the separator, and with a separator present the last piece is non-empty |
| JavaStrings.SplitEmptyIff | Transpool/model/src/model/Extensions/FileExtensions.java:7 | the split is empty exactly when the string is non-empty and made of separators only |
| JavaStrings.LowerChar | Transpool/model/src/model/Extensions/FileExtensions.java:8 | upper-case ASCII letters move down by 32, everything else stays |
| JavaStrings.ToLower | Transpool/model/src/model/Extensions/FileExtensions.java:8 | `toLowerCase` on ASCII text: the length is kept and each upper-case letter is lowered |
| Stations.NewStation | Transpool/model/src/model/Station.java:11-14 | the constructor stores the name and the coordinate (x, y) |
| Stations.SetName | Transpool/model/src/model/Station.java:22-24 | only the name changes |
| Stations.SetCoordinate | Transpool/model/src/model/Station.java:30-32 | only the coordinate changes |
| Stations.StationEquals | Transpool/model/src/model/Station.java:37-42 | two stations are equal exactly when their names are; the coordinate does not take part (an equivalence, by StationEqualsIsEquivalence) |
| Stations.HashCode | Transpool/model/src/model/Station.java:45-47 | as written, the hash of the name and of the coordinate combined; HashCodeSplitsEqualStations shows it disagrees with `equals` |
| Stations.ContainsStationByName | Transpool/Submit/SourceCode/model/Map.java:110-111 | some station of the collection carries the name; found by GetStationByName exactly then |
| Stations.StationEqualsIsEquivalence | Transpool/model/src/model/Station.java:37-42 | equality by name is reflexive, symmetric and transitive |
| Stations.HashCodeSplitsEqualStations | Transpool/model/src/model/Station.java:45-47 | two stations named "A" at (0, 0) and (1, 0) are equal, yet their hash codes differ |
| Stations.CorrectedHashCodeConsistent | Transpool/model/src/model/Station.java:45-47 | with a hash of the name alone, equal stations hash equally |
| Stations.GetStationByName | Transpool/engine/src/engine/DAL/TranspoolXmlLoader.java:246-247 | a station is found exactly when one carries the name, and it is the first such in iteration order |
| Stations.GetStationByNameInSet | Transpool/engine/src/engine/DAL/TranspoolXmlLoader.java:246-247 | among stations with distinct names, the lookup finds the one station with that name |
| Roads.Probe | Transpool/model/src/model/Road.java:22-25 | the private constructor sets only the endpoints |
| Roads.RoadEquals | Transpool/model/src/model/Road.java:80-89 | two roads are equal exactly when source and destination names agree, in that order |
| Roads.HashCode | Transpool/model/src/model/Road.java:92-96 | `31 * hash(source) + hash(destination)`; equal roads hash equally by EqualRoadsHashEqually |
| Roads.LegacyHashCode | Transpool/src/Model/Road.java:112-114 | `Objects.hash(source, destination)`; equal roads hash equally by EqualRoadsHashEqually |
| Roads.ContainsRoadBySrcAndDstNames | Transpool/model/src/model/Road.java:140-142 | some road of the collection equals the probe road from `src` to `dst`; characterised by ContainsRoadIff |
| Roads.SetSourceStationName | Transpool/model/src/model/Road.java:32-34 | only the source name changes |
| Roads.SetDestStationName | Transpool/model/src/model/Road.java:40-42 | only the destination name changes |
| Roads.SetOneWay | Transpool/model/src/model/Road.java:48-50 | only the one-way flag changes |
| Roads.SetLength | Transpool/model/src/model/Road.java:56-58 | only the length changes |
| Roads.SetGasNeededPerKm | Transpool/model/src/model/Road.java:64-66 | only the gas per kilometre changes |
| Roads.SetMaxDrivingSpeed | Transpool/model/src/model/Road.java:72-74 | only the speed changes |
| Roads.SettersAreIndependent | Transpool/model/src/model/Road.java:32-74 | setters of different fields commute and leave the endpoints alone |
| Roads.ReversedRoadDiffers | Transpool/model/src/model/Road.java:80-89 | a road and its reverse are different roads, even a two-way one |
| Roads.EqualRoadsHashEqually | Transpool/model/src/model/Road.java:92-96 | equal roads hash equally, under both this version's hash and `Objects.hash(src, dst)` of Transpool/src/Model/Road.java:111-114 |
| Roads.ContainsRoadIff | Transpool/model/src/model/Road.java:140-142 | the lookup holds exactly when some road runs from `src` to `dst` |
| Roads.TwoWayRoadNotFoundReversed | Transpool/model/src/model/Road.java:140-142 | a two-way road A to B is not found as B to A |
| Roads.TotalAppend | Transpool/model/src/model/Road.java:112-119 | sums add up over concatenation |
| Roads.TotalOrderIndependent | Transpool/model/src/model/Road.java:112-128 | a sum over a collection does not depend on its iteration order |
| Roads.SumRoadsLength | Transpool/model/src/model/Road.java:112-119 | the accumulator loop computes the total length |
| Roads.SumRoadsNeededGas | Transpool/model/src/model/Road.java:121-128 | the accumulator loop computes the total of gas per kilometre times length |
| Roads.TotalsOfSmallCollections | Transpool/src/Model/Road.java:83-99 | the empty collection sums to 0; one road contributes its own length and gas |
| Roads.TotalLengthBoundsEachRoad | Transpool/model/src/model/Road.java:112-119 | with non-negative lengths the total is at least each road's length |
| Roads.NonNegativeTotal | Transpool/model/src/model/Road.java:112-119 | non-negative lengths give a non-negative total |
| Users.IdCounter.constructor | Transpool/model/src/model/User.java:7 | the static counter starts at 0 |
| Users.User.constructor | Transpool/model/src/model/User.java:18-22 | the counter moves up by one and the new user has that id, the name and the balance |
| Users.User.WithName | Transpool/model/src/model/User.java:14-16 | as above, with balance 0 |
| Users.User.SetName | Transpool/model/src/model/User.java:32-34 | only the name changes |
| Users.User.SetBalance | Transpool/model/src/model/User.java:40-42 | only the balance changes |
| Users.UserEquals | Transpool/model/src/model/User.java:49-57 | two users are equal exactly when id and name agree; the balance does not take part |
| Users.HashCode | Transpool/model/src/model/User.java:60-64 | `31 * id + hash(name)`; equal users hash equally by EqualUsersHashEqually |
| Users.CreateTwo | Transpool/model/src/model/User.java:19 | a user created later has a larger id |
| Users.UserEqualsIsEquivalence | Transpool/model/src/model/User.java:49-57 | equality by id and name is an equivalence |
| Users.EqualUsersHashEqually | Transpool/model/src/model/User.java:60-64 | equal users hash equally |
| Users.FirstUserWithId | Transpool/model/src/model/User.java:76-83 | a user is found exactly when one has the id, and it is the first such |
| Users.GetUserById | Transpool/model/src/model/User.java:76-83 | the loop with early return finds that first user |
| Users.HasUserById | Transpool/model/src/model/User.java:72-74 | holds exactly when some user has the id |
| Users.FirstUserNamed | Transpool/engine/src/engine/Engine.java:59-60 | a user is found exactly when one carries the name, and it is one of the users |
| Timing.Of | Transpool/model/src/model/TripTiming.java:49 | `LocalTime.of` succeeds exactly for hour 0..23 and minute 0..59, with those fields; otherwise `InvalidTime` |
| Timing.PlusHours | Transpool/model/src/model/TripTiming.java:55 | the minute stays and the hour moves on, wrapping at midnight |
| Timing.MinusMinutes | Transpool/model/src/model/TripTiming.java:56 | the minute of the day moves back |
| Timing.MinusOwnMinutes | Transpool/model/src/model/TripTiming.java:54-57 | taking away a time's own minutes leaves the full hour |
| Timing.RoundedMinutes | Transpool/model/src/model/TripTiming.java:50-52 | the rounded minute is a multiple of 5 within two minutes of the input, in 0..60 |
| Timing.RoundedMinutesUnique | Transpool/model/src/model/TripTiming.java:50-52 | it is the only multiple of 5 within two minutes |
| Timing.RoundTimeOf | Transpool/model/src/model/TripTiming.java:48-62 | the private `roundTime` fails exactly on an invalid time; otherwise the result is on the five-minute grid and within two minutes on the clock face |
| Timing.NextFullHour | Transpool/model/src/model/TripTiming.java:54-57 | `plusHours(1)` then `minusMinutes(getMinute())` gives the next full hour, modulo 24 |
| Timing.RoundTime | Transpool/model/src/model/TripTiming.java:66-68 | every time rounds to a grid time within two minutes |
| Timing.RoundKeepsHour | Transpool/model/src/model/TripTiming.java:50-59 | minutes 0..57 keep the hour and round to `5 * ((m + 2) / 5)` |
| Timing.RoundCarries | Transpool/model/src/model/TripTiming.java:54-57 | minutes 58 and 59 give `(hour + 1) % 24` and minute 0 |
| Timing.RoundExamples | Transpool/model/src/model/TripTiming.java:48-62 | examples: 10:58 gives 11:00, 23:59 gives 00:00, 7:02 gives 7:00, 7:03 gives 7:05; 24:00 and 12:60 are rejected |
| Timing.RoundTimeIsNearestGridTime | Transpool/model/src/model/TripTiming.java:48-62 | any grid time within two minutes on the clock face is the result |
| Timing.RoundTimeIdempotent | Transpool/model/src/model/TripTiming.java:66-68 | rounding a rounded time leaves it unchanged |
| Timing.TripTiming.Create | Transpool/model/src/model/TripTiming.java:15-19 | the time is checked first, then the rate by its exact name; success stores the day, the rounded time and the rate |
| Timing.TripTiming.SetDay | Transpool/model/src/model/TripTiming.java:26-28 | only the day changes |
| Timing.TripTiming.SetTime | Transpool/model/src/model/TripTiming.java:34-36 | only the time changes |
| Timing.TripTiming.SetRepetitionRate | Transpool/model/src/model/TripTiming.java:42-44 | only the rate changes |
| Maps.MapRegistry.constructor | Transpool/Submit/SourceCode/model/Map.java:35 | there is no instance before `init` |
| Maps.MapRegistry.Init | Transpool/Submit/SourceCode/model/Map.java:70-80 | refused while an instance exists, which then stays; otherwise installs and returns the map with the given bounds, stations and roads (the same in Transpool/model/src/model/Map.java:65-75) |
| Maps.MapRegistry.Reset | Transpool/Submit/SourceCode/model/Map.java:82-84 | the instance is cleared |
| Maps.ReplaceMap | Transpool/Submit/SourceCode/model/Map.java:70-84 | `reset` then `init` always installs the new map |
| Maps.IsOnGrid | Transpool/Submit/SourceCode/model/Map.java:102-107 | a point is on a map exactly when both coordinates lie within 0 and the bound, inclusive |
| Maps.HasStation | Transpool/Submit/SourceCode/model/Map.java:110-111 | some stored station carries the name; GetStation succeeds exactly then |
| Maps.HasRoad | Transpool/Submit/SourceCode/model/Map.java:140-141 | some stored road runs from `src` to `dst`; GetRoad succeeds exactly then |
| Maps.IsOnMap | Transpool/Submit/SourceCode/model/Map.java:94-108 | the instance form is the static test with the map's own bounds, inclusive on both |
| Maps.MapCorners | Transpool/model/src/model/Map.java:89-95 | both corners are on the map; one step beyond any edge is not |
| Maps.GetStation | Transpool/Submit/SourceCode/model/Map.java:110-116 | a stored station with the name exactly when `hasStation`, otherwise `StationDoesNotExist` |
| Maps.GetStationIfExists | Transpool/Submit/SourceCode/model/Map.java:118-129 | the station exactly when `hasStation`, and then the one `getStation` gives; otherwise `null` |
| Maps.GetStationsByNames | Transpool/Submit/SourceCode/model/Map.java:131-138 | succeeds exactly when every name is a station; element i is `getStation(names[i])`; otherwise the first unknown name |
| Maps.FirstRoadBetween | Transpool/Submit/SourceCode/model/Map.java:140-146 | a stored road from `src` to `dst` exactly when `hasRoad` |
| Maps.GetRoad | Transpool/Submit/SourceCode/model/Map.java:144-146 | the road from `src` to `dst` exactly when `hasRoad`, otherwise `RoadDoesNotExist` |
| Maps.GetRoadsByStationsList | Transpool/Submit/SourceCode/model/Map.java:148-158 | succeeds exactly when every consecutive pair is linked; max(0, n - 1) roads, road i being `getRoad(s[i], s[i + 1])`; otherwise the first missing link |
| Maps.RoadsFollowStations | Transpool/Submit/SourceCode/model/Map.java:148-158 | the resolved roads are stored roads and join the stations end to end |
| Graphs.DestroyRefs | Transpool/model/src/model/util/collections/Graph.java:91-92 | `destroy` seen through a list: the length is kept, every reference to the vertex becomes a destroyed vertex and every other entry stays |
| Graphs.DestroyRefsAbsent | Transpool/model/src/model/util/collections/Graph.java:91-92 | a list that does not refer to the vertex is untouched by its destruction |
| Graphs.DestroyRefsSpec | Transpool/model/src/model/util/collections/Graph.java:91-92 | afterwards no entry refers to the item, an entry is destroyed exactly when it was or referred to the item, and every other vertex is kept |
| Graphs.AdjacencyAfterDetach | Transpool/model/src/model/util/collections/Graph.java:29-36 | detaching every reference, dropping the vertex and destroying it gives the corrected lists |
| Graphs.AdjacencyAfterDetachAsWritten | Transpool/model/src/model/util/collections/Graph.java:29-36 | detaching one reference per list, dropping the vertex and destroying it gives the lists as written |
| Graphs.OutwardAfterDrop | Transpool/model/src/model/util/collections/Graph.java:32-36 | dropping the edges into the vertex, the vertex, and the edges `destroy` disconnects gives the edge sets after removal |
| Graphs.RemoveFirst | Transpool/model/src/model/util/collections/Graph.java:29 | `List.remove` takes out one occurrence only, if any |
| Graphs.RemoveAll | Transpool/model/src/model/util/collections/Graph.java:29 | every occurrence goes and every other element stays |
| Graphs.DropEdgesTo | Transpool/model/src/model/util/collections/Graph.java:32 | `removeIf` keeps exactly the edges not leading to the vertex |
| Graphs.RemovalForgetsVertex | Transpool/model/src/model/util/collections/Graph.java:25-38 | after the corrected removal no list and no edge refers to the item, every other vertex remains, and the graph stays well formed: closed, with no reference to a destroyed vertex |
| Graphs.RemoveVertexAsWrittenLeavesReference | Transpool/model/src/model/util/collections/Graph.java:29 | two edges 1 to 2: after removing 2 as written, the list of 1 holds exactly one destroyed vertex, so the graph is closed but not well formed |
| Graphs.AsWrittenKeepsExtraCopies | Transpool/model/src/model/util/collections/Graph.java:29-36 | as written, no list refers to the removed item afterwards, and a list holds a destroyed vertex exactly when it already did or held the item at least twice |
| Graphs.AsWrittenStaysClosed | Transpool/model/src/model/util/collections/Graph.java:25-38 | as written, every reference to a live vertex and every edge still leads to a vertex of the graph |
| Graphs.AsWrittenAgreesWithoutDuplicates | Transpool/model/src/model/util/collections/Graph.java:25-38 | when no list holds the vertex twice, the removal as written equals the corrected one |
| Graphs.Graph.constructor | Transpool/model/src/model/util/collections/Graph.java:13-14 | a new graph is empty |
| Graphs.Graph.AddVertex | Transpool/model/src/model/util/collections/Graph.java:16-22 | `putIfAbsent`: an existing vertex keeps its list and edges; a new one starts empty; every vertex keeps an edge set |
| Graphs.Graph.GetVertexByItem | Transpool/model/src/model/util/collections/Graph.java:70-80 | the stored vertex equal to the item exactly when it is in the graph |
| Graphs.Graph.AddOutwardEdge | Transpool/model/src/model/util/collections/Graph.java:109-111 | an edge set keeps its edge for an existing weight and gains one for a new weight |
| Graphs.Graph.ListsAfterEdge | Transpool/model/src/model/util/collections/Graph.java:53-57 | `dst` joins the list of `src`, and `src` joins that of `dst` when bidirectional; other lists stay |
| Graphs.Graph.EdgesAfterEdge | Transpool/model/src/model/util/collections/Graph.java:102-107 | `src` gets an edge of the weight, and `dst` one back when bidirectional; other sets stay |
| Graphs.Graph.AddEdgeKeepsWellFormed | Transpool/model/src/model/util/collections/Graph.java:40-58 | after `addEdge` every neighbour and edge destination is a vertex |
| Graphs.Graph.AddEdge | Transpool/model/src/model/util/collections/Graph.java:40-58 | missing endpoints become vertices, then the lists and edge sets change as stated above; a well-formed graph stays well formed |
| Graphs.Graph.RemoveVertex | Transpool/model/src/model/util/collections/Graph.java:25-38 | as written: nothing changes for an absent item; otherwise each list loses one reference to the item and any further one now refers to a destroyed vertex, edges into the item and the item itself go, and `destroy` disconnects its edges; live references stay inside the graph, and the graph stays well formed when no list held the item twice |
| Graphs.Graph.RemoveVertexCorrected | Transpool/model/src/model/util/collections/Graph.java:25-38 | corrected: every reference to the item goes, and a well-formed graph stays well formed |
| Graphs.Graph.DetachFirstFromLists | Transpool/model/src/model/util/collections/Graph.java:29 | as written: every list loses the first occurrence of the item |
| Graphs.Graph.DetachEveryFromLists | Transpool/model/src/model/util/collections/Graph.java:29 | corrected: every list loses every occurrence of the item |
| Graphs.Graph.DropEdgesInto | Transpool/model/src/model/util/collections/Graph.java:32 | every vertex loses its edges into the item |
| Graphs.Graph.Destroy | Transpool/model/src/model/util/collections/Graph.java:91-99 | every list still referring to the removed vertex sees it destroyed, and each edge of the vertex takes the edge of the same weight out of its destination's set |
| Graphs.Graph.EmptyVertex | Transpool/model/src/model/util/collections/Graph.java:92 | every list's references to the vertex become destroyed vertices; the edge sets stay |
| Graphs.Graph.DisconnectEdges | Transpool/model/src/model/util/collections/Graph.java:94-96 | each edge of the removed vertex takes the edge of the same weight out of its destination's set; the lists stay |
| Trips.IndexOf | Transpool/engine/src/engine/TripsManager.java:54-55 | `indexOf` gives the first index with the name, or -1 exactly when absent |
| Trips.SourceBeforeDestination | Transpool/engine/src/engine/TripsManager.java:54-55 | `indexOf(a) < indexOf(b)` says exactly that the first stop called `a` comes before every stop called `b` |
| Trips.RoutePrice | Transpool/model/src/model/TripOffer.java:78-80 | an empty route costs 0; one road costs its length times the price |
| Trips.RoutePriceNonNegative | Transpool/model/src/model/TripOffer.java:78-80 | non-negative lengths and price give a non-negative price |
| Trips.RoutePriceSplits | Transpool/model/src/model/TripOffer.java:78-80 | the price of a route is the sum of the prices of its parts |
| Trips.GasUsage | Transpool/model/src/model/TripOffer.java:82-84 | defined exactly for a non-empty route, and then the mean gas per road |
| Trips.GasUsageOfUniformRoads | Transpool/model/src/model/TripOffer.java:82-84 | when every road takes the same gas, the mean is that figure |
| Trips.TripOffer.constructor | Transpool/model/src/model/TripOffer.java:14-21 | stores owner, quota, price, timing, stations and roads as given; nobody registered |
| Trips.TripOffer.SetOfferingUserName | Transpool/model/src/model/TripOffer.java:28-30 | only the owner changes |
| Trips.TripOffer.SetPassengersQuota | Transpool/model/src/model/TripOffer.java:36-38 | only the quota changes |
| Trips.TripOffer.SetPricePerKm | Transpool/model/src/model/TripOffer.java:48-50 | only the price changes |
| Trips.TripOffer.SetTiming | Transpool/model/src/model/TripOffer.java:56-58 | only the timing changes |
| Trips.TripOffer.RegisterRequest | Transpool/engine/src/engine/TripsManager.java:45 | the request joins the registered set, nothing else changes, and the remaining capacity drops by one for a new request |
| Trips.TripOffer.RemainingCapacity | Transpool/engine/src/engine/TripsManager.java:51 | the quota less the registered requests; RegisterRequest lowers it by one for a new request |
| Trips.TripOffer.TripPrice | Transpool/model/src/model/TripOffer.java:78-80 | the route price of the offer; RoutePrice, RoutePriceSplits and RoutePriceNonNegative state its properties |
| Trips.OfferEquals | Transpool/model/src/model/TripOffer.java:94-109 | quota, price, owner, stations by name, roads by endpoints and the timing object agree; the registrations do not take part |
| Trips.OfferHash | Transpool/model/src/model/TripOffer.java:112-123 | the 31-fold over owner, quota, station list, road list, price and timing; EqualOffersHashEqually relates it to OfferEquals |
| Trips.OfferEqualsIsEquivalence | Transpool/model/src/model/TripOffer.java:94-109 | offer equality is an equivalence |
| Trips.EqualOffersHashEqually | Transpool/model/src/model/TripOffer.java:111-123 | equal offers hash equally, given a station hash that agrees with `Station.equals` |
| Trips.TripRequest.constructor | Transpool/Submit/SourceCode/engine/Engine.java:67-68 | stores owner, stations and time; not matched |
| Trips.MatchingOffers | Transpool/engine/src/engine/TripsManager.java:49-58 | every kept offer is from the pool and meets the five conditions; every pooled offer that meets them is kept |
| Trips.WrongDirectionExcluded | Transpool/engine/src/engine/TripsManager.java:54-55 | an offer visiting the destination before the source is never proposed |
| Trips.IsPossibleMatch | Transpool/engine/src/engine/TripsManager.java:48-57 | a free seat, both stations on the route, the source first, and the offer at the source at the wanted time |
| Trips.TripsManager.constructor | Transpool/engine/src/engine/TripsManager.java:18-21 | exactly the given offers and no requests |
| Trips.TripsManager.HasEqualOffer | Transpool/engine/src/engine/TripsManager.java:27-29 | `HashSet` membership as `add` decides it: some pooled offer equals the argument by `TripOffer.equals`; AddOffer adds exactly when it does not hold |
| Trips.TripsManager.AddOffer | Transpool/engine/src/engine/TripsManager.java:27-29 | true exactly when no equal offer was pooled, in which case it joins; requests unchanged |
| Trips.TripsManager.AddRequest | Transpool/engine/src/engine/TripsManager.java:39-41 | true exactly when the request was new; it is then present; offers unchanged |
| Trips.TripsManager.UnmatchedRequestsAsWritten | Transpool/engine/src/engine/TripsManager.java:35-37 | as written the result is exactly the matched requests |
| Trips.TripsManager.UnmatchedRequests | Transpool/engine/src/engine/TripsManager.java:35-37 | corrected, the result is exactly the requests not matched |
| Trips.TripsManager.UnmatchedSplitRequests | Transpool/engine/src/engine/TripsManager.java:35-37 | the two filters partition the requests |
| Trips.TripsManager.AsWrittenMissesFreshRequest | Transpool/engine/src/engine/TripsManager.java:35-37 | a fresh pooled request is left out as written and included when corrected |
| Trips.TripsManager.MatchRequestToOffer | Transpool/engine/src/engine/TripsManager.java:43-46 | the request points at the offer and the offer registers it, with no capacity or earlier-match check; it is then no longer unmatched |
| Trips.TripsManager.PossibleMatches | Transpool/engine/src/engine/TripsManager.java:48-59 | sound and complete against the five conditions |
| Manager.TranspoolManager.constructor | Transpool/engine/src/engine/TranspoolManager.java:20-31 | `Map.init` installs the map when none exists; otherwise the map stays null; the trips manager gets the offers either way; no users |
| Manager.TranspoolManager.HasUser | Transpool/engine/src/engine/Engine.java:59 | some registered user has the name; GetUserIfExists finds one exactly then |
| Manager.TranspoolManager.GetUserIfExists | Transpool/Submit/SourceCode/engine/Engine.java:66 | a user of that name exactly when one exists, otherwise `null` |
| Manager.TranspoolManager.CreateUser | Transpool/engine/src/engine/Engine.java:59-61 | refused for a taken name; otherwise a user with the next id joins |
| Loader.AssertMapBoundaries | Transpool/engine/src/engine/DAL/TranspoolXmlLoader.java:119-147 | passes exactly for 6..100 on both axes; otherwise reports the first violated bound in the order length max, length min, width max, width min |
| Loader.AssertStationsInMapRange | Transpool/engine/src/engine/DAL/TranspoolXmlLoader.java:156-171 | passes exactly when every stop is on the grid; otherwise reports the first stop off it under its trimmed name |
| Loader.StationOf | Transpool/engine/src/engine/DAL/TranspoolXmlLoader.java:178-186 | a stop's station has the trimmed name and the stop's point |
| Loader.StationsBefore | Transpool/engine/src/engine/DAL/TranspoolXmlLoader.java:177-192 | the vertices after `k` stops are their stations, in order |
| Loader.StationAt | Transpool/engine/src/engine/DAL/TranspoolXmlLoader.java:207-216 | a station standing at the point exactly when one does |
| Loader.StopCheck | Transpool/engine/src/engine/DAL/TranspoolXmlLoader.java:177-191 | an occupied coordinate fails naming its occupant; otherwise a taken trimmed name fails; otherwise the stop passes (stated by StopCheckOrder) |
| Loader.StopCheckOrder | Transpool/engine/src/engine/DAL/TranspoolXmlLoader.java:182-191 | an occupied coordinate is reported, naming its occupant, before a taken name |
| Loader.StopCheckAgainstPredecessors | Transpool/engine/src/engine/DAL/TranspoolXmlLoader.java:177-192 | a stop passes exactly when it shares neither coordinate nor trimmed name with an earlier one |
| Loader.StopsAcceptedIff | Transpool/engine/src/engine/DAL/TranspoolXmlLoader.java:173-195 | the stops pass exactly when no two share a coordinate or a trimmed name |
| Loader.AcceptedStationsHaveUniqueNames | Transpool/engine/src/engine/DAL/TranspoolXmlLoader.java:186 | accepted stations have distinct names |
| Loader.CreateStationsGraph | Transpool/engine/src/engine/DAL/TranspoolXmlLoader.java:173-195 | the stations of all stops exactly when the stops pass; otherwise the first rejection |
| Loader.RoadOf | Transpool/engine/src/engine/DAL/TranspoolXmlLoader.java:256-268 | a path's road joins the trimmed names and carries the path's figures |
| Loader.RoadsBefore | Transpool/engine/src/engine/DAL/TranspoolXmlLoader.java:229-254 | the edges after `k` paths are their roads, in order |
| Loader.PathCheck | Transpool/engine/src/engine/DAL/TranspoolXmlLoader.java:229-243 | a missing source, then a missing destination, then an equal road already added fail, otherwise the path passes (stated by PathCheckOrder) |
| Loader.PathCheckOrder | Transpool/engine/src/engine/DAL/TranspoolXmlLoader.java:281-295 | a missing source is reported before a missing destination, both before a duplicate |
| Loader.PathCheckAgainstPredecessors | Transpool/engine/src/engine/DAL/TranspoolXmlLoader.java:231-243 | a path passes exactly when its ends exist and no earlier path joins the same ordered pair |
| Loader.PathsAcceptedIff | Transpool/engine/src/engine/DAL/TranspoolXmlLoader.java:229-254 | the paths pass exactly when all join known stations and no two join the same ordered pair |
| Loader.CreateRoads | Transpool/engine/src/engine/DAL/TranspoolXmlLoader.java:229-254 | the roads of all paths exactly when the paths pass; otherwise the first rejection |
| Loader.AssertTripRouteStations | Transpool/engine/src/engine/DAL/TranspoolXmlLoader.java:334-344 | passes exactly when every trimmed piece of the route is a station; otherwise the first bad piece |
| Loader.AssertPlannedTripRoads | Transpool/engine/src/engine/DAL/TranspoolXmlLoader.java:354-369 | passes exactly when a road joins every consecutive pair of trimmed pieces in route order; otherwise the first missing pair |
| Loader.SingleStationRoute | Transpool/engine/src/engine/DAL/TranspoolXmlLoader.java:354-369 | a one-station route needs no road, and fails on an unknown station |
| Loader.RouteStations | Transpool/engine/src/engine/DAL/TranspoolXmlLoader.java:380 | one known station per piece, in order |
| Loader.RouteRoads | Transpool/engine/src/engine/DAL/TranspoolXmlLoader.java:381 | one known road per consecutive pair |
| Loader.RouteRoadsJoinRouteStations | Transpool/engine/src/engine/DAL/TranspoolXmlLoader.java:378-381 | the route's roads join its stations end to end |
| Loader.PlanOfferSucceedsIff | Transpool/engine/src/engine/DAL/TranspoolXmlLoader.java:310-318 | a trip is accepted exactly when its stations and roads exist and its schedule is valid |
| Loader.PlannedOfferFollowsRoute | Transpool/engine/src/engine/DAL/TranspoolXmlLoader.java:371-394 | an accepted trip's offer follows its route, starts on the grid at minute 0 of its hour, and has the named rate |
| Loader.TripsAcceptedIff | Transpool/engine/src/engine/DAL/TranspoolXmlLoader.java:306-324 | the trips pass exactly when each does; a rejection is the first rejected trip's |
| Loader.RejectedAt | Transpool/engine/src/engine/DAL/TranspoolXmlLoader.java:310-321 | after accepted trips, a rejected trip `m` is what the load fails on |
| Loader.AllAccepted | Transpool/engine/src/engine/DAL/TranspoolXmlLoader.java:306-324 | when every trip is accepted, so is the load |
| Loader.TransPoolTripToTripOffer | Transpool/engine/src/engine/DAL/TranspoolXmlLoader.java:371-395 | a fresh offer realising the plan, or the timing's failure |
| Loader.CreateTripOffer | Transpool/engine/src/engine/DAL/TranspoolXmlLoader.java:310-320 | one pass of the loop: the route checks, then the offer |
| Loader.CreateTripOffers | Transpool/engine/src/engine/DAL/TranspoolXmlLoader.java:306-324 | one offer per trip, in order, each realising its plan, exactly when the trips pass; otherwise the first rejection |
| Loader.DistinctTimingsMakeDistinctOffers | Transpool/engine/src/engine/DAL/TranspoolXmlLoader.java:320 | offers with timing objects of their own are pairwise unequal, so the set keeps all |
| Loader.AcceptedDatasetIsConsistent | Transpool/engine/src/engine/DAL/TranspoolXmlLoader.java:56-72 | an accepted dataset has bounds in range, stations on the map with distinct names, and roads between its stations |
| Loader.CheckDataset | Transpool/engine/src/engine/DAL/TranspoolXmlLoader.java:56-72 | the bounds, the stations on the map, the stations, the roads and the trips, in that order, the first failure deciding (stated by PopulateModels and AcceptedDatasetIsConsistent) |
| Loader.PopulateModels | Transpool/engine/src/engine/DAL/TranspoolXmlLoader.java:56-83 | validation first, leaving the singleton as it was on failure; on success the new map is installed |
| Loader.AssertFilePath | Transpool/engine/src/engine/DAL/TranspoolXmlLoader.java:95-109 | passes exactly for an existing file whose extension is "xml"; otherwise `FileNotFound`, or the unsupported extension |
| Loader.FileTypeDecidedByLastPiece | Transpool/engine/src/engine/DAL/TranspoolXmlLoader.java:102-107 | an existing file passes exactly when its last piece spells "xml" in any case |
| Loader.Load | Transpool/engine/src/engine/DAL/TranspoolXmlLoader.java:41-46 | the file checks, then parsing, then validation; any failure leaves the singleton alone; success gives a fresh manager holding the new map, no users or requests, and one offer per trip realizing that trip's plan |
| Engines.Engine.constructor | Transpool/Submit/SourceCode/engine/Engine.java:25-27 | a new engine has no data |
| Engines.Engine.AssertEngineInitialized | Transpool/Submit/SourceCode/engine/Engine.java:30-36 | fails exactly while no dataset is loaded |
| Engines.Engine.ReadXmlFile | Transpool/Submit/SourceCode/engine/Engine.java:39-44 | the manager is replaced only when loading succeeds, and then holds the validated map, no users or requests, and one offer per trip realizing its plan |
| Engines.Engine.GetAllStations | Transpool/Submit/SourceCode/engine/Engine.java:46-50 | the loaded map's stations, or `NotInitialized` |
| Engines.Engine.GetAllRoads | Transpool/Submit/SourceCode/engine/Engine.java:52-56 | the loaded map's roads, or `NotInitialized` |
| Engines.Engine.GetAllTripOffers | Transpool/Submit/SourceCode/engine/Engine.java:88-92 | the pooled offers, or `NotInitialized` |
| Engines.Engine.GetAllTripRequests | Transpool/Submit/SourceCode/engine/Engine.java:94-98 | the pooled requests, or `NotInitialized` |
| Engines.Engine.GetUnmatchedTripRequests | Transpool/Submit/SourceCode/engine/Engine.java:100-104 | as written: exactly the pooled requests that are already matched, the result of `getUnmatchedRequests` |
| Engines.Engine.GetUnmatchedTripRequestsCorrected | Transpool/Submit/SourceCode/engine/Engine.java:100-104 | corrected: exactly the pooled requests not yet matched |
| Engines.Engine.GetAllMatchedToRequest | Transpool/Submit/SourceCode/engine/Engine.java:106-110 | sound and complete against the five conditions |
| Engines.Engine.MatchTripRequestToOffer | Transpool/Submit/SourceCode/engine/Engine.java:112-116 | the guard, then the match; nothing changes while unloaded |
| Engines.Engine.PostTripRequest | Transpool/Submit/SourceCode/engine/Engine.java:58-71 | guard, stations, then time; success adds a fresh unmatched request with the resolved stations, the time, and the existing user or `null` |
| Engines.Engine.PostTripOffer | Transpool/Submit/SourceCode/engine/Engine.java:73-86 | guard, stations, time, rate, then roads, each reported in that order; success appends an offer with exactly the given figures, the resolved stations and the roads between them |
| Engines.Engine.LegacyPostTripRequestAsWritten | Transpool/engine/src/engine/Engine.java:52-71 | as written an unknown user is created even when the time then proves invalid |
| Engines.Engine.LegacyPostTripRequest | Transpool/engine/src/engine/Engine.java:52-71 | corrected, a failed request leaves users, counter and requests unchanged; success gets or creates the owner |
| Engines.Engine.GetOrCreateUser | Transpool/engine/src/engine/Engine.java:57-64 | the existing user of that name, or a new one with the next id |
| Engines.RoadsBetween | Transpool/Submit/SourceCode/engine/Engine.java:81-82 | on stations resolved from names, succeeds exactly when every consecutive pair of names is linked |
| Engines.NamesOfResolvedStations | Transpool/Submit/SourceCode/engine/Engine.java:81 | resolved stations carry the names they were resolved from |

## Left out

- XML parsing (JAXB) and file I/O: whether the file exists, its name and the parsed document are parameters of `Loader.Load` and `Engines.Engine.ReadXmlFile`. A document that does not fit the schema is `None`.
- Exception messages: each exception is an `Error` constructor carrying the values its message names. The formatted text is not modelled.
- Floating point: `getTripDuration` and `calcRoadTravelDuration` divide doubles and are not modelled. Lengths, gas figures and prices are integers, as the loader supplies them.
- Trips.GasUsage: computed over the reals, not as an IEEE double.
- `getWhenAtStation` is not part of this model. An offer's arrival times come from a schedule function, a parameter of the loader and of the engine.
- The `TripOffer`/`TripRequest` members that `TripsManager` calls are modelled from how they are used; `TripOffer.java` and `TripRequest.java` in the version modelled here do not declare them. These are `getRemainingPassengersCapacity`, `registerRequest`, `isMatched` and `setMatchedTo`. `TripRequest.java` keeps station names and declares no `getWantedSourceStation`; the model stores the stations the names resolve to. Were that getter to return a name, `getStationsInTrip().contains(...)` would be false for every offer, because `Station.equals` accepts only a `Station`, and no offer would ever match.
- The loader's graph API (`addVertexIfAbsent`, `getVertices`, `getEdges`, `doesEdgeExist`) belongs to a `Graph` version that is not part of this model. The loader's graph is modelled as its vertex list and edge list.
- Graphs.Graph.RemoveVertex: a vertex whose item is `null` is not modelled. Such a vertex would equal a destroyed one, and a `destroy` also nulls the removed edges' fields, which nothing reads afterwards.
- `Graph.removeEdge` reads an undeclared variable, so it does not compile; it is not modelled. Neither are the unused `removeEdgesFromEndpoint`, `clearEdges`, `getEdgeByWeight` and `hasEdge`.
- Static `TranspoolManager.reset`/`init`/`getInstance` are not part of this model. Loading builds a fresh manager after resetting the map singleton, which is their evident effect.
- The user registry of `TranspoolManager` (`hasUser`, `getUserByName`, `getUserIfExists`, `createUser`) is not declared in `TranspoolManager.java` either. It is modelled as a list of users searched by name.
- Static fields (`Map.instance`, `User.ID`, the engine's manager) are objects passed around explicitly.
- Concurrency, the console UI and printing are not modelled.
- Hash codes of `String`, `Point`, `Double` and `TripTiming` are parameters. Only the combining arithmetic is modelled.
- Engines.Engine.PostTripOffer: does not relate the result of `getUserIfExists`, which the Java code also discards.
- Engines.Engine.PostTripOffer: states the pool as the old offers plus the new one. Since the new offer has a timing object of its own, no pooled offer equals it.
- Manager.TranspoolManager.GetUserIfExists: the user found is some user of that name; which one is not stated, since a user registry has at most one per name.

- Trips.TripsManager.AddOffer, Trips.TripsManager.HasEqualOffer: `HashSet.add` is modelled by `TripOffer.equals` alone. The bucket lookup through `TripOffer.hashCode` is not modelled. That hash mixes in the stations' coordinates (Findings row 3) and can go stale after a setter changes a pooled offer. So an offer equal to a pooled one but hashed differently, or one equal to a pooled offer mutated since it was added, would most likely be added by Java and is refused here.
- Trips.TripsManager.PossibleMatches: the offers are pooled as a sequence in insertion order and matched in that order. The Java pool is a `HashSet`, whose iteration order is not modelled, so the order of the result is not promised.
- Stations.SetName, Stations.SetCoordinate: a station is a value here. In Java one `Station` object is shared by the map, the loader's graph and every offer's `stationsInTrip`, and a rename through a setter is seen by all of them. That aliasing is not captured.
- The static helpers `Station.containsStationByName`, `getStationByName`, `isStationOverlappingAnother`, `getStationByCoordinate`, `getStationsFromStrArr` and `Road.getRoadListFromStationsPath` are not declared in `Station.java` and `Road.java`. They are modelled from how they are used: a lookup by exact name, or by coordinate, in iteration order.
- Loader.RouteStations: takes each station by its trimmed name. `transPoolTripToTripOffer` passes the untrimmed pieces of `split(",")` to `getStationsFromStrArr`, whose body is not part of this model. If that helper matches names exactly, a route written with blanks after the commas makes it throw; the surrounding `catch` then leaves the offer's station and road lists `null`. That case is not modelled.
- Loader.StopCheck, Loader.StopsAcceptedIff, Loader.AcceptedStationsHaveUniqueNames, Loader.AcceptedDatasetIsConsistent: `addVertexIfAbsent` is modelled as refusing a station equal, by `Station.equals`, to one already added, which is what the comment at `createStationsGraph` says it does. Its body is not part of this model. If that graph keeps its vertices in a hash set, `Station.hashCode` (Findings row 3) mixes in the coordinate, and `assertOverlappingStations` has already ruled out a shared coordinate. A same-named stop at a new coordinate would then most likely be accepted, and accepted names would not have to be distinct.
- Loader.PathCheck: `doesEdgeExist` is modelled as finding an equal road, that is, one with the same source and destination in that order. Its body is not part of this model; the comment at its call says that it takes two-way roads into account, which may mean it also finds the reverse of a two-way road.
- IntegerExtensions.ParseInt: only ASCII digits are modelled. Java's `Integer.parseInt` also accepts every other Unicode decimal digit, through `Character.digit`.
- JavaStrings.LowerChar, JavaStrings.ToLower: only ASCII letters are lowered. Java's `toLowerCase` also lowers other letters, and for some characters, U+0130 among them, it changes the length of the string.
- Users.User.constructor: the static `User.ID` is a Java `int`, so `++ID` wraps around after 2^31 - 1 users. The model's counter is unbounded.
- Users.CreateTwo: a later user has a larger id only because the counter is unbounded. In Java the id after 2^31 - 1 is negative.

## Findings

| source | as written | input that shows it | evidently intended | confidence | as-written member | corrected member |
|---|---|---|---|---|---|---|
| Transpool/engine/src/engine/TripsManager.java:35-37 | `getUnmatchedRequests` filters with `isMatched`, keeping the matched requests | a pool holding one freshly posted request: the result is empty | the requests that are not matched | high, not executed | Trips.TripsManager.UnmatchedRequestsAsWritten and Engines.Engine.GetUnmatchedTripRequests (exhibited by Trips.TripsManager.AsWrittenMissesFreshRequest) | Trips.TripsManager.UnmatchedRequests and Engines.Engine.GetUnmatchedTripRequestsCorrected (with Trips.TripsManager.UnmatchedSplitRequests) |
| Transpool/model/src/model/util/collections/Graph.java:29 | `removeVertex` clears the lists with `List.remove`, which drops only the first occurrence | edges 1 to 2 with weights a and b, then `removeVertex(2)`: the list of 1 still holds the removed vertex, whose item `destroy` has set to `null` | every reference to the removed vertex is gone | high, not executed | Graphs.Graph.RemoveVertex (exhibited by Graphs.RemoveVertexAsWrittenLeavesReference and Graphs.AsWrittenKeepsExtraCopies) | Graphs.Graph.RemoveVertexCorrected (with Graphs.RemovalForgetsVertex) |
| Transpool/model/src/model/Station.java:45-47 | `hashCode` hashes the name and the coordinate, while `equals` compares names only | stations "A" at (0, 0) and "A" at (1, 0) are equal but hash differently | equal stations hash equally | high, not executed | Stations.HashCodeSplitsEqualStations | Stations.CorrectedHashCodeConsistent |
| Transpool/engine/src/engine/Engine.java:57-68 | `postTripRequest` creates an unknown user before `LocalTime.of` validates the time | a new user name with hour 25: the request fails and the user exists | validate the time before creating the user, as the later engine does | medium, not executed | Engines.Engine.LegacyPostTripRequestAsWritten | Engines.Engine.LegacyPostTripRequest |
