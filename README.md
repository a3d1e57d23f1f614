# Bus seat reservation: a Dafny model

This project models the core of a bus-ticket reservation platform:

- **Seats** (`seats.dfy`): the `Seat` record of a bus's seat map and the `available_seats` count.
- **Reservation** (`reservation.dfy`): the seat-map logic of `reserveSeats` and `cancelSeats`.
  Reserving validates every requested seat first and writes only after that.
  Cancelling releases the seats that exist and skips the rest.
- **Buses** (`buses.dfy`): the `Bus` entity as a class whose `seatMap` and `isActive` fields the
  service assigns. The buses service is a class over a map from id to bus, with `create`, `findAll`,
  `findOne`, `reserveSeats`, `cancelSeats`, `remove` and the seat-map generator.
- **Middleware** (`middleware.ts` of the web front end, `middleware.dfy`): the route access decision.
  It gives `next`, a redirect to `/login` or a redirect to `/dashboard`, from the path, the token
  cookie and the decoded role.
- **Routes** (`routes.dfy`): the routes service. The listing query is a filter-then-slice over the
  route table. `findOne` and `findBusesByRoute` are lookups by id, and `remove` is a soft delete.

Each operation runs as one sequential step. A reservation's clock reading (`new Date()`) is a
parameter `now`. The random choice of pre-occupied seats in `generateSeatMap` is a parameter `picks`.
`picks` is required to be what the random loop produces: floor(0.3·n) distinct numbers in 1..n.
For integer n that is `(3·n)/10`. The decoded JWT payload is a parameter too: either a decode failure
or claims with an optional role.

The model follows the code as written:

- Duplicate seat numbers in a request are accepted.
- A reservation error names the first bad seat in request order. For that seat, "does not exist" is
  checked before "already occupied".
- An inactive bus still accepts reservations, because `findOne` does not look at `is_active`.
- `cancelSeats` does no ownership check and silently skips unknown seat numbers.
- Seat holders are `System` (the string `'system'` that `generateSeatMap` writes) or `User(id)` (the
  numeric `user_id` that `reserveSeats` writes). The entity's declared type `string | null` does not
  cover the numeric case.

So the code does not refuse reservations on an inactive bus, does not reject duplicate seat numbers,
reports the first bad seat in request order rather than ascending seat order, checks no ownership on
cancellation, and releases per seat rather than all-or-nothing. The model does none of these either.

## Model

| member | source | states |
|---|---|---|
| `Seats.AvailableSeats` | backend/nestjs-routes-api/src/buses/entities/bus.entity.ts:65-68 | the count of free seats never exceeds the number of seats |
| `Seats.AvailableSeatsCountsFreeSeats` | backend/nestjs-routes-api/src/buses/entities/bus.entity.ts:65-68 | `available_seats` equals the number of seat positions with `isOccupied = false` |
| `Seats.AllFreeIffFullyAvailable` | backend/nestjs-routes-api/src/buses/entities/bus.entity.ts:65-68 | the count equals the seat-map length exactly when no seat is occupied (both directions) |
| `Seats.AvailableSeatsAfterUpdate` | backend/nestjs-routes-api/src/buses/entities/bus.entity.ts:65-68 | replacing one seat changes the count by that seat's own contribution only |
| `Seats.OccupyingLowersAvailability` | backend/nestjs-routes-api/src/buses/entities/bus.entity.ts:65-68 | flipping one free seat to occupied lowers the count by exactly 1 |
| `Seats.FreeingRaisesAvailability` | backend/nestjs-routes-api/src/buses/entities/bus.entity.ts:65-68 | flipping one occupied seat to free raises the count by exactly 1 |
| `Buses.Bus.AvailableSeats` | backend/nestjs-routes-api/src/buses/entities/bus.entity.ts:65-68 | the getter only reads the bus; it is the number of free seats, at most the seat count, and equal to it iff no seat is occupied |
| `Buses.Bus.constructor` | backend/nestjs-routes-api/src/buses/entities/bus.entity.ts:49-50 | a new bus carries the given fields and seat map and is active by default |
| `Reservation.FindIndex` | backend/nestjs-routes-api/src/buses/buses.service.ts:72 | -1 iff no seat has the number; otherwise the index of the first seat with that number |
| `Reservation.FirstBadRequest` | backend/nestjs-routes-api/src/buses/buses.service.ts:60-67 | every requested seat before the returned position exists and is free; the seat at it (if any) does not |
| `Reservation.CheckSeats` | backend/nestjs-routes-api/src/buses/buses.service.ts:60-67 | no error iff every requested seat exists and is free; otherwise the error names the first failing seat in request order, with "does not exist" exactly when no seat has that number |
| `Reservation.ValidateSeats` | backend/nestjs-routes-api/src/buses/buses.service.ts:58-68 | the checking loop returns exactly the outcome `CheckSeats` describes |
| `Reservation.ApplyReservation` | backend/nestjs-routes-api/src/buses/buses.service.ts:70-79 | the write loop yields a map where each named seat is occupied by the holder with the time set and every other seat is unchanged |
| `Reservation.ApplyCancellation` | backend/nestjs-routes-api/src/buses/buses.service.ts:89-102 | the release loop yields a map where each named existing seat is freed with null holder and time, unknown numbers are skipped, and other seats are unchanged |
| `Reservation.LayoutPreserved` | backend/nestjs-routes-api/src/buses/buses.service.ts:73-78 | reserving and cancelling keep the map's length and every seat's number, row, position and type |
| `Reservation.ReserveEffect` | backend/nestjs-routes-api/src/buses/buses.service.ts:71-79 | after a reservation every requested number names an occupied seat held by the user with `reservedAt` set; seats not named are unchanged |
| `Reservation.CancelEffect` | backend/nestjs-routes-api/src/buses/buses.service.ts:91-100 | after a cancellation every requested existing number names a free seat with null holder and time; seats not named are unchanged |
| `Reservation.CancelAfterReserve` | backend/nestjs-routes-api/src/buses/buses.service.ts:71-100 | cancelling seats just reserved gives the same map as cancelling alone |
| `Reservation.ReserveThenCancel` | backend/nestjs-routes-api/src/buses/buses.service.ts:71-100 | round trip: reserving validated seats of a consistent map and cancelling them restores the original map |
| `Reservation.CancelIdempotent` | backend/nestjs-routes-api/src/buses/buses.service.ts:91-100 | cancelling twice equals cancelling once |
| `Reservation.ConsistencyPreserved` | backend/nestjs-routes-api/src/buses/buses.service.ts:71-100 | reserve and cancel keep `isOccupied` ⇔ `reservedBy ≠ null` ⇔ `reservedAt ≠ null` for every seat |
| `Reservation.ReserveLowersAvailability` | backend/nestjs-routes-api/src/buses/buses.service.ts:71-79 | reserving n distinct free seats lowers `available_seats` by exactly n |
| `Reservation.CancelRaisesAvailability` | backend/nestjs-routes-api/src/buses/buses.service.ts:91-100 | cancelling n distinct occupied seats raises `available_seats` by exactly n |
| `Reservation.SecondReservationConflicts` | backend/nestjs-routes-api/src/buses/buses.service.ts:60-79 | after a successful reservation, any request naming one of its seats fails validation (no double booking) |
| `Buses.RowAndPosition` | backend/nestjs-routes-api/src/buses/buses.service.ts:126-127 | position ((i-1) mod 4)+1 lies in 1..4, and seat i = 4·(ceil(i/4)-1) + position |
| `Buses.GenerateSeatMap` | backend/nestjs-routes-api/src/buses/buses.service.ts:113-136 | n seats numbered 1..n in order, four to a row, premium iff number ≤ 4, occupied iff picked and then held by 'system' with a time, consistent, and exactly floor(0.3·n) occupied |
| `Buses.BusesService.Create` | backend/nestjs-routes-api/src/buses/buses.service.ts:16-26 | stores a fresh active bus under the next id, with a generated seat map and the given fields |
| `Buses.BusesService.FindAll` | backend/nestjs-routes-api/src/buses/buses.service.ts:28-33 | exactly the active buses |
| `Buses.BusesService.FindOne` | backend/nestjs-routes-api/src/buses/buses.service.ts:35-46 | the bus with that id, active or not, or NotFound naming the id |
| `Buses.BusesService.ReserveSeats` | backend/nestjs-routes-api/src/buses/buses.service.ts:54-83 | NotFound for an unknown id; otherwise the validation error with the seat map unchanged, or success with the map as `Reserved` describes; no other bus changes and the active flag stays |
| `Buses.BusesService.CancelSeats` | backend/nestjs-routes-api/src/buses/buses.service.ts:85-105 | NotFound for an unknown id; otherwise always success with the map as `Cancelled` describes, ignoring `user_id`; no other bus changes |
| `Buses.BusesService.Remove` | backend/nestjs-routes-api/src/buses/buses.service.ts:107-111 | NotFound for an unknown id; otherwise only `is_active` becomes false, the bus is still found by id and has left `findAll`; the result does not depend on the old flag (idempotent) |
| `Middleware.Normalize` | middleware.ts:7 | `/` stays `/`; otherwise exactly one trailing slash is removed, and a path without one is unchanged |
| `Middleware.GatesExclusive` | middleware.ts:33-51 | no path starts with two of `/superadmin`, `/operator`, `/account` |
| `Middleware.Decide` | middleware.ts:4-58 | public normalized paths pass; otherwise a missing token or an undecodable one goes to `/login`; with claims, `/superadmin…` passes iff the role is superadmin, `/operator…` iff operator or superadmin, `/account…` iff user, operator or superadmin, any other path passes, and denial goes to `/dashboard` |
| `Middleware.PublicPathsExactly` | middleware.ts:7-20 | the raw paths treated as public are exactly `/`, `//`, `/login`, `/login/`, `/register`, `/register/` |
| `Middleware.MissingRoleIsUser` | middleware.ts:30 | a missing or empty role is decided exactly like 'user' |
| `Middleware.PassingNeedsAuthentication` | middleware.ts:23-57 | a non-public path passes only with a present token that decodes |
| `Middleware.AdminAreasClosedToUsers` | middleware.ts:33-44 | a plain user asking for a `/superadmin…` or `/operator…` path is redirected to `/dashboard` |
| `Routes.ContainsIgnoringCaseBasics` | backend/nestjs-routes-api/src/routes/routes.service.ts:33-39 | an empty filter matches every text, and every text matches itself |
| `Routes.ContainsIgnoresCase` | backend/nestjs-routes-api/src/routes/routes.service.ts:33-39 | the substring match does not depend on the letter case of the field or of the filter |
| `Routes.Matching` | backend/nestjs-routes-api/src/routes/routes.service.ts:31-39 | a route is matched iff it is in the table, active, and passes each filter that is given |
| `Routes.Skip` | backend/nestjs-routes-api/src/routes/routes.service.ts:27 | the offset is a whole number of pages: divisible by the limit, with quotient page-1, and never negative |
| `Routes.CeilDiv` | backend/nestjs-routes-api/src/routes/routes.service.ts:50 | `totalPages` is the ceiling of total/limit: (q-1)·limit < total ≤ q·limit |
| `Routes.FindAll` | backend/nestjs-routes-api/src/routes/routes.service.ts:20-53 | page and limit echoed; total is the number of matches; data is the run of matches from (page-1)·limit, of length min(limit, what remains), each an active matching route of the table |
| `Routes.PageOfMatch` | backend/nestjs-routes-api/src/routes/routes.service.ts:27-44 | pages partition the matches: match i is entry i mod limit of page i div limit + 1 |
| `Routes.PageEntry` | backend/nestjs-routes-api/src/routes/routes.service.ts:27-44 | entry k of a page, for k below the limit, is the k-th match after the skipped ones whenever that match exists |
| `Routes.PageNonEmptyIffInRange` | backend/nestjs-routes-api/src/routes/routes.service.ts:41-52 | a page has data exactly when its number is at most `totalPages` |
| `Routes.IndexOf` | backend/nestjs-routes-api/src/routes/routes.service.ts:57 | -1 iff no route has the id; otherwise the first row with it |
| `Routes.FindOne` | backend/nestjs-routes-api/src/routes/routes.service.ts:55-66 | NotFound naming the id iff no route has it; otherwise a table row with that id, active or not |
| `Routes.ActiveBuses` | backend/nestjs-routes-api/src/routes/routes.service.ts:87 | a bus is kept iff it belongs to the relation and is active |
| `Routes.FindBusesByRoute` | backend/nestjs-routes-api/src/routes/routes.service.ts:68-89 | NotFound iff no route has the id; otherwise that route's summary fields and exactly its active buses |
| `Routes.RemovedRouteHidden` | backend/nestjs-routes-api/src/routes/routes.service.ts:97-101 | after a soft delete no page of `findAll` lists the route, while `findOne` still returns it, inactive |
| `Routes.RoutesService.Remove` | backend/nestjs-routes-api/src/routes/routes.service.ts:97-101 | NotFound and no change for an unknown id; otherwise only that row's `is_active` becomes false (idempotent) |

## Left out

- Concurrency: parallel reserve requests, and the race between reading and saving the seat map, are not modelled. Each operation is one atomic step.
- Persistence: TypeORM repositories, `save`, the query builder, JSON columns and row order are replaced by an in-memory map (buses) and a sequence (routes). The listing order is the table order.
- `update` in both services is not modelled. It copies an arbitrary DTO onto the row with `Object.assign`.
- Routes `create` is not modelled. It only stores the DTO.
- Randomness: the `Math.random` loop in `generateSeatMap` is replaced by the given set `picks`. Its termination is not modelled.
- Timestamps: `new Date()` is one clock value `now` per call. Separate readings for each seat are not distinguished.
- Bus fields with no part in the logic are not modelled: `type`, `operator`, departure and arrival times, `price`, `rating`, `amenities`, and the `route` relation.
- Input typing: ids, `total_seats`, `user_id`, `page` and `limit` are integers. The model does not cover fractional numbers, `NaN` ids from a non-numeric path segment, or query strings that JavaScript coerces to numbers.
- Routes.FindAll: requires page ≥ 1 and limit ≥ 1, which the source does not check. A page below 1 gives a negative offset that the database rejects. A limit of 0 makes TypeORM drop the `LIMIT` and makes `totalPages` Infinity or NaN.
- Routes.ContainsIgnoringCase: models `ILIKE '%x%'` as a substring match with ASCII lower-casing. `%`, `_` and `\` in the filter text are taken literally, not as SQL wildcards. Locale-dependent case folding is not modelled.
- Middleware: JWT decoding (`atob`/`JSON.parse`) is a parameter, either a decode failure or claims with an optional string role. Non-string roles are not modelled. The `config.matcher` that decides which requests reach the middleware is not part of this model.
- The booking service, the API gateway, the fetch clients, the auth context and the React pages are not part of this model.
