/**
 * The bus entity (backend/nestjs-routes-api/src/buses/entities/bus.entity.ts)
 * and the buses service (backend/nestjs-routes-api/src/buses/buses.service.ts):
 * a store of buses keyed by id, each owning its seat map.
 */
module Buses {
  import opened Wrappers
  import opened Seats
  import opened Reservation

  /** The fields of `CreateBusDto` that take part in the logic. */
  datatype CreateBus = CreateBus(busNumber: string, totalSeats: int, routeId: int)

  /** `NotFoundException` for an unknown bus id, `BadRequestException` for a bad seat. */
  datatype BusError = NotFound(id: int) | BadRequest(reason: SeatError)

  /** A bus row; `seat_map` and `is_active` are the fields the service assigns. */
  class Bus {
    const id: int
    const busNumber: string
    const totalSeats: int
    const routeId: int
    var seatMap: seq<Seat>
    var isActive: bool

    /** A new bus is active: `is_active` defaults to true. */
    constructor (id: int, dto: CreateBus, seatMap: seq<Seat>)
      ensures this.id == id && busNumber == dto.busNumber
      ensures totalSeats == dto.totalSeats && routeId == dto.routeId
      ensures this.seatMap == seatMap && isActive
    {
      this.id := id;
      busNumber := dto.busNumber;
      totalSeats := dto.totalSeats;
      routeId := dto.routeId;
      this.seatMap := seatMap;
      isActive := true;
    }

    /** The `available_seats` getter: a read-only count of the free seats. */
    function AvailableSeats(): (r: nat)
      reads this
      ensures r == |FreeIndices(seatMap)|
      ensures r <= |seatMap|
      ensures r == |seatMap| <==> forall k | 0 <= k < |seatMap| :: !seatMap[k].isOccupied
    {
      AvailableSeatsCountsFreeSeats(seatMap);
      AllFreeIffFullyAvailable(seatMap);
      Seats.AvailableSeats(seatMap)
    }
  }

  /**
   * What the random loop of lines 119-121 produces: floor(0.3 * totalSeats)
   * distinct seat numbers between 1 and totalSeats.
   */
  predicate RandomPicks(totalSeats: int, picks: set<int>) {
    && (forall x | x in picks :: 1 <= x <= totalSeats)
    && |picks| == if totalSeats <= 0 then 0 else (3 * totalSeats) / 10
  }

  /**
   * The layout `generateSeatMap` promises: seats 1..totalSeats in order, four
   * to a row, the first four premium, the picked seats held by 'system'.
   */
  predicate LaidOut(seats: seq<Seat>, totalSeats: int, picks: set<int>, now: Timestamp) {
    && |seats| == (if totalSeats <= 0 then 0 else totalSeats)
    && forall k | 0 <= k < |seats| ::
      var s := seats[k];
      && s.number == k + 1
      && 1 <= s.position <= 4
      && s.number == 4 * (s.row - 1) + s.position
      && (s.seatType == Premium <==> s.number <= 4)
      && (s.isOccupied <==> s.number in picks)
      && s.reservedBy == (if s.isOccupied then Some(System) else None)
      && s.reservedAt == (if s.isOccupied then Some(now) else None)
  }

  /** Seat i sits in row ceil(i/4) at position ((i-1) mod 4)+1: rows of four, left to right. */
  lemma RowAndPosition(i: int)
    requires 1 <= i
    ensures 1 <= (i - 1) % 4 + 1 <= 4
    ensures i == 4 * ((i + 3) / 4 - 1) + ((i - 1) % 4 + 1)
  {
  }

  /** Appending seat i, laid out as generateSeatMap lays it out, extends the layout by one seat. */
  lemma LaidOutAppend(seats: seq<Seat>, i: int, picks: set<int>, now: Timestamp, seat: Seat)
    requires 1 <= i && LaidOut(seats, i - 1, picks, now)
    requires seat.number == i && 1 <= seat.position <= 4 && i == 4 * (seat.row - 1) + seat.position
    requires (seat.seatType == Premium <==> i <= 4) && (seat.isOccupied <==> i in picks)
    requires seat.reservedBy == (if seat.isOccupied then Some(System) else None)
    requires seat.reservedAt == (if seat.isOccupied then Some(now) else None)
    ensures LaidOut(seats + [seat], i, picks, now)
  {
    var r := seats + [seat];
    assert forall k | 0 <= k < |seats| :: r[k] == seats[k];
  }

  /** `generateSeatMap(totalSeats)`, with the random choice of occupied seats given as `picks`. */
  method GenerateSeatMap(totalSeats: int, picks: set<int>, now: Timestamp) returns (seats: seq<Seat>)
    requires RandomPicks(totalSeats, picks)
    ensures LaidOut(seats, totalSeats, picks, now)
    ensures AllConsistent(seats)
    ensures |seats| - AvailableSeats(seats) == if totalSeats <= 0 then 0 else (3 * totalSeats) / 10
  {
    var n := if totalSeats <= 0 then 0 else totalSeats;
    seats := [];
    for i := 1 to n + 1
      invariant |seats| == i - 1
      invariant LaidOut(seats, i - 1, picks, now)
      invariant |seats| - AvailableSeats(seats) == |set x | x in picks && x < i|
    {
      var occupied := i in picks;
      var seat := Seat(
        i,
        (i + 3) / 4,
        (i - 1) % 4 + 1,
        occupied,
        if i <= 4 then Premium else Standard,
        if occupied then Some(System) else None,
        if occupied then Some(now) else None);
      RowAndPosition(i);
      LaidOutAppend(seats, i, picks, now, seat);
      AvailableSeatsAppend(seats, seat);
      PicksBelowStep(picks, i);
      seats := seats + [seat];
    }
    assert (set x | x in picks && x < n + 1) == picks;
    LaidOutConsistent(seats, totalSeats, picks, now);
  }

  /** A laid-out map is consistent: occupied seats, and only they, have a holder and a time. */
  lemma LaidOutConsistent(seats: seq<Seat>, totalSeats: int, picks: set<int>, now: Timestamp)
    requires LaidOut(seats, totalSeats, picks, now)
    ensures AllConsistent(seats)
  {
  }

  /** The picked numbers below i + 1 are those below i, and i when it is picked. */
  lemma PicksBelowStep(picks: set<int>, i: int)
    ensures |set x | x in picks && x < i + 1| == |set x | x in picks && x < i| + (if i in picks then 1 else 0)
  {
    var below := set x | x in picks && x < i;
    assert (set x | x in picks && x < i + 1) == below + (if i in picks then {i} else {});
  }

  /** The service: the bus table as a map from id to bus, and the next generated id. */
  class BusesService {
    var buses: map<int, Bus>
    var nextId: int

    /** Every bus is stored under its own id, below the next id to hand out. */
    ghost predicate Valid()
      reads this
    {
      forall id | id in buses :: buses[id].id == id && id < nextId
    }

    constructor ()
      ensures Valid() && buses == map[] && nextId == 1
    {
      buses := map[];
      nextId := 1;
    }

    /** `create`: a new active bus with a freshly generated seat map under the next id. */
    method Create(dto: CreateBus, picks: set<int>, now: Timestamp) returns (bus: Bus)
      requires Valid()
      requires RandomPicks(dto.totalSeats, picks)
      modifies this
      ensures Valid() && fresh(bus)
      ensures bus.id == old(nextId) && buses == old(buses)[bus.id := bus]
      ensures bus.isActive && bus.busNumber == dto.busNumber
      ensures bus.totalSeats == dto.totalSeats && bus.routeId == dto.routeId
      ensures LaidOut(bus.seatMap, dto.totalSeats, picks, now) && AllConsistent(bus.seatMap)
    {
      var seatMap := GenerateSeatMap(dto.totalSeats, picks, now);
      bus := new Bus(nextId, dto, seatMap);
      buses := buses[nextId := bus];
      nextId := nextId + 1;
    }

    /** `findAll`: the active buses only. */
    function FindAll(): (r: map<int, Bus>)
      reads this, buses.Values
      ensures r.Keys <= buses.Keys
      ensures forall id | id in buses :: id in r <==> buses[id].isActive
      ensures forall id | id in r :: r[id] == buses[id]
    {
      map id | id in buses && buses[id].isActive :: buses[id]
    }

    /** `findOne`: the bus with this id, active or not, or NotFound. */
    function FindOne(id: int): (r: Result<Bus, BusError>)
      requires Valid()
      reads this
      ensures r.Success? <==> id in buses
      ensures r.Success? ==> r.value == buses[id] && r.value.id == id
      ensures r.Failure? ==> r.error == NotFound(id)
    {
      if id in buses then Success(buses[id]) else Failure(NotFound(id))
    }

    /**
     * `reserveSeats`: validate every requested seat, then occupy them all, or
     * fail and change nothing. Only the named bus's seat map can change.
     */
    method ReserveSeats(id: int, seatNumbers: seq<int>, userId: int, now: Timestamp)
      returns (r: Result<Bus, BusError>)
      requires Valid()
      requires |seatNumbers| > 0
      modifies if id in buses then {buses[id]} else {}
      ensures Valid() && buses == old(buses)
      ensures id !in buses ==> r == Failure(NotFound(id))
      ensures id in buses ==>
        var before := old(buses[id].seatMap);
        && buses[id].isActive == old(buses[id].isActive)
        && (CheckSeats(before, seatNumbers).Some? ==>
              r == Failure(BadRequest(CheckSeats(before, seatNumbers).value)) && buses[id].seatMap == before)
        && (CheckSeats(before, seatNumbers).None? ==>
              r == Success(buses[id]) && buses[id].seatMap == Reserved(before, seatNumbers, User(userId), now))
      ensures forall j | j in buses && j != id :: buses[j].seatMap == old(buses[j].seatMap)
    {
      var found := FindOne(id);
      if found.Failure? {
        return Failure(found.error);
      }
      var bus := found.value;
      var seatMap := bus.seatMap;
      var err := ValidateSeats(seatMap, seatNumbers);
      if err.Some? {
        return Failure(BadRequest(err.value));
      }
      seatMap := ApplyReservation(seatMap, seatNumbers, User(userId), now);
      bus.seatMap := seatMap;
      return Success(bus);
    }

    /**
     * `cancelSeats`: release every requested seat that exists. Never fails for
     * an existing bus; `userId` is not checked against the holder.
     */
    method CancelSeats(id: int, seatNumbers: seq<int>, userId: int)
      returns (r: Result<Bus, BusError>)
      requires Valid()
      requires |seatNumbers| > 0
      modifies if id in buses then {buses[id]} else {}
      ensures Valid() && buses == old(buses)
      ensures id !in buses ==> r == Failure(NotFound(id))
      ensures id in buses ==>
        && r == Success(buses[id])
        && buses[id].isActive == old(buses[id].isActive)
        && buses[id].seatMap == Cancelled(old(buses[id].seatMap), seatNumbers)
      ensures forall j | j in buses && j != id :: buses[j].seatMap == old(buses[j].seatMap)
    {
      var found := FindOne(id);
      if found.Failure? {
        return Failure(found.error);
      }
      var bus := found.value;
      var seatMap := ApplyCancellation(bus.seatMap, seatNumbers);
      bus.seatMap := seatMap;
      return Success(bus);
    }

    /**
     * `remove`: a soft delete. The bus stays findable by id but leaves
     * `findAll`; the final state does not depend on the old flag, so removing
     * twice is the same as removing once.
     */
    method Remove(id: int) returns (r: Result<(), BusError>)
      requires Valid()
      modifies if id in buses then {buses[id]} else {}
      ensures Valid() && buses == old(buses)
      ensures id !in buses ==> r == Failure(NotFound(id))
      ensures id in buses ==>
        && r == Success(())
        && !buses[id].isActive
        && buses[id].seatMap == old(buses[id].seatMap)
        && FindOne(id) == Success(buses[id])
        && id !in FindAll()
      ensures forall j | j in buses && j != id ::
        buses[j].isActive == old(buses[j].isActive) && buses[j].seatMap == old(buses[j].seatMap)
    {
      var found := FindOne(id);
      if found.Failure? {
        return Failure(found.error);
      }
      var bus := found.value;
      bus.isActive := false;
      return Success(());
    }
  }
}
