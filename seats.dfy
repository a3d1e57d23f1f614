/**
 * The `Seat` record of the bus entity and the `available_seats` getter
 * (backend/nestjs-routes-api/src/buses/entities/bus.entity.ts).
 */
module Seats {
  import opened Wrappers

  /** A reading of the clock (`new Date()`), supplied by the caller. */
  type Timestamp = int

  /**
   * Whoever holds a seat: seats pre-occupied when the map is generated are
   * held by the string 'system', reserved seats by the numeric `user_id`.
   */
  datatype Holder = System | User(userId: int)

  /** `type: 'premium' | 'standard'`: exactly two seat classes. */
  datatype SeatType = Premium | Standard

  /** Layout (`number`, `row`, `position`, `seatType`) and occupancy of one seat. */
  datatype Seat = Seat(
    number: int,
    row: int,
    position: int,
    isOccupied: bool,
    seatType: SeatType,
    reservedBy: Option<Holder>,
    reservedAt: Option<Timestamp>)

  /** A seat is occupied exactly when it has a holder, exactly when it has a reservation time. */
  predicate Consistent(s: Seat) {
    (s.isOccupied <==> s.reservedBy.Some?) && (s.isOccupied <==> s.reservedAt.Some?)
  }

  predicate AllConsistent(m: seq<Seat>) {
    forall k | 0 <= k < |m| :: Consistent(m[k])
  }

  /** Two seats agree on the fixed layout fields. */
  predicate SameLayout(a: Seat, b: Seat) {
    a.number == b.number && a.row == b.row && a.position == b.position && a.seatType == b.seatType
  }

  /** The `available_seats` getter: how many seats of the map are not occupied. */
  function AvailableSeats(m: seq<Seat>): (r: nat)
    ensures r <= |m|
  {
    if |m| == 0 then 0
    else AvailableSeats(m[..|m| - 1]) + (if m[|m| - 1].isOccupied then 0 else 1)
  }

  /** The positions of the free seats: an independent description of what the getter counts. */
  function FreeIndices(m: seq<Seat>): set<int> {
    set k | 0 <= k < |m| && !m[k].isOccupied
  }

  /** The getter counts exactly the seats with `isOccupied = false`. */
  lemma {:induction false} AvailableSeatsCountsFreeSeats(m: seq<Seat>)
    ensures AvailableSeats(m) == |FreeIndices(m)|
  {
    if |m| > 0 {
      var p := m[..|m| - 1];
      AvailableSeatsCountsFreeSeats(p);
      var last := if m[|m| - 1].isOccupied then {} else {|m| - 1};
      assert FreeIndices(m) == FreeIndices(p) + last;
      assert FreeIndices(p) !! last;
    }
  }

  /** Every seat is free exactly when the getter reports the full seat count. */
  lemma {:induction false} AllFreeIffFullyAvailable(m: seq<Seat>)
    ensures (forall k | 0 <= k < |m| :: !m[k].isOccupied) <==> AvailableSeats(m) == |m|
  {
    if |m| > 0 {
      var p := m[..|m| - 1];
      AllFreeIffFullyAvailable(p);
      assert forall k | 0 <= k < |p| :: p[k] == m[k];
    }
  }

  /** Replacing one seat changes the count by that seat's own contribution only. */
  lemma {:induction false} AvailableSeatsAfterUpdate(m: seq<Seat>, k: int, s: Seat)
    requires 0 <= k < |m|
    ensures AvailableSeats(m[k := s])
         == AvailableSeats(m) - (if m[k].isOccupied then 0 else 1) + (if s.isOccupied then 0 else 1)
  {
    var n := m[k := s];
    if k == |m| - 1 {
      assert n[..|n| - 1] == m[..|m| - 1];
    } else {
      assert n[..|n| - 1] == m[..|m| - 1][k := s];
      AvailableSeatsAfterUpdate(m[..|m| - 1], k, s);
    }
  }

  /** Flipping one free seat to occupied lowers the count by exactly one. */
  lemma OccupyingLowersAvailability(m: seq<Seat>, k: int, s: Seat)
    requires 0 <= k < |m| && !m[k].isOccupied && s.isOccupied
    ensures AvailableSeats(m[k := s]) == AvailableSeats(m) - 1
  {
    AvailableSeatsAfterUpdate(m, k, s);
  }

  /** Flipping one occupied seat to free raises the count by exactly one. */
  lemma FreeingRaisesAvailability(m: seq<Seat>, k: int, s: Seat)
    requires 0 <= k < |m| && m[k].isOccupied && !s.isOccupied
    ensures AvailableSeats(m[k := s]) == AvailableSeats(m) + 1
  {
    AvailableSeatsAfterUpdate(m, k, s);
  }

  /** Appending a seat adds one to the count when that seat is free. */
  lemma AvailableSeatsAppend(m: seq<Seat>, s: Seat)
    ensures AvailableSeats(m + [s]) == AvailableSeats(m) + (if s.isOccupied then 0 else 1)
  {
    assert (m + [s])[..|m|] == m;
  }
}
