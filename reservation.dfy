/**
 * The seat-map logic of `reserveSeats` and `cancelSeats`
 * (backend/nestjs-routes-api/src/buses/buses.service.ts:54-105), on the
 * service's local copy of a bus's seat map.
 */
module Reservation {
  import opened Wrappers
  import opened Seats

  /** The two `BadRequestException`s `reserveSeats` raises, naming the seat. */
  datatype SeatError = DoesNotExist(seat: int) | AlreadyOccupied(seat: int)

  /** The first seat numbered n in the map, or -1 (the lookup the service does by seat number). */
  function FindIndex(m: seq<Seat>, n: int): (r: int)
    ensures -1 <= r < |m|
    ensures r == -1 <==> forall k | 0 <= k < |m| :: m[k].number != n
    ensures 0 <= r ==> m[r].number == n && forall k | 0 <= k < r :: m[k].number != n
  {
    if |m| == 0 then -1
    else if m[0].number == n then 0
    else
      var r := FindIndex(m[1..], n);
      assert forall k | 1 <= k < |m| :: m[k] == m[1..][k - 1];
      if r == -1 then -1 else r + 1
  }

  /** FindIndex looks at seat numbers only. */
  lemma SameNumbersSameIndex(m: seq<Seat>, m': seq<Seat>, n: int)
    requires |m| == |m'|
    requires forall k | 0 <= k < |m| :: m[k].number == m'[k].number
    ensures FindIndex(m, n) == FindIndex(m', n)
  {
  }

  /** Seat n exists and is not occupied: the two checks of lines 61-67. */
  predicate SeatFree(m: seq<Seat>, n: int) {
    var i := FindIndex(m, n);
    0 <= i && !m[i].isOccupied
  }

  /** The request position of the first seat number that fails the checks, or |req|. */
  function FirstBadRequest(m: seq<Seat>, req: seq<int>): (j: nat)
    ensures j <= |req|
    ensures forall i | 0 <= i < j :: SeatFree(m, req[i])
    ensures j < |req| ==> !SeatFree(m, req[j])
  {
    if |req| == 0 then 0
    else if !SeatFree(m, req[0]) then 0
    else
      var j := FirstBadRequest(m, req[1..]);
      assert forall i | 1 <= i < |req| :: req[i] == req[1..][i - 1];
      1 + j
  }

  /**
   * The outcome of the validation loop: no error when every requested seat
   * exists and is free; otherwise the error for the first failing seat in
   * request order, "does not exist" taking precedence over "already occupied".
   */
  function CheckSeats(m: seq<Seat>, req: seq<int>): (r: Option<SeatError>)
    ensures r.None? <==> forall j | 0 <= j < |req| :: SeatFree(m, req[j])
    ensures r.Some? ==>
      exists j | 0 <= j < |req| ::
        && r.value.seat == req[j]
        && (forall i | 0 <= i < j :: SeatFree(m, req[i]))
        && !SeatFree(m, req[j])
        && (r.value.DoesNotExist? <==> FindIndex(m, req[j]) == -1)
  {
    var j := FirstBadRequest(m, req);
    if j == |req| then None
    else if FindIndex(m, req[j]) == -1 then Some(DoesNotExist(req[j]))
    else Some(AlreadyOccupied(req[j]))
  }

  /** The for loop of lines 60-68: check every requested seat, stop at the first failure. */
  method ValidateSeats(m: seq<Seat>, req: seq<int>) returns (err: Option<SeatError>)
    ensures err == CheckSeats(m, req)
  {
    for i := 0 to |req|
      invariant forall j | 0 <= j < i :: SeatFree(m, req[j])
    {
      var idx := FindIndex(m, req[i]);
      if idx == -1 {
        return Some(DoesNotExist(req[i]));
      }
      if m[idx].isOccupied {
        return Some(AlreadyOccupied(req[i]));
      }
    }
    return None;
  }

  /**
   * Seat k is one the request writes to: its number is requested and it is
   * the first seat with that number (the one `findIndex` returns).
   */
  predicate Named(m: seq<Seat>, req: seq<int>, k: int)
    requires 0 <= k < |m|
  {
    m[k].number in req && FindIndex(m, m[k].number) == k
  }

  /** The seat, now occupied by the holder at time t; its layout is kept. */
  function Occupy(s: Seat, holder: Holder, t: Timestamp): Seat {
    s.(isOccupied := true, reservedBy := Some(holder), reservedAt := Some(t))
  }

  /** The seat, now free with neither holder nor time; its layout is kept. */
  function Release(s: Seat): Seat {
    s.(isOccupied := false, reservedBy := None, reservedAt := None)
  }

  /** The seat map after a reservation: every named seat occupied by the holder, the rest as before. */
  function Reserved(m: seq<Seat>, req: seq<int>, holder: Holder, t: Timestamp): seq<Seat> {
    seq(|m|, k requires 0 <= k < |m| => if Named(m, req, k) then Occupy(m[k], holder, t) else m[k])
  }

  /** The seat map after a cancellation: every named seat released, the rest as before. */
  function Cancelled(m: seq<Seat>, req: seq<int>): seq<Seat> {
    seq(|m|, k requires 0 <= k < |m| => if Named(m, req, k) then Release(m[k]) else m[k])
  }

  /** Membership in a growing prefix of the request. */
  lemma InPrefix(req: seq<int>, i: int, x: int)
    requires 0 <= i < |req|
    ensures (x in req[..i + 1]) <==> (x in req[..i] || x == req[i])
  {
    assert req[..i + 1] == req[..i] + [req[i]];
  }

  /**
   * The write loop of lines 71-79: look each requested seat up again in the
   * copy and overwrite it. Validation has already found every seat.
   */
  method ApplyReservation(m: seq<Seat>, req: seq<int>, holder: Holder, t: Timestamp) returns (r: seq<Seat>)
    requires forall j | 0 <= j < |req| :: FindIndex(m, req[j]) != -1
    ensures r == Reserved(m, req, holder, t)
  {
    r := m;
    for i := 0 to |req|
      invariant |r| == |m|
      invariant forall k | 0 <= k < |m| ::
        r[k] == if m[k].number in req[..i] && FindIndex(m, m[k].number) == k then Occupy(m[k], holder, t) else m[k]
    {
      SameNumbersSameIndex(m, r, req[i]);
      var idx := FindIndex(r, req[i]);
      forall x ensures (x in req[..i + 1]) <==> (x in req[..i] || x == req[i]) { InPrefix(req, i, x); }
      r := r[idx := Occupy(r[idx], holder, t)];
    }
    assert req[..|req|] == req;
  }

  /** The loop of lines 90-102: release every requested seat that exists, skip the rest. */
  method ApplyCancellation(m: seq<Seat>, req: seq<int>) returns (r: seq<Seat>)
    ensures r == Cancelled(m, req)
  {
    r := m;
    for i := 0 to |req|
      invariant |r| == |m|
      invariant forall k | 0 <= k < |m| ::
        r[k] == if m[k].number in req[..i] && FindIndex(m, m[k].number) == k then Release(m[k]) else m[k]
    {
      SameNumbersSameIndex(m, r, req[i]);
      var idx := FindIndex(r, req[i]);
      forall x ensures (x in req[..i + 1]) <==> (x in req[..i] || x == req[i]) { InPrefix(req, i, x); }
      if idx != -1 {
        r := r[idx := Release(r[idx])];
      }
    }
    assert req[..|req|] == req;
  }

  /** Reservation and cancellation change occupancy only: the layout of every seat stays. */
  lemma {:induction false} LayoutPreserved(m: seq<Seat>, req: seq<int>, holder: Holder, t: Timestamp)
    ensures |Reserved(m, req, holder, t)| == |m| && |Cancelled(m, req)| == |m|
    ensures forall k | 0 <= k < |m| ::
      SameLayout(Reserved(m, req, holder, t)[k], m[k]) && SameLayout(Cancelled(m, req)[k], m[k])
  {
  }

  /**
   * After a reservation every requested seat number names a seat that is
   * occupied by the holder with the reservation time set; a seat whose number
   * was not requested is unchanged.
   */
  lemma ReserveEffect(m: seq<Seat>, req: seq<int>, holder: Holder, t: Timestamp)
    requires forall j | 0 <= j < |req| :: FindIndex(m, req[j]) != -1
    ensures forall j | 0 <= j < |req| ::
      var r, k := Reserved(m, req, holder, t), FindIndex(Reserved(m, req, holder, t), req[j]);
      0 <= k && r[k].isOccupied && r[k].reservedBy == Some(holder) && r[k].reservedAt == Some(t)
    ensures forall k | 0 <= k < |m| && m[k].number !in req :: Reserved(m, req, holder, t)[k] == m[k]
  {
    var r := Reserved(m, req, holder, t);
    forall j | 0 <= j < |req|
      ensures 0 <= FindIndex(r, req[j]) && r[FindIndex(r, req[j])].isOccupied
      ensures r[FindIndex(r, req[j])].reservedBy == Some(holder) && r[FindIndex(r, req[j])].reservedAt == Some(t)
    {
      SameNumbersSameIndex(m, r, req[j]);
      var k := FindIndex(m, req[j]);
      assert Named(m, req, k);
    }
  }

  /**
   * After a cancellation every requested seat number that exists names a
   * free seat with no holder and no reservation time; unknown numbers are
   * skipped and seats whose number was not requested are unchanged.
   */
  lemma CancelEffect(m: seq<Seat>, req: seq<int>)
    ensures forall j | 0 <= j < |req| && FindIndex(m, req[j]) != -1 ::
      var r, k := Cancelled(m, req), FindIndex(Cancelled(m, req), req[j]);
      0 <= k && !r[k].isOccupied && r[k].reservedBy == None && r[k].reservedAt == None
    ensures forall k | 0 <= k < |m| && m[k].number !in req :: Cancelled(m, req)[k] == m[k]
  {
    var r := Cancelled(m, req);
    forall j | 0 <= j < |req| && FindIndex(m, req[j]) != -1
      ensures 0 <= FindIndex(r, req[j]) && !r[FindIndex(r, req[j])].isOccupied
      ensures r[FindIndex(r, req[j])].reservedBy == None && r[FindIndex(r, req[j])].reservedAt == None
    {
      SameNumbersSameIndex(m, r, req[j]);
      var k := FindIndex(m, req[j]);
      assert Named(m, req, k);
    }
  }

  /** Cancelling what was just reserved is the same as cancelling alone. */
  lemma CancelAfterReserve(m: seq<Seat>, req: seq<int>, holder: Holder, t: Timestamp)
    ensures Cancelled(Reserved(m, req, holder, t), req) == Cancelled(m, req)
  {
    var r := Reserved(m, req, holder, t);
    forall n ensures FindIndex(r, n) == FindIndex(m, n) { SameNumbersSameIndex(m, r, n); }
    assert forall k | 0 <= k < |m| :: Named(r, req, k) == Named(m, req, k);
  }

  /**
   * Round trip: reserving seats that validation accepted and then cancelling
   * the same seats gives back the original seat map, when its seats were
   * consistent.
   */
  lemma ReserveThenCancel(m: seq<Seat>, req: seq<int>, holder: Holder, t: Timestamp)
    requires AllConsistent(m)
    requires CheckSeats(m, req).None?
    ensures Cancelled(Reserved(m, req, holder, t), req) == m
  {
    CancelAfterReserve(m, req, holder, t);
    forall k | 0 <= k < |m| && Named(m, req, k) ensures Release(m[k]) == m[k] {
      var j :| 0 <= j < |req| && req[j] == m[k].number;
      assert SeatFree(m, req[j]);
    }
  }

  /** Cancelling twice is the same as cancelling once. */
  lemma CancelIdempotent(m: seq<Seat>, req: seq<int>)
    ensures Cancelled(Cancelled(m, req), req) == Cancelled(m, req)
  {
    var c := Cancelled(m, req);
    forall n ensures FindIndex(c, n) == FindIndex(m, n) { SameNumbersSameIndex(m, c, n); }
    assert forall k | 0 <= k < |m| :: Named(c, req, k) == Named(m, req, k);
  }

  /** Reservation and cancellation keep occupancy, holder and time in agreement. */
  lemma {:induction false} ConsistencyPreserved(m: seq<Seat>, req: seq<int>, holder: Holder, t: Timestamp)
    requires AllConsistent(m)
    ensures AllConsistent(Reserved(m, req, holder, t))
    ensures AllConsistent(Cancelled(m, req))
  {
  }

  /** Reserving one more seat number writes exactly one more seat. */
  lemma ReservedSnoc(m: seq<Seat>, req: seq<int>, x: int, holder: Holder, t: Timestamp)
    requires FindIndex(m, x) != -1
    ensures Reserved(m, req + [x], holder, t)
         == Reserved(m, req, holder, t)[FindIndex(m, x) := Occupy(m[FindIndex(m, x)], holder, t)]
  {
    forall y ensures (y in req + [x]) <==> (y in req || y == x) {
      assert y in req + [x] ==> (exists j | 0 <= j < |req| + 1 :: (req + [x])[j] == y);
    }
  }

  /** Cancelling one more seat number releases exactly one more seat. */
  lemma CancelledSnoc(m: seq<Seat>, req: seq<int>, x: int)
    requires FindIndex(m, x) != -1
    ensures Cancelled(m, req + [x]) == Cancelled(m, req)[FindIndex(m, x) := Release(m[FindIndex(m, x)])]
  {
    forall y ensures (y in req + [x]) <==> (y in req || y == x) {
      assert y in req + [x] ==> (exists j | 0 <= j < |req| + 1 :: (req + [x])[j] == y);
    }
  }

  /** No seat number is requested twice. */
  predicate Distinct(req: seq<int>) {
    forall i, j | 0 <= i < j < |req| :: req[i] != req[j]
  }

  /** Reserving n distinct free seats lowers `available_seats` by exactly n. */
  lemma {:induction false} ReserveLowersAvailability(m: seq<Seat>, req: seq<int>, holder: Holder, t: Timestamp)
    requires Distinct(req)
    requires forall j | 0 <= j < |req| :: SeatFree(m, req[j])
    ensures AvailableSeats(Reserved(m, req, holder, t)) == AvailableSeats(m) - |req|
  {
    if |req| == 0 {
      assert Reserved(m, req, holder, t) == m;
    } else {
      var p, x := req[..|req| - 1], req[|req| - 1];
      assert req == p + [x];
      assert SeatFree(m, x);
      ReserveLowersAvailability(m, p, holder, t);
      ReservedSnoc(m, p, x, holder, t);
      var k := FindIndex(m, x);
      assert x !in p;
      assert Reserved(m, p, holder, t)[k] == m[k];
      OccupyingLowersAvailability(Reserved(m, p, holder, t), k, Occupy(m[k], holder, t));
    }
  }

  /** Seat n exists and is occupied. */
  predicate SeatTaken(m: seq<Seat>, n: int) {
    var i := FindIndex(m, n);
    0 <= i && m[i].isOccupied
  }

  /** Cancelling n distinct occupied seats raises `available_seats` by exactly n. */
  lemma {:induction false} CancelRaisesAvailability(m: seq<Seat>, req: seq<int>)
    requires Distinct(req)
    requires forall j | 0 <= j < |req| :: SeatTaken(m, req[j])
    ensures AvailableSeats(Cancelled(m, req)) == AvailableSeats(m) + |req|
  {
    if |req| == 0 {
      assert Cancelled(m, req) == m;
    } else {
      var p, x := req[..|req| - 1], req[|req| - 1];
      assert req == p + [x];
      assert SeatTaken(m, x);
      CancelRaisesAvailability(m, p);
      CancelledSnoc(m, p, x);
      var k := FindIndex(m, x);
      assert x !in p;
      assert Cancelled(m, p)[k] == m[k];
      FreeingRaisesAvailability(Cancelled(m, p), k, Release(m[k]));
    }
  }

  /**
   * No double booking: once a reservation has gone through, any later request
   * that names one of its seat numbers fails validation.
   */
  lemma SecondReservationConflicts(m: seq<Seat>, req: seq<int>, holder: Holder, t: Timestamp, req2: seq<int>, x: int)
    requires CheckSeats(m, req).None?
    requires x in req && x in req2
    ensures CheckSeats(Reserved(m, req, holder, t), req2).Some?
  {
    ReserveEffect(m, req, holder, t);
    var j :| 0 <= j < |req| && req[j] == x;
    var j2 :| 0 <= j2 < |req2| && req2[j2] == x;
    assert !SeatFree(Reserved(m, req, holder, t), req2[j2]);
  }
}
