/**
 * The routes service (backend/nestjs-routes-api/src/routes/routes.service.ts):
 * the listing query as filter-then-slice over the route table, lookup by id,
 * a route's active buses, and soft delete.
 */
module Routes {
  import opened Wrappers

  /** A bus of a route's `buses` relation; only the flag the service reads is kept. */
  datatype BusRow = BusRow(id: int, isActive: bool)

  /** A route row together with its loaded `buses` relation. */
  datatype Route = Route(
    id: int,
    name: string,
    source: string,
    destination: string,
    distance: string,
    duration: string,
    isActive: bool,
    buses: seq<BusRow>)

  /** The fields `findBusesByRoute` copies into its `route` summary. */
  datatype RouteSummary = RouteSummary(
    id: int, name: string, source: string, destination: string, distance: string, duration: string)

  datatype RouteBuses = RouteBuses(route: RouteSummary, buses: seq<BusRow>)

  /** The object `findAll` returns. */
  datatype RoutePage = RoutePage(data: seq<Route>, total: int, page: int, limit: int, totalPages: int)

  datatype RouteError = NotFound(id: int)

  /** Lower-casing of ASCII letters, as ILIKE compares. */
  function ToLower(c: char): char {
    if 'A' <= c <= 'Z' then (c as int + 32) as char else c
  }

  function LowerString(s: string): (r: string)
    ensures |r| == |s| && forall i | 0 <= i < |s| :: r[i] == ToLower(s[i])
  {
    seq(|s|, i requires 0 <= i < |s| => ToLower(s[i]))
  }

  /** pattern occurs in text starting at position i. */
  predicate OccursAt(text: string, pattern: string, i: int) {
    0 <= i <= |text| - |pattern| && text[i..i + |pattern|] == pattern
  }

  /** The ILIKE substring test: pattern occurs in text, ignoring case. */
  predicate ContainsIgnoringCase(text: string, pattern: string) {
    exists i | 0 <= i <= |text| - |pattern| :: OccursAt(LowerString(text), LowerString(pattern), i)
  }

  /** The empty pattern is found in every text, and every text is found in itself. */
  lemma ContainsIgnoringCaseBasics(text: string)
    ensures ContainsIgnoringCase(text, "")
    ensures ContainsIgnoringCase(text, text)
  {
    assert OccursAt(LowerString(text), LowerString(""), 0);
    assert OccursAt(LowerString(text), LowerString(text), 0);
  }

  /** The match does not depend on the letter case of either side. */
  lemma ContainsIgnoresCase(text: string, pattern: string)
    ensures ContainsIgnoringCase(text, pattern) == ContainsIgnoringCase(LowerString(text), pattern)
    ensures ContainsIgnoringCase(text, pattern) == ContainsIgnoringCase(text, LowerString(pattern))
  {
    assert LowerString(LowerString(text)) == LowerString(text);
    assert LowerString(LowerString(pattern)) == LowerString(pattern);
  }

  /**
   * The WHERE clause: an active route, and when a source or destination
   * filter is given (present and non-empty) the field matches it.
   */
  predicate Matches(r: Route, source: Option<string>, destination: Option<string>) {
    && r.isActive
    && (source.None? || source.value == "" || ContainsIgnoringCase(r.source, source.value))
    && (destination.None? || destination.value == "" || ContainsIgnoringCase(r.destination, destination.value))
  }

  /** The rows the query matches, in table order. */
  function Matching(routes: seq<Route>, source: Option<string>, destination: Option<string>): (r: seq<Route>)
    ensures |r| <= |routes|
    ensures forall x :: x in r <==> x in routes && Matches(x, source, destination)
  {
    if |routes| == 0 then []
    else
      var rest := Matching(routes[1..], source, destination);
      assert forall x :: x in routes <==> x == routes[0] || x in routes[1..];
      if Matches(routes[0], source, destination) then [routes[0]] + rest else rest
  }

  function Min(a: int, b: int): int { if a <= b then a else b }

  /** The ceiling of total / limit for a positive limit (`totalPages`). */
  function CeilDiv(total: nat, limit: int): (q: int)
    requires limit >= 1
    ensures (q - 1) * limit < total <= q * limit
  {
    CeilDivBounds(total, limit);
    (total + limit - 1) / limit
  }

  lemma CeilDivBounds(total: nat, limit: int)
    requires limit >= 1
    ensures ((total + limit - 1) / limit - 1) * limit < total <= ((total + limit - 1) / limit) * limit
  {
    var q, m := (total + limit - 1) / limit, (total + limit - 1) % limit;
    assert total + limit - 1 == q * limit + m;
    assert q * limit - limit == (q - 1) * limit;
  }

  /** The number of matches before the page: a whole number of pages, page - 1 of them. */
  function Skip(page: int, limit: int): (s: nat)
    requires page >= 1 && limit >= 1
    ensures s % limit == 0 && s / limit == page - 1
  {
    MulDivExact(page - 1, limit);
    (page - 1) * limit
  }

  lemma MulDivExact(q: nat, limit: int)
    requires limit >= 1
    ensures q * limit >= 0 && (q * limit) % limit == 0 && (q * limit) / limit == q
  {
    var x := q * limit;
    MulMonotonic(0, q, limit);
    DivModByLimit(x, limit);
    var d, m := x / limit, x % limit;
    assert (q - d) * limit == m;
    if q - d >= 1 {
      MulMonotonic(1, q - d, limit);
    } else if q - d <= -1 {
      MulMonotonic(q - d, -1, limit);
    }
  }

  /**
   * `findAll`: skip `(page - 1) * limit` matching routes, take at most
   * `limit`, and report the total number of matches and of pages.
   */
  function FindAll(routes: seq<Route>, source: Option<string>, destination: Option<string>, page: int, limit: int)
    : (r: RoutePage)
    requires page >= 1 && limit >= 1
    ensures r.page == page && r.limit == limit
    ensures r.total == |Matching(routes, source, destination)|
    ensures (r.totalPages - 1) * limit < r.total <= r.totalPages * limit
    ensures |r.data| == Min(limit, if r.total <= Skip(page, limit) then 0 else r.total - Skip(page, limit))
    ensures forall i | 0 <= i < |r.data| ::
      Skip(page, limit) + i < r.total && r.data[i] == Matching(routes, source, destination)[Skip(page, limit) + i]
    ensures forall x | x in r.data :: x in routes && Matches(x, source, destination)
  {
    var matching := Matching(routes, source, destination);
    var skip := Skip(page, limit);
    var total := |matching|;
    var data := if total <= skip then [] else matching[skip..Min(skip + limit, total)];
    RoutePage(data, total, page, limit, CeilDiv(total, limit))
  }

  /** Division with remainder by the page size. */
  lemma DivModByLimit(i: nat, limit: int)
    requires limit >= 1
    ensures i / limit >= 0 && 0 <= i % limit < limit
    ensures (i / limit) * limit + i % limit == i
  {
  }

  /** With totalPages the ceiling of total / limit, a page starts before the end exactly when it is in range. */
  lemma PageStartsBeforeEnd(page: int, limit: int, total: int, totalPages: int)
    requires page >= 1 && limit >= 1
    requires (totalPages - 1) * limit < total <= totalPages * limit
    ensures (page - 1) * limit < total <==> page <= totalPages
  {
    if page <= totalPages {
      MulMonotonic(page - 1, totalPages - 1, limit);
    } else {
      MulMonotonic(totalPages, page - 1, limit);
    }
  }

  lemma MulMonotonic(a: int, b: int, c: int)
    requires a <= b && c >= 1
    ensures a * c <= b * c
  {
    var d := b - a;
    assert b * c == a * c + d * c;
  }

  /** Pages partition the matches: match i is entry i mod limit of page i div limit + 1. */
  lemma PageOfMatch(routes: seq<Route>, source: Option<string>, destination: Option<string>, limit: int, i: int)
    requires limit >= 1
    requires 0 <= i < |Matching(routes, source, destination)|
    ensures var r := FindAll(routes, source, destination, i / limit + 1, limit);
      i % limit < |r.data| && r.data[i % limit] == Matching(routes, source, destination)[i]
  {
    DivModByLimit(i, limit);
    var q, rem := i / limit, i % limit;
    var skip := Skip(q + 1, limit);
    assert skip + rem == i;
    PageEntry(routes, source, destination, q + 1, limit, rem);
  }

  /** Entry k of a page is match k after the skipped ones, whenever that match exists and k is below the limit. */
  lemma PageEntry(routes: seq<Route>, source: Option<string>, destination: Option<string>, page: int, limit: int, k: nat)
    requires page >= 1 && limit >= 1 && k < limit
    requires Skip(page, limit) + k < |Matching(routes, source, destination)|
    ensures var r := FindAll(routes, source, destination, page, limit);
      k < |r.data| && r.data[k] == Matching(routes, source, destination)[Skip(page, limit) + k]
  {
    var r := FindAll(routes, source, destination, page, limit);
    assert k < |r.data|;
  }

  /** A page has data exactly when its number is at most the page count. */
  lemma PageNonEmptyIffInRange(routes: seq<Route>, source: Option<string>, destination: Option<string>, page: int, limit: int)
    requires page >= 1 && limit >= 1
    ensures var r := FindAll(routes, source, destination, page, limit);
      |r.data| > 0 <==> page <= r.totalPages
  {
    var r := FindAll(routes, source, destination, page, limit);
    PageStartsBeforeEnd(page, limit, r.total, r.totalPages);
  }

  /** The first row with this id, or -1. */
  function IndexOf(routes: seq<Route>, id: int): (r: int)
    ensures -1 <= r < |routes|
    ensures r == -1 <==> forall k | 0 <= k < |routes| :: routes[k].id != id
    ensures 0 <= r ==> routes[r].id == id && forall k | 0 <= k < r :: routes[k].id != id
  {
    if |routes| == 0 then -1
    else if routes[0].id == id then 0
    else
      var r := IndexOf(routes[1..], id);
      assert forall k | 1 <= k < |routes| :: routes[k] == routes[1..][k - 1];
      if r == -1 then -1 else r + 1
  }

  /** `findOne`: the route with this id, active or not, or NotFound. */
  function FindOne(routes: seq<Route>, id: int): (r: Result<Route, RouteError>)
    ensures r.Failure? <==> forall k | 0 <= k < |routes| :: routes[k].id != id
    ensures r.Failure? ==> r.error == NotFound(id)
    ensures r.Success? ==> r.value in routes && r.value.id == id
  {
    var i := IndexOf(routes, id);
    if i == -1 then Failure(NotFound(id)) else Success(routes[i])
  }

  /** The active buses of a route's relation, in order. */
  function ActiveBuses(buses: seq<BusRow>): (r: seq<BusRow>)
    ensures |r| <= |buses|
    ensures forall b :: b in r <==> b in buses && b.isActive
  {
    if |buses| == 0 then []
    else
      var rest := ActiveBuses(buses[1..]);
      assert forall b :: b in buses <==> b == buses[0] || b in buses[1..];
      if buses[0].isActive then [buses[0]] + rest else rest
  }

  /** `findBusesByRoute`: the route's summary and its active buses, or NotFound. */
  function FindBusesByRoute(routes: seq<Route>, id: int): (r: Result<RouteBuses, RouteError>)
    ensures r.Failure? <==> forall k | 0 <= k < |routes| :: routes[k].id != id
    ensures r.Failure? ==> r.error == NotFound(id)
    ensures r.Success? ==>
      exists k | 0 <= k < |routes| ::
        var route := routes[k];
        && route.id == id
        && r.value.route == RouteSummary(route.id, route.name, route.source, route.destination, route.distance, route.duration)
        && forall b :: b in r.value.buses <==> b in route.buses && b.isActive
  {
    var i := IndexOf(routes, id);
    if i == -1 then Failure(NotFound(id))
    else
      var route := routes[i];
      Success(RouteBuses(
        RouteSummary(route.id, route.name, route.source, route.destination, route.distance, route.duration),
        ActiveBuses(route.buses)))
  }

  /** No two rows share an id (the primary key). */
  predicate UniqueIds(routes: seq<Route>) {
    forall i, j | 0 <= i < j < |routes| :: routes[i].id != routes[j].id
  }

  /** Row i with its `is_active` flag cleared. */
  function Deactivate(routes: seq<Route>, i: int): seq<Route>
    requires 0 <= i < |routes|
  {
    routes[i := routes[i].(isActive := false)]
  }

  /**
   * After a soft delete the route is no longer listed by `findAll`, whatever
   * the filters and page, but `findOne` still returns it, now inactive.
   */
  lemma RemovedRouteHidden(routes: seq<Route>, i: int, source: Option<string>, destination: Option<string>, page: int, limit: int)
    requires UniqueIds(routes) && 0 <= i < |routes|
    requires page >= 1 && limit >= 1
    ensures forall x | x in FindAll(Deactivate(routes, i), source, destination, page, limit).data :: x.id != routes[i].id
    ensures FindOne(Deactivate(routes, i), routes[i].id) == Success(routes[i].(isActive := false))
  {
    var d := Deactivate(routes, i);
    assert forall k | 0 <= k < |d| && k != i :: d[k] == routes[k];
    assert forall k | 0 <= k < i :: d[k].id != routes[i].id;
    forall x | x in d && x.id == routes[i].id ensures !x.isActive {
      var k :| 0 <= k < |d| && d[k] == x;
      assert k == i;
    }
    var r := IndexOf(d, routes[i].id);
    assert d[i].id == routes[i].id;
    assert r != -1;
    assert r == i;
  }

  /** The service over the route table. */
  class RoutesService {
    var routes: seq<Route>

    ghost predicate Valid()
      reads this
    {
      UniqueIds(routes)
    }

    constructor (routes: seq<Route>)
      requires UniqueIds(routes)
      ensures Valid() && this.routes == routes
    {
      this.routes := routes;
    }

    /**
     * `remove`: look the route up (NotFound if missing), then clear its
     * `is_active` flag; nothing else changes. The result does not depend on
     * the old flag, so removing twice is the same as removing once.
     */
    method Remove(id: int) returns (r: Result<(), RouteError>)
      requires Valid()
      modifies this
      ensures Valid()
      ensures (forall k | 0 <= k < |old(routes)| :: old(routes)[k].id != id) ==>
        r == Failure(NotFound(id)) && routes == old(routes)
      ensures IndexOf(old(routes), id) != -1 ==>
        r == Success(()) && routes == Deactivate(old(routes), IndexOf(old(routes), id))
    {
      var found := FindOne(routes, id);
      if found.Failure? {
        return Failure(found.error);
      }
      var i := IndexOf(routes, id);
      routes := routes[i := routes[i].(isActive := false)];
      return Success(());
    }
  }
}
