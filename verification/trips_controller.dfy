/** The three actions of the trips controller as pure transitions over the
    store: each takes the store and the request's arguments and returns the
    response together with the store as the action leaves it. The current
    time and the identity the database would give a new client row are
    parameters. */
module TripsController {
  import opened Optional
  import opened Entities
  import opened Query
  import Decimal

  /** The HTTP outcome of an action. */
  datatype Response =
    | Ok(body: string)                  // 200 with a text body
    | NoContent                         // 204
    | NotFound(detail: Option<string>)  // 404, with or without a text body
    | BadRequest(error: string)         // 400 with a text body

  const DeleteBlockedMessage := "Cannot delete client with assigned trips."
  const PeselTakenMessage := "Client with provided PESEL already exists."
  const AlreadyAssignedMessage := "Client is already assigned to this trip."
  const AssignedMessage := "Client assigned to trip successfully."

  function TripNotFoundMessage(idTrip: int): string {
    "Trip with ID " + Decimal.FormatInt(idTrip) + " not found."
  }

  /** Distinct trip ids give distinct not-found messages. */
  lemma TripNotFoundMessageInjective(a: int, b: int)
    ensures TripNotFoundMessage(a) == TripNotFoundMessage(b) ==> a == b
  {
    if TripNotFoundMessage(a) == TripNotFoundMessage(b) {
      var prefix := "Trip with ID ";
      var fa, fb := Decimal.FormatInt(a), Decimal.FormatInt(b);
      assert TripNotFoundMessage(a) == prefix + fa + " not found.";
      assert |fa| == |fb|;
      assert fa == TripNotFoundMessage(a)[|prefix|..|prefix| + |fa|];
      assert fb == TripNotFoundMessage(b)[|prefix|..|prefix| + |fb|];
      Decimal.FormatIntInjective(a, b);
    }
  }

  // ---------------------------------------------------------------- listing

  /** A client as the listing shows it: first and last name only. */
  datatype ClientName = ClientName(firstName: string, lastName: string)

  /** A trip as the listing shows it. */
  datatype TripView = TripView(
    name: string,
    description: string,
    dateFrom: int,
    dateTo: int,
    maxPeople: int,
    countries: seq<string>,
    clients: seq<ClientName>)

  /** The envelope `GetTrips` answers with. */
  datatype TripsPage = TripsPage(
    pageNum: int,
    pageSize: int,
    allPages: int,
    trips: seq<TripView>)

  function NameOf(c: Client): ClientName {
    ClientName(c.firstName, c.lastName)
  }

  /** The link rows of trip `idTrip` whose client exists, in table order:
      the rows the per-trip query joins with the clients table. */
  function LinksOfTrip(clientTrips: seq<ClientTrip>, clients: map<int, Client>, idTrip: int): (r: seq<ClientTrip>)
    ensures forall ct :: ct in r ==> ct in clientTrips && ct.idTrip == idTrip && ct.idClient in clients
    ensures |r| <= |clientTrips|
  {
    if |clientTrips| == 0 then []
    else
      var rest := LinksOfTrip(clientTrips[1..], clients, idTrip);
      var head := clientTrips[0];
      if head.idTrip == idTrip && head.idClient in clients then [head] + rest else rest
  }

  /** The join keeps every matching row as often as it occurs, and no other
      row. */
  lemma {:induction false} LinksOfTripCounts(clientTrips: seq<ClientTrip>, clients: map<int, Client>, idTrip: int)
    ensures forall ct ::
              multiset(LinksOfTrip(clientTrips, clients, idTrip))[ct] == (if ct.idTrip == idTrip && ct.idClient in clients then multiset(clientTrips)[ct] else 0)
  {
    if |clientTrips| > 0 {
      assert clientTrips == [clientTrips[0]] + clientTrips[1..];
      LinksOfTripCounts(clientTrips[1..], clients, idTrip);
    }
  }

  /** A client linked to trip `idTrip` through a row of the join table. */
  ghost predicate LinkedName(db: Db, idTrip: int, n: ClientName) {
    exists ct :: ct in db.clientTrips && ct.idTrip == idTrip && ct.idClient in db.clients
                 && NameOf(db.clients[ct.idClient]) == n
  }

  /** The names of the clients linked to trip `idTrip`, one per link row. */
  function ClientsOfTrip(db: Db, idTrip: int): (r: seq<ClientName>)
    ensures |r| == |LinksOfTrip(db.clientTrips, db.clients, idTrip)|
    ensures forall i :: 0 <= i < |r| ==>
              r[i] == NameOf(db.clients[LinksOfTrip(db.clientTrips, db.clients, idTrip)[i].idClient])
    ensures forall n :: n in r <==> LinkedName(db, idTrip, n)
  {
    var links := LinksOfTrip(db.clientTrips, db.clients, idTrip);
    var r := seq(|links|, i requires 0 <= i < |links| => NameOf(db.clients[links[i].idClient]));
    NamesOfLinks(db, idTrip, links, r);
    r
  }

  lemma NamesOfLinks(db: Db, idTrip: int, links: seq<ClientTrip>, r: seq<ClientName>)
    requires links == LinksOfTrip(db.clientTrips, db.clients, idTrip)
    requires |r| == |links|
    requires forall i :: 0 <= i < |links| ==> links[i].idClient in db.clients && r[i] == NameOf(db.clients[links[i].idClient])
    ensures forall n :: n in r <==> LinkedName(db, idTrip, n)
  {
    LinksOfTripCounts(db.clientTrips, db.clients, idTrip);
    forall n | n in r
      ensures LinkedName(db, idTrip, n)
    {
      var i :| 0 <= i < |r| && r[i] == n;
      assert links[i] in links;
    }
    forall n | LinkedName(db, idTrip, n)
      ensures n in r
    {
      var ct :| ct in db.clientTrips && ct.idTrip == idTrip && ct.idClient in db.clients
                && NameOf(db.clients[ct.idClient]) == n;
      assert multiset(links)[ct] > 0;
      assert ct in links;
      var i :| 0 <= i < |links| && links[i] == ct;
      assert r[i] == n;
    }
  }

  function ViewOf(db: Db, t: Trip): (v: TripView)
    ensures v.name == t.name && v.description == t.description
    ensures v.dateFrom == t.dateFrom && v.dateTo == t.dateTo && v.maxPeople == t.maxPeople
    ensures |v.countries| == |t.countries|
    ensures forall i :: 0 <= i < |v.countries| ==> v.countries[i] == t.countries[i].name
    ensures v.clients == ClientsOfTrip(db, t.id)
  {
    TripView(
      t.name, t.description, t.dateFrom, t.dateTo, t.maxPeople,
      seq(|t.countries|, i requires 0 <= i < |t.countries| => t.countries[i].name),
      ClientsOfTrip(db, t.id))
  }

  /** `GET api/trips?page=&pageSize=`: page `page` of the trips, latest
      start first, `pageSize` per page, with the number of pages. */
  function GetTrips(db: Db, page: int, pageSize: int): (r: TripsPage)
    requires page >= 1 && pageSize > 0
    ensures r.pageNum == page && r.pageSize == pageSize
    ensures r.allPages * pageSize >= |db.trips|
    ensures |db.trips| > 0 ==> (r.allPages - 1) * pageSize < |db.trips|
    ensures |db.trips| == 0 ==> r.allPages == 0
    ensures |r.trips| <= pageSize
    ensures var skip := Offset(page, pageSize);
      |r.trips| == if skip >= |db.trips| then 0
                   else if |db.trips| - skip < pageSize then |db.trips| - skip
                   else pageSize
    ensures var sorted := OrderByDateFromDescending(db.trips);
      forall i :: 0 <= i < |r.trips| ==>
        Offset(page, pageSize) + i < |sorted| && r.trips[i] == ViewOf(db, sorted[Offset(page, pageSize) + i])
    ensures forall i, j :: 0 <= i < j < |r.trips| ==> r.trips[i].dateFrom >= r.trips[j].dateFrom
  {
    var sorted := OrderByDateFromDescending(db.trips);
    var window := PageWindow(sorted, page, pageSize);
    DescendingWindow(sorted, page, pageSize);
    var views := ViewsOf(db, window);
    TripsPage(page, pageSize, CeilDiv(|db.trips|, pageSize), views)
  }

  /** The views of `ts`, in the same order. */
  function ViewsOf(db: Db, ts: seq<Trip>): (vs: seq<TripView>)
    ensures |vs| == |ts|
    ensures forall i :: 0 <= i < |ts| ==> vs[i] == ViewOf(db, ts[i])
    ensures DescendingByDateFrom(ts) ==> forall i, j :: 0 <= i < j < |vs| ==> vs[i].dateFrom >= vs[j].dateFrom
  {
    seq(|ts|, i requires 0 <= i < |ts| => ViewOf(db, ts[i]))
  }

  // --------------------------------------------------------------- deletion

  /** `DELETE api/trips/{id}`: removes the client unless it is missing
      (404) or still linked to a trip (400). */
  function DeleteClient(db: Db, id: int): (r: (Response, Db))
    ensures r.0 == NotFound(None) <==> id !in db.clients
    ensures r.0 == BadRequest(DeleteBlockedMessage) <==> id in db.clients && HasClientTrips(db.clientTrips, id)
    ensures r.0 == NoContent <==> id in db.clients && !HasClientTrips(db.clientTrips, id)
    ensures r.0 != NoContent ==> r.1 == db
    ensures r.0 == NoContent ==>
      && r.1.trips == db.trips
      && r.1.clientTrips == db.clientTrips
      && r.1.clients.Keys == db.clients.Keys - {id}
      && |r.1.clients| == |db.clients| - 1
      && forall k :: k in r.1.clients ==> r.1.clients[k] == db.clients[k]
  {
    if id !in db.clients then
      (NotFound(None), db)
    else if HasClientTrips(db.clientTrips, id) then
      (BadRequest(DeleteBlockedMessage), db)
    else
      (NoContent, db.(clients := db.clients - {id}))
  }

  // ------------------------------------------------------------- assignment

  /** The request body of the assignment (class `Data`). */
  datatype Data = Data(
    firstName: string,
    lastName: string,
    email: string,
    telephone: string,
    pesel: string,
    paymentDate: int)

  /** Some link of trip `idTrip` belongs to a client with this PESEL: the
      third check of the assignment. */
  predicate AlreadyAssigned(db: Db, pesel: string, idTrip: int) {
    exists i :: 0 <= i < |db.clientTrips|
      && db.clientTrips[i].idTrip == idTrip
      && db.clientTrips[i].idClient in db.clients
      && db.clients[db.clientTrips[i].idClient].pesel == pesel
  }

  /** The client row built from the payload. */
  function NewClient(data: Data): Client {
    Client(data.firstName, data.lastName, data.email, data.telephone, data.pesel)
  }

  /** `POST api/trips/{idTrip}/clients`: creates a client from the payload
      and links it to the trip, after checking, in this order, that the
      trip exists, that no client has the payload's PESEL, and that no
      client with that PESEL is linked to the trip already. `freshId` is
      the key the database gives the new client row; `now` is the clock. */
  function AssignClientToTrip(db: Db, idTrip: int, data: Data, now: int, freshId: int): (r: (Response, Db))
    requires freshId !in db.clients
    ensures r.0.NotFound? <==> FindTrip(db.trips, idTrip).None?
    ensures r.0.NotFound? ==> r.0.detail == Some(TripNotFoundMessage(idTrip))
    ensures r.0.BadRequest? <==> FindTrip(db.trips, idTrip).Some? && PeselTaken(db.clients, data.pesel)
    ensures r.0.BadRequest? ==> r.0.error == PeselTakenMessage
    ensures r.0.Ok? <==> FindTrip(db.trips, idTrip).Some? && !PeselTaken(db.clients, data.pesel)
    ensures !r.0.Ok? ==> r.1 == db
    ensures r.0.Ok? ==>
      && r.0.body == AssignedMessage
      && r.1.trips == db.trips
      && r.1.clients.Keys == db.clients.Keys + {freshId}
      && |r.1.clients| == |db.clients| + 1
      && r.1.clients[freshId] == Client(data.firstName, data.lastName, data.email, data.telephone, data.pesel)
      && (forall k :: k in db.clients ==> r.1.clients[k] == db.clients[k])
      && r.1.clientTrips == db.clientTrips + [ClientTrip(freshId, idTrip, now, data.paymentDate)]
  {
    match FindTrip(db.trips, idTrip)
    case None => (NotFound(Some(TripNotFoundMessage(idTrip))), db)
    case Some(trip) =>
      if PeselTaken(db.clients, data.pesel) then
        (BadRequest(PeselTakenMessage), db)
      else if AlreadyAssigned(db, data.pesel, idTrip) then
        (BadRequest(AlreadyAssignedMessage), db)
      else
        var client := NewClient(data);
        var link := ClientTrip(freshId, trip.id, now, data.paymentDate);
        (Ok(AssignedMessage), db.(clients := db.clients[freshId := client],
                                  clientTrips := db.clientTrips + [link]))
  }
}
