/** The four entities the controller reads and writes, and the store that
    holds them. Dates (`DateFrom`, `RegisteredAt`, `PaymentDate`, ...) are
    `DateTime` values in the source and are modelled as integer ticks: the
    controller only compares and copies them. */
module Entities {
  import opened Optional

  /** A country a trip visits; the controller reads only its name. */
  datatype Country = Country(name: string)

  /** A row of the trips table; `id` is its primary key. */
  datatype Trip = Trip(
    id: int,
    name: string,
    description: string,
    dateFrom: int,
    dateTo: int,
    maxPeople: int,
    countries: seq<Country>)

  /** A row of the clients table; the primary key is the key of `Db.clients`. */
  datatype Client = Client(
    firstName: string,
    lastName: string,
    email: string,
    telephone: string,
    pesel: string)

  /** A row of the join table linking one client to one trip. */
  datatype ClientTrip = ClientTrip(
    idClient: int,
    idTrip: int,
    registeredAt: int,
    paymentDate: int)

  /** The store as the controller sees it. Trips and links are kept in table
      order. A query without an ordering may return rows in any order; the
      model fixes table order as one of the orders it may return. */
  datatype Db = Db(
    clients: map<int, Client>,
    trips: seq<Trip>,
    clientTrips: seq<ClientTrip>)

  /** Primary-key lookup of a trip (`Trips.FindAsync`). */
  function FindTrip(trips: seq<Trip>, id: int): (r: Option<Trip>)
    ensures r.None? <==> forall i :: 0 <= i < |trips| ==> trips[i].id != id
    ensures r.Some? ==> r.value in trips && r.value.id == id
  {
    if |trips| == 0 then None
    else if trips[0].id == id then Some(trips[0])
    else FindTrip(trips[1..], id)
  }

  /** Some client already carries this PESEL. */
  predicate PeselTaken(clients: map<int, Client>, pesel: string) {
    exists id :: id in clients && clients[id].pesel == pesel
  }

  /** Some link row references the client with this id. */
  predicate HasClientTrips(clientTrips: seq<ClientTrip>, idClient: int) {
    exists i :: 0 <= i < |clientTrips| && clientTrips[i].idClient == idClient
  }

  predicate TripIdsDistinct(trips: seq<Trip>) {
    forall i, j :: 0 <= i < j < |trips| ==> trips[i].id != trips[j].id
  }

  predicate PeselsUnique(clients: map<int, Client>) {
    forall a, b :: a in clients && b in clients && a != b ==> clients[a].pesel != clients[b].pesel
  }

  /** Every link references an existing client and an existing trip. */
  predicate LinksResolve(db: Db) {
    forall i :: 0 <= i < |db.clientTrips| ==>
      db.clientTrips[i].idClient in db.clients && FindTrip(db.trips, db.clientTrips[i].idTrip).Some?
  }

  /** No client is linked to the same trip twice. */
  predicate NoDuplicateLinks(clientTrips: seq<ClientTrip>) {
    forall i, j :: 0 <= i < j < |clientTrips| ==>
      clientTrips[i].idClient != clientTrips[j].idClient || clientTrips[i].idTrip != clientTrips[j].idTrip
  }

  /** The consistency rules of the data model: unique trip keys, foreign keys
      that resolve, PESEL unique across clients, at most one link per
      client and trip. */
  predicate Valid(db: Db) {
    && TripIdsDistinct(db.trips)
    && LinksResolve(db)
    && PeselsUnique(db.clients)
    && NoDuplicateLinks(db.clientTrips)
  }
}
