/** Properties that relate the controller's actions to each other and to the
    consistency rules of the store. */
module ControllerLemmas {
  import opened Entities
  import opened Query
  import opened TripsController

  // ------------------------------------------------------ the dead check

  /** Once the PESEL check has passed, no client has the payload's PESEL, so
      no link row can lead to one: the "already assigned" check is false. */
  lemma AlreadyAssignedImpliesPeselTaken(db: Db, pesel: string, idTrip: int)
    ensures AlreadyAssigned(db, pesel, idTrip) ==> PeselTaken(db.clients, pesel)
  {
    if AlreadyAssigned(db, pesel, idTrip) {
      var i :| 0 <= i < |db.clientTrips|
        && db.clientTrips[i].idTrip == idTrip
        && db.clientTrips[i].idClient in db.clients
        && db.clients[db.clientTrips[i].idClient].pesel == pesel;
      var id := db.clientTrips[i].idClient;
      assert id in db.clients && db.clients[id].pesel == pesel;
    }
  }

  /** No request ever gets the "already assigned" answer. */
  lemma AssignNeverReportsAlreadyAssigned(db: Db, idTrip: int, data: Data, now: int, freshId: int)
    requires freshId !in db.clients
    ensures AssignClientToTrip(db, idTrip, data, now, freshId).0 != BadRequest(AlreadyAssignedMessage)
  {
  }

  // ------------------------------------------------ consistency preserved

  /** Deleting a client keeps the store consistent: the guard ensures no
      link is left pointing at the removed client. */
  lemma DeletePreservesValid(db: Db, id: int)
    requires Valid(db)
    ensures Valid(DeleteClient(db, id).1)
  {
    var (res, db') := DeleteClient(db, id);
    if res == NoContent {
      forall i | 0 <= i < |db'.clientTrips|
        ensures db'.clientTrips[i].idClient in db'.clients
      {
        assert db.clientTrips[i].idClient != id;
      }
    }
  }

  /** A successful assignment keeps the store consistent: PESELs stay
      unique, the new link resolves, and the new client had no link yet. */
  lemma AssignPreservesValid(db: Db, idTrip: int, data: Data, now: int, freshId: int)
    requires Valid(db)
    requires freshId !in db.clients
    ensures Valid(AssignClientToTrip(db, idTrip, data, now, freshId).1)
  {
    var (res, db') := AssignClientToTrip(db, idTrip, data, now, freshId);
    if res.Ok? {
      var n := |db.clientTrips|;
      assert db'.clientTrips[n] == ClientTrip(freshId, idTrip, now, data.paymentDate);
      forall i | 0 <= i < |db'.clientTrips|
        ensures db'.clientTrips[i].idClient in db'.clients
        ensures FindTrip(db'.trips, db'.clientTrips[i].idTrip).Some?
      {
        if i < n {
          assert db'.clientTrips[i] == db.clientTrips[i];
        }
      }
      forall a, b | a in db'.clients && b in db'.clients && a != b
        ensures db'.clients[a].pesel != db'.clients[b].pesel
      {
        if a == freshId {
          assert !(b in db.clients && db.clients[b].pesel == data.pesel);
        } else if b == freshId {
          assert !(a in db.clients && db.clients[a].pesel == data.pesel);
        }
      }
      forall i, j | 0 <= i < j < |db'.clientTrips|
        ensures db'.clientTrips[i].idClient != db'.clientTrips[j].idClient
             || db'.clientTrips[i].idTrip != db'.clientTrips[j].idTrip
      {
        if j == n {
          assert db'.clientTrips[i] == db.clientTrips[i];
          assert db.clientTrips[i].idClient in db.clients;
        } else {
          assert db'.clientTrips[i] == db.clientTrips[i] && db'.clientTrips[j] == db.clientTrips[j];
        }
      }
    }
  }

  /** An assignment keeps PESELs unique whatever else holds of the store:
      the PESEL check admits a new client only under a PESEL no client has. */
  lemma AssignKeepsPeselsUnique(db: Db, idTrip: int, data: Data, now: int, freshId: int)
    requires PeselsUnique(db.clients)
    requires freshId !in db.clients
    ensures PeselsUnique(AssignClientToTrip(db, idTrip, data, now, freshId).1.clients)
  {
  }

  /** A client created by an assignment is linked to a trip, so deleting it
      right afterwards is refused and changes nothing. */
  lemma NewClientCannotBeDeleted(db: Db, idTrip: int, data: Data, now: int, freshId: int)
    requires freshId !in db.clients
    requires AssignClientToTrip(db, idTrip, data, now, freshId).0.Ok?
    ensures var db' := AssignClientToTrip(db, idTrip, data, now, freshId).1;
      DeleteClient(db', freshId) == (BadRequest(DeleteBlockedMessage), db')
  {
    var db' := AssignClientToTrip(db, idTrip, data, now, freshId).1;
    assert db'.clientTrips[|db.clientTrips|].idClient == freshId;
  }

  // ------------------------------------------------- effect on the listing

  /** The per-trip join depends on the clients table only through which
      referenced ids exist. */
  lemma {:induction false} LinksOfTripSameKeys(links: seq<ClientTrip>, c1: map<int, Client>, c2: map<int, Client>, idTrip: int)
    requires forall i :: 0 <= i < |links| ==> (links[i].idClient in c1 <==> links[i].idClient in c2)
    ensures LinksOfTrip(links, c1, idTrip) == LinksOfTrip(links, c2, idTrip)
  {
    if |links| > 0 {
      LinksOfTripSameKeys(links[1..], c1, c2, idTrip);
    }
  }

  /** Appending a link row appends it to the join of its trip, if its
      client exists, and to no other. */
  lemma {:induction false} LinksOfTripAppend(links: seq<ClientTrip>, ct: ClientTrip, clients: map<int, Client>, idTrip: int)
    ensures LinksOfTrip(links + [ct], clients, idTrip) ==
      LinksOfTrip(links, clients, idTrip) + (if ct.idTrip == idTrip && ct.idClient in clients then [ct] else [])
  {
    if |links| > 0 {
      assert (links + [ct])[0] == links[0];
      assert (links + [ct])[1..] == links[1..] + [ct];
      LinksOfTripAppend(links[1..], ct, clients, idTrip);
    } else {
      assert links + [ct] == [ct];
    }
  }

  /** Two stores with the same clients for every link of a trip show the
      same client names for that trip. */
  lemma SameLinksSameNames(db1: Db, db2: Db, idTrip: int)
    requires LinksOfTrip(db1.clientTrips, db1.clients, idTrip) == LinksOfTrip(db2.clientTrips, db2.clients, idTrip)
    requires forall k :: k in db1.clients && k in db2.clients ==> db1.clients[k] == db2.clients[k]
    ensures ClientsOfTrip(db1, idTrip) == ClientsOfTrip(db2, idTrip)
  {
    var links := LinksOfTrip(db1.clientTrips, db1.clients, idTrip);
    var r1, r2 := ClientsOfTrip(db1, idTrip), ClientsOfTrip(db2, idTrip);
    forall i | 0 <= i < |r1|
      ensures r1[i] == r2[i]
    {
      assert links[i] in links;
    }
  }

  /** Two stores with the same trips whose trips show the same clients
      produce the same listing. */
  lemma SameViewsSameListing(db1: Db, db2: Db, page: int, pageSize: int)
    requires page >= 1 && pageSize > 0
    requires db1.trips == db2.trips
    requires forall i :: 0 <= i < |db1.trips| ==>
      ClientsOfTrip(db1, db1.trips[i].id) == ClientsOfTrip(db2, db1.trips[i].id)
    ensures GetTrips(db1, page, pageSize) == GetTrips(db2, page, pageSize)
  {
    var sorted := OrderByDateFromDescending(db1.trips);
    var off := Offset(page, pageSize);
    var r1, r2 := GetTrips(db1, page, pageSize), GetTrips(db2, page, pageSize);
    assert |r1.trips| == |r2.trips|;
    forall i | 0 <= i < |r1.trips|
      ensures r1.trips[i] == r2.trips[i]
    {
      var t := sorted[off + i];
      assert t in multiset(sorted);
      assert t in multiset(db1.trips);
      var k :| 0 <= k < |db1.trips| && db1.trips[k] == t;
      assert ClientsOfTrip(db1, t.id) == ClientsOfTrip(db2, t.id);
      assert ViewOf(db1, t) == ViewOf(db2, t);
    }
  }

  /** Deleting a client changes no trip's listing: only a client with no
      links can be deleted, and such a client is shown on no trip. */
  lemma DeleteLeavesListingUnchanged(db: Db, id: int, page: int, pageSize: int)
    requires page >= 1 && pageSize > 0
    requires DeleteClient(db, id).0 == NoContent
    ensures GetTrips(DeleteClient(db, id).1, page, pageSize) == GetTrips(db, page, pageSize)
  {
    var db' := DeleteClient(db, id).1;
    forall idTrip
      ensures ClientsOfTrip(db', idTrip) == ClientsOfTrip(db, idTrip)
    {
      forall i | 0 <= i < |db.clientTrips|
        ensures db.clientTrips[i].idClient in db'.clients <==> db.clientTrips[i].idClient in db.clients
      {
        assert db.clientTrips[i].idClient != id;
      }
      LinksOfTripSameKeys(db.clientTrips, db'.clients, db.clients, idTrip);
      SameLinksSameNames(db', db, idTrip);
    }
    SameViewsSameListing(db', db, page, pageSize);
  }

  /** After a successful assignment the trip shows one more client, the new
      one, at the end; every other trip shows the same clients as before. */
  lemma AssignAddsClientToTrip(db: Db, idTrip: int, data: Data, now: int, freshId: int, other: int)
    requires Valid(db)
    requires freshId !in db.clients
    requires AssignClientToTrip(db, idTrip, data, now, freshId).0.Ok?
    ensures var db' := AssignClientToTrip(db, idTrip, data, now, freshId).1;
      && ClientsOfTrip(db', idTrip) == ClientsOfTrip(db, idTrip) + [ClientName(data.firstName, data.lastName)]
      && (other != idTrip ==> ClientsOfTrip(db', other) == ClientsOfTrip(db, other))
  {
    var db' := AssignClientToTrip(db, idTrip, data, now, freshId).1;
    var ct := ClientTrip(freshId, idTrip, now, data.paymentDate);
    forall i | 0 <= i < |db.clientTrips|
      ensures db.clientTrips[i].idClient in db'.clients <==> db.clientTrips[i].idClient in db.clients
    {
    }
    forall tid
      ensures LinksOfTrip(db'.clientTrips, db'.clients, tid) ==
        LinksOfTrip(db.clientTrips, db.clients, tid) + (if tid == idTrip then [ct] else [])
    {
      LinksOfTripAppend(db.clientTrips, ct, db'.clients, tid);
      LinksOfTripSameKeys(db.clientTrips, db'.clients, db.clients, tid);
    }
    var before, after := ClientsOfTrip(db, idTrip), ClientsOfTrip(db', idTrip);
    var links := LinksOfTrip(db.clientTrips, db.clients, idTrip);
    assert |after| == |before| + 1;
    forall i | 0 <= i < |after|
      ensures after[i] == (before + [ClientName(data.firstName, data.lastName)])[i]
    {
      if i < |before| {
        assert links[i] in links;
      }
    }
    if other != idTrip {
      SameLinksSameNames(db', db, other);
    }
  }

  // --------------------------------------------------------- paging

  /** Every trip in the store is shown on some page within the page count. */
  lemma EveryTripIsListed(db: Db, pageSize: int, t: Trip)
    requires pageSize > 0
    requires t in db.trips
    ensures exists page, i ::
              && 1 <= page <= CeilDiv(|db.trips|, pageSize)
              && 0 <= i < |GetTrips(db, page, pageSize).trips|
              && GetTrips(db, page, pageSize).trips[i] == ViewOf(db, t)
  {
    var sorted := OrderByDateFromDescending(db.trips);
    assert t in multiset(sorted);
    var k :| 0 <= k < |sorted| && sorted[k] == t;
    ItemOnItsPage(sorted, pageSize, k);
    var page, i := k / pageSize + 1, k % pageSize;
    var r := GetTrips(db, page, pageSize);
    assert Offset(page, pageSize) + i == k;
    assert i < |r.trips|;
    assert r.trips[i] == ViewOf(db, t);
  }

  /** With 25 trips and 10 per page there are 3 pages and the last holds 5. */
  lemma TwentyFiveTripsMakeThreePages(db: Db)
    requires |db.trips| == 25
    ensures GetTrips(db, 3, 10).allPages == 3
    ensures |GetTrips(db, 3, 10).trips| == 5
  {
  }
}
