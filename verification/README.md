# APBD9 trips controller — a Dafny model

The APBD9 web API lists trips page by page, deletes clients, and signs a
new client up for a trip. Its `TripsController` sits on an Entity
Framework context. This project models the controller's three actions as
pure transitions over an abstract store, and proves what each action
promises.

The store (`Entities.Db`) holds three tables:

- the clients, keyed by their primary key;
- the trips, in table order, each carrying its countries;
- the client–trip links (`ClientTrip` rows), in table order.

Each action takes the store and the request's arguments. It returns the
HTTP outcome (`TripsController.Response`) together with the store as the
action leaves it. The listing only reads, so it returns just the page
envelope. Two things the database or the runtime would supply are
parameters: the current time, and the key the database gives a new client
row.

Modules:

- `Optional`: the `Option` type, standing in for nullable lookups.
- `Entities`: the entities and the store. Primary-key lookup of a trip. The
  PESEL and link checks. The consistency rules of the data model (`Valid`).
- `Query`: the query operators the listing is built from. Ordering by
  start date, descending (an insertion sort that keeps table order on
  ties). LINQ `Skip` and `Take`. The page window. Integer ceiling division
  for the page count.
- `Decimal`: how an `int` is written into the "Trip with ID … not found."
  message, with a parser proving the rendering can be read back.
- `TripsController`: `GetTrips`, `DeleteClient` and `AssignClientToTrip`,
  with the per-trip client join used by the listing.
- `ControllerLemmas`: properties that relate actions to each other and to
  the store's consistency rules.

Main results:

- The listing shows exactly the slice of the date-ordered trips that the
  page names. It holds at most `pageSize` trips, ordered latest start
  first. `allPages` is the least page count that holds every trip. Under
  one fixed order of trips that share a start date, every trip appears on
  some page no later than `allPages`.
- A client is deleted exactly when it exists and no link references it. On
  any error nothing changes. On success only that client goes, and no
  trip's listing changes.
- An assignment answers 404 exactly when the trip is missing, and 400
  exactly when the PESEL is already taken. On either error nothing changes.
  On success exactly one client and one link are added, and, with link
  rows read in table order, the new client appears last in that trip's
  client list.
- The "Client is already assigned to this trip." check can never fire. By
  the time it runs, no client has the payload's PESEL, so no link can lead
  to one (`ControllerLemmas.AlreadyAssignedImpliesPeselTaken`).
- Both write actions preserve the store's consistency rules: trip keys
  unique, links resolving, PESELs unique, and at most one link per client
  and trip.

## Model

| member | source | states |
|---|---|---|
| `Entities.FindTrip` | APBD9/APBD9/Controllers/TripsController.cs:78-79 | the lookup finds nothing exactly when no trip has that id; otherwise it returns a stored trip with that id |
| `Query.OrderByDateFromDescending` | APBD9/APBD9/Controllers/TripsController.cs:22-23 | the ordered trips are a permutation of the stored trips (same multiset), and start dates never increase along them |
| `Query.InsertKeepsOrder` | APBD9/APBD9/Controllers/TripsController.cs:23 | inserting a trip into a list ordered by descending start date keeps it ordered |
| `Query.Skip` | APBD9/APBD9/Controllers/TripsController.cs:24 | LINQ `Skip`: a count of zero or less keeps everything; a count past the end leaves nothing; otherwise the rest starts at that index |
| `Query.Take` | APBD9/APBD9/Controllers/TripsController.cs:25 | LINQ `Take`: a prefix of at most `n` items, and of `min(n, length)` items when `n` is non-negative |
| `Query.PageWindow` | APBD9/APBD9/Controllers/TripsController.cs:22-25 | page `page` holds at most `pageSize` items: item `i` of the page is item `(page-1)*pageSize + i` of the list, and the page is clipped to the end of the list |
| `Query.DescendingWindow` | APBD9/APBD9/Controllers/TripsController.cs:22-25 | a page cut from a date-ordered list is itself date-ordered |
| `Query.CeilDiv` | APBD9/APBD9/Controllers/TripsController.cs:34 | `allPages * pageSize >= total`; `(allPages - 1) * pageSize < total` when `total > 0`; and no trips gives zero pages |
| `Query.ItemOnItsPage` | APBD9/APBD9/Controllers/TripsController.cs:22-34 | item `k` of the ordered list is shown on page `k / pageSize + 1` at position `k % pageSize`, and that page is no later than `allPages` |
| `Query.PagesPastCountAreEmpty` | APBD9/APBD9/Controllers/TripsController.cs:24-34 | every page after `allPages` is empty |
| `TripsController.LinksOfTripCounts` | APBD9/APBD9/Controllers/TripsController.cs:43-45 | the per-trip join keeps each link row of that trip whose client exists, as often as it occurs, and no other row |
| `TripsController.LinksOfTrip` | APBD9/APBD9/Controllers/TripsController.cs:43-45 | every row the join yields is a stored link of that trip whose client exists |
| `TripsController.NamesOfLinks` | APBD9/APBD9/Controllers/TripsController.cs:43-47 | the names projected from the join are exactly the names of the clients linked to the trip |
| `TripsController.ClientsOfTrip` | APBD9/APBD9/Controllers/TripsController.cs:43-47 | a trip's client list has one entry per joined link row, entry `i` being the name of the client of row `i`; a name is listed exactly when some link of that trip leads to a client with that name |
| `TripsController.ViewOf` | APBD9/APBD9/Controllers/TripsController.cs:35-48 | a trip's projection copies name, description, dates and maximum size; lists its country names in order; and lists its clients |
| `TripsController.ViewsOf` | APBD9/APBD9/Controllers/TripsController.cs:35-48 | one projection per trip in the same order, and date-ordered trips give date-ordered projections |
| `TripsController.GetTrips` | APBD9/APBD9/Controllers/TripsController.cs:20-51 | the envelope echoes page and size; `allPages` is the least count with `allPages * pageSize >= total`; it lists at most `pageSize` trips, exactly the clipped slice at `(page-1)*pageSize` of the trips ordered latest start first, in that order |
| `TripsController.DeleteClient` | APBD9/APBD9/Controllers/TripsController.cs:55-73 | 404 exactly when the client is missing; 400 exactly when it exists and a link references it, and the store is then unchanged; 204 otherwise, removing exactly that client and touching neither trips nor links |
| `TripsController.AssignClientToTrip` | APBD9/APBD9/Controllers/TripsController.cs:76-122 | 404 with the message naming the id exactly when the trip is missing; 400 "already exists" exactly when the PESEL is taken; on both errors the store is unchanged; on success one client (the payload's fields, under the new key) and one link (that client, the trip, `now`, the payment date) are added and nothing else changes |
| `ControllerLemmas.AlreadyAssignedImpliesPeselTaken` | APBD9/APBD9/Controllers/TripsController.cs:85-96 | if a link of the trip leads to a client with the PESEL, the earlier PESEL check has already fired, so the "already assigned" branch is dead |
| `ControllerLemmas.AssignNeverReportsAlreadyAssigned` | APBD9/APBD9/Controllers/TripsController.cs:91-96 | no store and no request produce the "Client is already assigned to this trip." answer |
| `ControllerLemmas.DeletePreservesValid` | APBD9/APBD9/Controllers/TripsController.cs:63-70 | deleting keeps the store consistent: the guard leaves no link pointing at the removed client |
| `ControllerLemmas.AssignPreservesValid` | APBD9/APBD9/Controllers/TripsController.cs:85-119 | a consistent store stays consistent after an assignment: PESELs stay unique, the new link resolves, and no client gets linked to the same trip twice |
| `ControllerLemmas.AssignKeepsPeselsUnique` | APBD9/APBD9/Controllers/TripsController.cs:85-105 | if no two clients shared a PESEL before an assignment, none do after it, whatever else holds of the store |
| `ControllerLemmas.NewClientCannotBeDeleted` | APBD9/APBD9/Controllers/TripsController.cs:63-67 | a client just created by an assignment has a link, so deleting it is refused with 400 and changes nothing |
| `ControllerLemmas.LinksOfTripSameKeys` | APBD9/APBD9/Controllers/TripsController.cs:43-45 | the join depends on the clients table only through which referenced keys exist |
| `ControllerLemmas.LinksOfTripAppend` | APBD9/APBD9/Controllers/TripsController.cs:43-45 | appending a link row appends it to its trip's join, and to no other trip's join |
| `ControllerLemmas.SameLinksSameNames` | APBD9/APBD9/Controllers/TripsController.cs:43-47 | two stores that join the same links and agree on those clients show the same names |
| `ControllerLemmas.SameViewsSameListing` | APBD9/APBD9/Controllers/TripsController.cs:22-48 | the listing depends on the links only through each trip's client list |
| `ControllerLemmas.DeleteLeavesListingUnchanged` | APBD9/APBD9/Controllers/TripsController.cs:69-70 | a successful deletion changes no page of the listing |
| `ControllerLemmas.AssignAddsClientToTrip` | APBD9/APBD9/Controllers/TripsController.cs:107-119 | after a successful assignment the trip's client list, read in table order, is the old one plus the new client's name at the end, and every other trip's list is unchanged |
| `ControllerLemmas.EveryTripIsListed` | APBD9/APBD9/Controllers/TripsController.cs:22-34 | with ties in start date broken the same way on every request, every stored trip is shown on some page between 1 and `allPages` |
| `ControllerLemmas.TwentyFiveTripsMakeThreePages` | APBD9/APBD9/Controllers/TripsController.cs:27-34 | with 25 trips and 10 per page there are 3 pages, and page 3 holds 5 trips |
| `Decimal.ParseFormatInt` | APBD9/APBD9/Controllers/TripsController.cs:81 | the id written into the not-found message reads back as the same number |
| `Decimal.FormatIntInjective` | APBD9/APBD9/Controllers/TripsController.cs:81 | distinct ids are rendered as distinct digit strings |
| `TripsController.TripNotFoundMessageInjective` | APBD9/APBD9/Controllers/TripsController.cs:81 | distinct trip ids give distinct not-found messages |

## Left out

- Entity Framework Core, async I/O and HTTP are not modelled: `FindAsync`, `AnyAsync`, `SaveChangesAsync`, `Include`, lazy loading and the `IActionResult` types. The store is a value, and `Response` stands in for the status codes.
- Routing and binding attributes are left out, including the query-string defaults `page = 1` and `pageSize = 10`. The model takes page and page size explicitly. The code routes the delete action at `DELETE api/trips/{id}`; the model follows the code.
- TripsController.GetTrips: requires `page >= 1` and `pageSize > 0`. The code does not validate these. For zero or negative values its behaviour depends on floating-point division and on the database provider's handling of a negative `OFFSET`.
- TripsController.GetTrips: the offset `(page - 1) * pageSize` is computed on unbounded integers. The code uses 32-bit arithmetic, which wraps around for very large pages; this is not modelled.
- TripsController.GetTrips: the page count is integer ceiling division rather than `(int)Math.Ceiling(total / (double)pageSize)`. For totals and page sizes within 32 bits the two agree, but the double arithmetic is not modelled.
- TripsController.GetTrips: the database leaves the order of trips with equal `DateFrom` unspecified. The model fixes one such order, table order, so its listing is one of the orders the query may return.
- TripsController.ClientsOfTrip: the per-trip client query has no ordering, so the database may return the link rows in any order. The model reads them in table order; the order of a trip's client list, and the claim that a new client comes last in it, hold for that order only.
- ControllerLemmas.EveryTripIsListed: each page is a separate query, and the database may order trips with equal start dates differently from one request to the next. The lemma holds when every request breaks ties the same way, as the model's single order does.
- TripsController.ViewOf: assumes every trip's `IdCountries` collection is loaded and in a fixed order. The listing query never `Include`s it, so unless the context (not part of this model) enables lazy loading, Entity Framework Core leaves it empty.
- `DateTime` values are integer ticks. `DateTime.Now` is the `now` parameter; the clock is not modelled.
- TripsController.AssignClientToTrip: the new client's key is the parameter `freshId`, which must not already be a client key. The database's identity generation is not modelled. The link row's own key column is not modelled either.
- TripsController.AssignClientToTrip: PESELs are compared by exact string equality. A database collation (for example a case-insensitive one) is not modelled, nor is a null PESEL.
- Decimal.FormatInt: writes the minus sign as `-`. Culture-specific number formatting is not modelled.
- The entity classes (`APBD9/Models`) and the context (`APBD9/Data`) are not part of this model. Their fields are taken from how the controller uses them.
- Database constraints, transactions and concurrent writers are left out. The controller does not coordinate them itself.
- Creating trips and countries is left out: no such action exists in the controller. Trips and their countries are treated as pre-existing data.
