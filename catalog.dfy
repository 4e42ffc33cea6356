/** The one-time import of the external launch catalog: the sentinel check,
    the status check of the catalog's answer, the transform of each catalog
    document into a launch record and the sequence of upserts. */
module Catalog {
  import opened LaunchStore

  datatype Payload = Payload(customers: seq<string>)
  datatype Rocket = Rocket(name: string)

  /** One catalog document, with its rocket and payloads resolved. */
  datatype Doc = Doc(
    flightNumber: int,
    name: string,
    rocket: Rocket,
    dateLocal: string,
    upcoming: bool,
    success: bool,
    payloads: seq<Payload>)

  /** The catalog's answer to the one unpaginated query: an HTTP status with
      its documents, or no answer at all. */
  datatype CatalogResponse = Answered(status: int, docs: seq<Doc>) | Unreachable

  datatype LoadOutcome =
    | AlreadyLoaded
    | Populated(count: nat)
    | RequestRejected
    | DownloadFailed(error: string)

  datatype Loading = Loading(outcome: LoadOutcome, store: Collection)

  const DOWNLOAD_FAILED: string := "Launch data download failed"

  /** The first historical launch, whose presence marks the data as loaded. */
  const SENTINEL: Filter := Filter(1, Some("Falcon 1"), Some("FalconSat"))

  // ----------------------------------------------------------------------
  // Transform

  /** `payloads.flatMap(p => p.customers)`. */
  function FlatCustomers(ps: seq<Payload>): seq<string> {
    if ps == [] then [] else ps[0].customers + FlatCustomers(ps[1..])
  }

  /** Flattening keeps the payloads' order: it maps concatenation to
      concatenation. */
  lemma {:induction false} FlatCustomersAppend(a: seq<Payload>, b: seq<Payload>)
    ensures FlatCustomers(a + b) == FlatCustomers(a) + FlatCustomers(b)
  {
    if a == [] {
      assert a + b == b;
    } else {
      assert (a + b)[1..] == a[1..] + b;
      FlatCustomersAppend(a[1..], b);
    }
  }

  /** A customer is in the flattened list exactly when some payload lists it. */
  lemma {:induction false} FlatCustomersMembers(ps: seq<Payload>, name: string)
    ensures name in FlatCustomers(ps) <==> exists i :: 0 <= i < |ps| && name in ps[i].customers
  {
    if ps != [] {
      FlatCustomersMembers(ps[1..], name);
      if name in FlatCustomers(ps[1..]) {
        var i :| 0 <= i < |ps[1..]| && name in ps[1..][i].customers;
        assert name in ps[i + 1].customers;
      }
      if exists i :: 0 <= i < |ps| && name in ps[i].customers {
        var i :| 0 <= i < |ps| && name in ps[i].customers;
        if i > 0 {
          assert name in ps[1..][i - 1].customers;
        }
      }
    }
  }

  /** The flattened list is as long as all the payloads' lists together. */
  lemma {:induction false} FlatCustomersLength(ps: seq<Payload>)
    ensures |FlatCustomers(ps)| == CustomerCount(ps)
  {
    if ps != [] {
      FlatCustomersLength(ps[1..]);
    }
  }

  /** The number of customers over all payloads, counted payload by payload
      without building the flattened list. */
  function CustomerCount(ps: seq<Payload>): nat {
    if ps == [] then 0 else |ps[0].customers| + CustomerCount(ps[1..])
  }

  /** The launch record made from a catalog document; it has no target. */
  function ToLaunch(d: Doc): Launch {
    Launch(d.flightNumber, d.name, d.rocket.name, d.dateLocal, None,
           FlatCustomers(d.payloads), d.upcoming, d.success)
  }

  // ----------------------------------------------------------------------
  // The sequence of upserts

  /** The flight numbers of the documents. */
  function FlightNumbers(docs: seq<Doc>): set<int>
    decreases |docs|
  {
    if docs == [] then {} else FlightNumbers(docs[..|docs| - 1]) + {docs[|docs| - 1].flightNumber}
  }

  /** Upserting the transformed documents one after the other, in order. */
  function UpsertAll(c: Collection, docs: seq<Doc>): (r: Collection)
    ensures r.Keys == c.Keys + FlightNumbers(docs)
    ensures forall k :: k in c && k !in FlightNumbers(docs) ==> r[k] == c[k]
    ensures forall k :: k in r ==> r[k].target == if k in c then c[k].target else None
    ensures Keyed(c) ==> Keyed(r)
    decreases |docs|
  {
    if docs == [] then c
    else
      var n := |docs| - 1;
      Upsert(UpsertAll(c, docs[..n]), ToLaunch(docs[n]))
  }

  /** The position of the last document with flight number `k`. */
  function LastIndex(docs: seq<Doc>, k: int): (i: nat)
    requires k in FlightNumbers(docs)
    ensures i < |docs| && docs[i].flightNumber == k
    ensures forall j :: i < j < |docs| ==> docs[j].flightNumber != k
    decreases |docs|
  {
    var n := |docs| - 1;
    if docs[n].flightNumber == k then n
    else LastIndex(docs[..n], k)
  }

  /** The last document with a flight number decides that record: all its
      fields, with the target the store had before (none on a new record). */
  lemma {:induction false} LastDocumentWins(c: Collection, docs: seq<Doc>, i: int)
    requires 0 <= i < |docs|
    requires forall j :: i < j < |docs| ==> docs[j].flightNumber != docs[i].flightNumber
    ensures var k := docs[i].flightNumber;
      var r := UpsertAll(c, docs);
      k in r && r[k] == ToLaunch(docs[i]).(target := if k in c then c[k].target else None)
    decreases |docs|
  {
    var n := |docs| - 1;
    if i < n {
      var front := docs[..n];
      assert front[i] == docs[i];
      assert forall j :: i < j < |front| ==> front[j] == docs[j];
      LastDocumentWins(c, front, i);
      LaterDocumentKeeps(c, docs, docs[i].flightNumber);
    } else {
      FinalDocument(c, docs);
    }
  }

  lemma LaterDocumentKeeps(c: Collection, docs: seq<Doc>, k: int)
    requires docs != [] && docs[|docs| - 1].flightNumber != k
    requires k in UpsertAll(c, docs[..|docs| - 1])
    ensures k in UpsertAll(c, docs)
    ensures UpsertAll(c, docs)[k] == UpsertAll(c, docs[..|docs| - 1])[k]
  {
  }

  lemma FinalDocument(c: Collection, docs: seq<Doc>)
    requires docs != []
    ensures var d := docs[|docs| - 1];
      var k := d.flightNumber;
      var r := UpsertAll(c, docs);
      k in r && r[k] == ToLaunch(d).(target := if k in c then c[k].target else None)
  {
    var n := |docs| - 1;
    var prev := UpsertAll(c, docs[..n]);
    UpsertedTarget(prev, ToLaunch(docs[n]));
  }

  lemma UpsertedTarget(prev: Collection, l: Launch)
    requires l.target.None?
    ensures var r := Upsert(prev, l);
      r[l.flightNumber] == l.(target := if l.flightNumber in prev then prev[l.flightNumber].target else None)
  {
  }

  /** Importing the same documents a second time changes nothing. */
  lemma ReimportIsNoOp(c: Collection, docs: seq<Doc>)
    ensures UpsertAll(UpsertAll(c, docs), docs) == UpsertAll(c, docs)
  {
    var once := UpsertAll(c, docs);
    var twice := UpsertAll(once, docs);
    forall k | k in twice ensures twice[k] == once[k] {
      if k in FlightNumbers(docs) {
        var i := LastIndex(docs, k);
        LastDocumentWins(c, docs, i);
        LastDocumentWins(once, docs, i);
      }
    }
  }

  // ----------------------------------------------------------------------
  // populateLaunches and loadLaunchData

  /** `populateLaunches`: the status check of the catalog's answer, then the
      upserts. A non-2xx status is rejected by the HTTP client itself; any
      other status than 200 fails the download. */
  function Populate(c: Collection, response: CatalogResponse): Loading {
    if response.Unreachable? || !(200 <= response.status < 300) then
      Loading(RequestRejected, c)
    else if response.status != 200 then
      Loading(DownloadFailed(DOWNLOAD_FAILED), c)
    else
      Loading(Populated(|response.docs|), UpsertAll(c, response.docs))
  }

  /** `loadLaunchData`: nothing happens once the sentinel record exists. */
  function Load(c: Collection, response: CatalogResponse): Loading
    requires Keyed(c)
  {
    if FindOne(c, SENTINEL).Some? then Loading(AlreadyLoaded, c) else Populate(c, response)
  }

  /** The import reports "already loaded", and leaves the store untouched,
      exactly when the sentinel record is present. */
  lemma AlreadyLoadedIffSentinel(c: Collection, response: CatalogResponse)
    requires Keyed(c)
    ensures Load(c, response).outcome == AlreadyLoaded <==> FindOne(c, SENTINEL).Some?
    ensures FindOne(c, SENTINEL).Some? ==> Load(c, response).store == c
  {
  }

  /** A failed download commits nothing. */
  lemma FailedLoadKeepsStore(c: Collection, response: CatalogResponse)
    requires Keyed(c)
    ensures !Load(c, response).outcome.Populated? ==> Load(c, response).store == c
    ensures Load(c, response).outcome.Populated? <==>
      FindOne(c, SENTINEL).None? && response.Answered? && response.status == 200
  {
  }

  /** Each imported document becomes the record under its flight number, with
      the payloads' customers flattened in order, unless a later document has
      the same number. */
  lemma ImportedRecord(c: Collection, response: CatalogResponse, i: int)
    requires Keyed(c) && FindOne(c, SENTINEL).None?
    requires response.Answered? && response.status == 200
    requires 0 <= i < |response.docs|
    requires forall j :: i < j < |response.docs| ==>
      response.docs[j].flightNumber != response.docs[i].flightNumber
    ensures var d := response.docs[i];
      var r := Load(c, response).store;
      && Keyed(r)
      && d.flightNumber in r
      && r[d.flightNumber].flightNumber == d.flightNumber
      && r[d.flightNumber].mission == d.name
      && r[d.flightNumber].rocket == d.rocket.name
      && r[d.flightNumber].launchDate == d.dateLocal
      && r[d.flightNumber].upcoming == d.upcoming
      && r[d.flightNumber].success == d.success
      && r[d.flightNumber].customers == FlatCustomers(d.payloads)
  {
    LastDocumentWins(c, response.docs, i);
  }

  ghost predicate IsSentinelDoc(d: Doc) {
    d.flightNumber == 1 && d.rocket.name == "Falcon 1" && d.name == "FalconSat"
  }

  /** The catalog holds the first historical launch as its last document
      with flight number 1. */
  ghost predicate ProvidesSentinel(docs: seq<Doc>) {
    exists i :: 0 <= i < |docs| && IsSentinelDoc(docs[i]) &&
      forall j :: i < j < |docs| ==> docs[j].flightNumber != 1
  }

  /** Importing a catalog that holds the first launch installs the sentinel. */
  lemma ImportInstallsSentinel(c: Collection, docs: seq<Doc>)
    requires Keyed(c) && ProvidesSentinel(docs)
    ensures FindOne(UpsertAll(c, docs), SENTINEL).Some?
  {
    var i :| 0 <= i < |docs| && IsSentinelDoc(docs[i]) &&
      forall j :: i < j < |docs| ==> docs[j].flightNumber != 1;
    LastDocumentWins(c, docs, i);
  }

  /** After an import of a catalog that holds the first launch, a second
      import is a no-op, whatever the catalog answers then. */
  lemma SecondLoadIsNoOp(c: Collection, first: CatalogResponse, second: CatalogResponse)
    requires Keyed(c)
    requires Load(c, first).outcome.Populated? && ProvidesSentinel(first.docs)
    ensures var loaded := Load(c, first).store;
      Load(loaded, second) == Loading(AlreadyLoaded, loaded)
  {
    assert Load(c, first).store == UpsertAll(c, first.docs);
    ImportInstallsSentinel(c, first.docs);
  }
}
