# Launch lifecycle of the NASA mission-control server, in Dafny

This project models the launch core of the server: the launches model
(`server/src/models/launches.model.js`) and the two request handlers that
drive it (`server/src/routes/launches/launches.controller.js`).

- The launch collection is a `map<int, Launch>` from flight number to record.
  The store invariant `LaunchStore.Keyed` says every record sits under its
  own flight number, so the flight number is a unique key. The planets
  collection is a set of planet names.
- `LaunchStore` gives the effect of each query the model sends to the
  database: the sorted listing with skip and limit, the upsert, the lookup of
  the latest flight number, the lookup by an equality filter, and the status
  update of an abort with its modified count.
- `Scheduler` covers scheduling: the destination check, the flight number
  (one more than the latest, or the request's test number), the fixed
  defaults, and the upsert.
- `Catalog` covers the bootstrap import: the check for the sentinel record
  (flight 1, "Falcon 1", "FalconSat"), the status check of the catalog's
  answer, the transform of each catalog document into a launch, and the
  upserts done one after the other.
- `LaunchesModel.Launches` is the model module itself. It is a class whose
  `launches` field the methods update in place. Each method is proved
  against the functions above. `PopulateLaunches` keeps the loop of the
  source, with its invariant.
- `LaunchesController` holds the handlers. It gives the order of the checks
  and the mapping to a status code and body. Each handler is a pure function
  of the collection (`PostNewLaunch`, `AbortLaunchRequest`) with lemmas about
  it, and there is a method over the model object that is proved equal to
  that function.

On these points the model follows what the code does:

- On an empty store the first scheduled flight is 101. The lookup returns the
  default 100, and scheduling adds 1 (`Scheduler.FirstScheduledFlight`).
- When the store's greatest flight number is below 100, the latest flight
  number is that number, not 100.
- The fixed defaults (`upcoming`, `success`, the customers `ZTM` and `NASA`)
  are assigned on every scheduled launch. A test number changes only the
  flight number.
- An abort reports success only when `modifiedCount` is 1. That count is the
  number of records whose fields actually changed. So aborting a launch that
  is already aborted is answered 400 "Launch not aborted", not success
  (`LaunchesController.AbortAgainIsRefused`).
- The upsert is not a full replacement. Mongoose applies an update document
  without operators as a `$set` of the fields it holds. So a catalog record,
  which has no target, keeps the target already stored under its flight
  number (`LaunchStore.Upsert`, `Catalog.LastDocumentWins`). Importing the
  same catalog again still changes nothing (`Catalog.ReimportIsNoOp`).
- A limit of 0 in the listing means no limit, as in MongoDB.

## Model

| member | source | states |
|---|---|---|
| LaunchStore.Ascending | server/src/models/launches.model.js:15-17 | the keys come out in strictly increasing order, each key exactly once |
| LaunchStore.ListingIsWindow | server/src/models/launches.model.js:9-20 | the listing is strictly ascending by flight number; a record is in it iff it is stored and its rank among the flight numbers is at least `skip` and, when `limit` is not 0, below `skip + limit`; it has at most `limit` records |
| LaunchStore.Page | server/src/models/launches.model.js:18-19 | the page starts at position `skip` of the sorted records and keeps their order; every record from `skip` on is in it, up to `limit` of them (all when the limit is 0); it has at most `limit` records |
| LaunchStore.Listing | server/src/models/launches.model.js:9-20 | the sorted, skipped and limited listing; its contract is `LaunchStore.ListingIsWindow` |
| LaunchStore.Upsert | server/src/models/launches.model.js:22-27 | the flight number becomes a key; the record under it holds every field of the launch, and keeps the stored target only when the launch has none; every other record is unchanged; the unique key is kept |
| LaunchStore.UpsertLeavesOneRecord | server/src/models/launches.model.js:22-31 | after an upsert exactly one record has the launch's flight number |
| LaunchStore.LatestFlightNumber | server/src/models/launches.model.js:33-42 | 100 on an empty store, otherwise a stored flight number that no other exceeds |
| LaunchStore.LatestIsDetermined | server/src/models/launches.model.js:33-42 | any number with those two properties is the latest flight number |
| LaunchStore.LatestIsLastListed | server/src/models/launches.model.js:34-41 | the latest flight number, found by sorting descending, is that of the last record of the ascending listing |
| LaunchStore.FindOne | server/src/models/launches.model.js:66-68 | a found record is stored and matches the filter; when none is found, no stored record matches |
| LaunchStore.FindByIdIffStored | server/src/models/launches.model.js:70-74 | a launch is found by id iff a record has that flight number |
| LaunchStore.AbortUpdate | server/src/models/launches.model.js:76-82 | the keys stay the same; the record with the id gets `upcoming` and `success` false; no other record changes; the modified count is the number of records whose fields changed; the unique key is kept |
| LaunchStore.AbortCountsChange | server/src/models/launches.model.js:77-83 | one record is modified iff the id is stored and that launch was upcoming or successful |
| LaunchStore.AbortKeepsOtherFields | server/src/models/launches.model.js:77-82 | an abort changes no field of the launch other than `upcoming` and `success` |
| LaunchStore.AbortTwice | server/src/models/launches.model.js:76-84 | a second abort leaves the store as it is and modifies no record |
| Scheduler.NewLaunch | server/src/models/launches.model.js:56-61 | the request with the defaults and the flight number assigned over it; its contract is `Scheduler.ScheduledRecord`, `Scheduler.ScheduledNumberIsNext` and `Scheduler.TestNumberOverrides` |
| Scheduler.Schedule | server/src/models/launches.model.js:44-64 | the answer of `scheduleNewLaunch` and the store after it; its contract is `Scheduler.RefusedIffUnknownTarget`, `Scheduler.ScheduledRecord`, `Scheduler.ScheduledNumberIsNext`, `Scheduler.FirstScheduledFlight`, `Scheduler.TestNumberOverrides` and `Scheduler.ScheduleKeepsKeyed` |
| Scheduler.RefusedIffUnknownTarget | server/src/models/launches.model.js:44-54 | scheduling is refused iff the target is not a known planet; the refusal is "No matching planet found" and leaves the store unchanged |
| Scheduler.ScheduledRecord | server/src/models/launches.model.js:55-63 | a scheduled launch carries the request's mission, rocket, date and target, is upcoming and successful, has the customers ZTM and NASA, and is stored as it is under its flight number; the store gains that key and no other record changes |
| Scheduler.ScheduledNumberIsNext | server/src/models/launches.model.js:55-60 | without a test number the flight number is the latest plus one, above every stored one, so no record is overwritten |
| Scheduler.FirstScheduledFlight | server/src/models/launches.model.js:33-60 | on an empty store the first scheduled flight is number 101 |
| Scheduler.TestNumberOverrides | server/src/models/launches.model.js:56-63 | with a truthy test number the flight number is that number whatever the store holds, and it replaces the record under it |
| Scheduler.ScheduleKeepsKeyed | server/src/models/launches.model.js:44-64 | scheduling keeps the flight number a unique key |
| Catalog.FlatCustomers | server/src/models/launches.model.js:116-118 | the payloads' customers one after the other; its contract is `Catalog.FlatCustomersAppend`, `Catalog.FlatCustomersMembers` and `Catalog.FlatCustomersLength` |
| Catalog.ToLaunch | server/src/models/launches.model.js:120-128 | the record made from one document, without a target; its contract is `Catalog.ImportedRecord` and `Catalog.LastDocumentWins` |
| Catalog.FlatCustomersAppend | server/src/models/launches.model.js:115-118 | flattening maps concatenation of payload lists to concatenation of customer lists, so the payloads' order is kept |
| Catalog.FlatCustomersMembers | server/src/models/launches.model.js:115-118 | a customer is in the flattened list iff some payload lists it |
| Catalog.FlatCustomersLength | server/src/models/launches.model.js:115-118 | the flattened list is as long as all the payloads' lists together |
| Catalog.UpsertAll | server/src/models/launches.model.js:114-131 | the keys afterwards are the old keys and the documents' flight numbers; records no document names are unchanged; targets are the stored ones (none on new records); the unique key is kept |
| Catalog.LastIndex | server/src/models/launches.model.js:114-131 | for a flight number some document has, the index of the last document with it |
| Catalog.LastDocumentWins | server/src/models/launches.model.js:114-131 | the last document with a flight number decides that record: all its transformed fields, with the target stored before |
| Catalog.ReimportIsNoOp | server/src/models/launches.model.js:114-131 | running the upserts of the same documents a second time changes nothing |
| Catalog.Populate | server/src/models/launches.model.js:108-131 | the status checks and the upserts of `populateLaunches`; its contract is `Catalog.FailedLoadKeepsStore`, `Catalog.UpsertAll`, `Catalog.LastDocumentWins` and `Catalog.ImportedRecord` |
| Catalog.Load | server/src/models/launches.model.js:135-147 | the sentinel check of `loadLaunchData`, then `Populate`; its contract is `Catalog.AlreadyLoadedIffSentinel`, `Catalog.FailedLoadKeepsStore` and `Catalog.SecondLoadIsNoOp` |
| Catalog.AlreadyLoadedIffSentinel | server/src/models/launches.model.js:135-147 | the import reports "already loaded" iff the sentinel record is stored, and then leaves the store unchanged |
| Catalog.FailedLoadKeepsStore | server/src/models/launches.model.js:108-111 | an import that does not populate leaves the store unchanged; it populates iff the sentinel is absent and the catalog answered 200 |
| Catalog.ImportedRecord | server/src/models/launches.model.js:115-130 | each imported document, unless a later one has the same flight number, is stored with its flight number, name, rocket name, local date, flags, and its payloads' customers flattened in order |
| Catalog.ImportInstallsSentinel | server/src/models/launches.model.js:136-140 | importing a catalog that holds the first launch stores the sentinel record |
| Catalog.SecondLoadIsNoOp | server/src/models/launches.model.js:135-147 | after an import of a catalog holding the first launch, a second import reports "already loaded" and changes nothing, whatever the catalog answers |
| LaunchesModel.Launches.GetAllLaunches | server/src/models/launches.model.js:9-20 | the page is strictly ascending by flight number, holds exactly the records of the skip/limit window, and at most `limit` of them |
| LaunchesModel.Launches.SaveLaunch | server/src/models/launches.model.js:22-31 | the collection becomes the upsert of the launch, the unique key is kept, and the answer is ok |
| LaunchesModel.Launches.GetLatestFlightNumber | server/src/models/launches.model.js:33-42 | 100 on an empty collection, otherwise the greatest stored flight number |
| LaunchesModel.Launches.ScheduleNewLaunch | server/src/models/launches.model.js:44-64 | the answer and the new collection are those of `Scheduler.Schedule` on the old collection |
| LaunchesModel.Launches.FindLaunch | server/src/models/launches.model.js:66-68 | a found record is stored and matches; when none is found, none matches |
| LaunchesModel.Launches.HasLaunchById | server/src/models/launches.model.js:70-74 | finds the stored record with the id iff there is one |
| LaunchesModel.Launches.AbortLaunch | server/src/models/launches.model.js:76-84 | the collection becomes that of the abort update, and the answer is true iff exactly one record was modified |
| LaunchesModel.Launches.PopulateLaunches | server/src/models/launches.model.js:108-131 | a rejected or failed download changes nothing; otherwise the collection becomes the upserts of the transformed documents in order |
| LaunchesModel.Launches.LoadLaunchData | server/src/models/launches.model.js:135-147 | the outcome and the new collection are those of `Catalog.Load` |
| LaunchesController.MissingParameters | server/src/routes/launches/launches.controller.js:20-24 | a required field is empty; its contract is the first clause of `LaunchesController.PostChecksInOrder` and the 201 condition of `LaunchesController.PostCreatedIff` |
| LaunchesController.PostNewLaunch | server/src/routes/launches/launches.controller.js:18-43 | the answer of `httpPostNewLaunch` and the store after it; its contract is `LaunchesController.PostChecksInOrder` and `LaunchesController.PostCreatedIff` |
| LaunchesController.AbortLaunchRequest | server/src/routes/launches/launches.controller.js:45-61 | the answer of `httpAbortLaunch` and the store after it; its contract is `LaunchesController.AbortNotFoundIff`, `LaunchesController.AbortFoundReply` and `LaunchesController.AbortAgainIsRefused` |
| LaunchesController.PostChecksInOrder | server/src/routes/launches/launches.controller.js:18-36 | a missing field is answered 400 "Some parameters are missing" whatever the date and target; then an invalid date is answered 400 "Invalid launch date"; then an unknown planet is answered 400 "No matching planet found"; none of these writes anything |
| LaunchesController.PostCreatedIff | server/src/routes/launches/launches.controller.js:36-42 | the answer is 201 iff every field is present, the date is valid and the target is known, and it then carries the launch stored under its flight number with the defaults; any other answer is a 400 error and writes nothing |
| LaunchesController.AbortNotFoundIff | server/src/routes/launches/launches.controller.js:45-49 | the answer is 404 iff no launch has the id, and then nothing is written |
| LaunchesController.AbortFoundReply | server/src/routes/launches/launches.controller.js:50-59 | for an existing launch the answer is 200 `{ok: true}` iff the abort modified it, and 400 "Launch not aborted" otherwise; the launch is aborted afterwards and no other record changes |
| LaunchesController.AbortAgainIsRefused | server/src/routes/launches/launches.controller.js:45-59 | aborting the same launch again is answered 400 "Launch not aborted" and changes nothing |
| LaunchesController.HttpGetAllLaunches | server/src/routes/launches/launches.controller.js:12-16 | the answer is 200; its body is strictly ascending by flight number, holds exactly the records of the skip/limit window, and at most `limit` of them |
| LaunchesController.HttpPostNewLaunch | server/src/routes/launches/launches.controller.js:18-43 | the answer and the new collection are those of `PostNewLaunch` |
| LaunchesController.HttpAbortLaunch | server/src/routes/launches/launches.controller.js:45-61 | the answer and the new collection are those of `AbortLaunchRequest` |

## Left out

- The database connection (`server/src/services/mongo.js`) and the asynchronous I/O of every call: each database operation is one step on the in-memory map, and none of them fails. Store failures that the source lets propagate are not modelled.
- The request to the external catalog. The catalog's answer is a parameter: a status with its documents, or no answer at all. The query's populate and select options are reflected only in the shape of `Catalog.Doc`. A status outside 200-299 stands for the HTTP client's own rejection. Any other status but 200 is the source's "Launch data download failed".
- `Catalog.Doc`: the catalog's `success` flag is `null` for launches that have not flown; the model takes it as a boolean.
- Logging with `console.log`.
- Parsing of the launch date into a JavaScript `Date` and the "Invalid Date" test: the handler gets a validity predicate `validDate` on the date text, and the date is stored as that text.
- `getPagination` from `services/query` is not part of this model: `skip` and `limit` are given as natural numbers.
- The Express request and response objects: a response is a status code and a body.
- The cast of the `id` route parameter to a number, and a text that does not cast: the id is an integer, and the 404 message prints it in decimal, where the source echoes the text as the caller wrote it (leading zeros, for instance).
- Concurrency, including the race between reading the latest flight number and saving the new launch: calls run one after the other.
- `MissingParameters`: only the empty string counts as a missing field. Other falsy JavaScript values are not modelled, since every field is a string here.
- `HasTestNumber`: the `test` field is an optional integer, truthy when present and not 0. Other JavaScript types for it are not modelled.
- `LaunchStore.FindOne`: only filters that fix the flight number are modelled, which covers both filters the source uses. The unfiltered `findOne()` appears only through the latest-flight-number lookup.
- The Mongoose schema of the launches collection is not part of this model. Fields the request carries beyond the record's (such as `test`) are not stored.
- The 201 body. The source answers with the request object after `Object.assign`, so the body also holds `test` and any other field the caller sent. The model's `LaunchBody` holds only the record's fields.
- Flight numbers are JavaScript numbers, that is doubles. The model uses unbounded integers, so it does not capture a test number that is not an integer, nor the rounding of `latest + 1` once it passes 2^53.
- `Scheduler.ScheduleResult`: `Scheduled(l)` stands for the `{ok: true}` answer together with the request object that `Object.assign` filled in. The handler answers with that object. The in-place update of the request object is modelled by returning the assigned record.
