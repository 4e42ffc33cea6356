/** The HTTP handlers for launches: request validation and the mapping of
    the model's answers to a status code and a JSON body. */
module LaunchesController {
  import opened LaunchStore
  import opened Scheduler
  import opened LaunchesModel

  /** The JSON bodies the handlers send. */
  datatype Body =
    | ErrorBody(error: string)
    | LaunchBody(launch: Launch)
    | OkBody
    | LaunchList(launches: seq<Launch>)

  datatype Response = Response(status: int, body: Body)

  /** A response together with the collection after the request. */
  datatype Exchange = Exchange(response: Response, store: Collection)

  const MISSING_PARAMETERS: string := "Some parameters are missing"
  const INVALID_LAUNCH_DATE: string := "Invalid launch date"
  const NOT_ABORTED: string := "Launch not aborted"

  /** A required field that is empty (or was left out) is missing. */
  predicate MissingParameters(req: LaunchRequest) {
    req.mission == "" || req.rocket == "" || req.launchDate == "" || req.target == ""
  }

  function DecimalDigits(n: nat): string
    decreases n
  {
    var d := "0123456789"[n % 10];
    if n < 10 then [d] else DecimalDigits(n / 10) + [d]
  }

  function DecimalString(i: int): string {
    if i < 0 then "-" + DecimalDigits(-i) else DecimalDigits(i)
  }

  function NotFoundMessage(id: int): string {
    "No launches with id " + DecimalString(id) + " found."
  }

  /** The answer to a scheduling request that reached the model. */
  function ScheduledReply(r: ScheduleResult): Response {
    match r
    case Scheduled(launch) => Response(201, LaunchBody(launch))
    case NotScheduled(error) => Response(400, ErrorBody(error))
  }

  /** The answer once the launch to abort was found. */
  function AbortedReply(aborted: bool): Response {
    if aborted then Response(200, OkBody) else Response(400, ErrorBody(NOT_ABORTED))
  }

  // ----------------------------------------------------------------------
  // The handlers as functions of the collection

  /** `httpPostNewLaunch`: missing fields, then the date, then scheduling. */
  function PostNewLaunch(c: Collection, planets: set<string>, req: LaunchRequest,
                         validDate: string -> bool): Exchange
  {
    if MissingParameters(req) then
      Exchange(Response(400, ErrorBody(MISSING_PARAMETERS)), c)
    else if !validDate(req.launchDate) then
      Exchange(Response(400, ErrorBody(INVALID_LAUNCH_DATE)), c)
    else
      var s := Schedule(c, planets, req);
      Exchange(ScheduledReply(s.result), s.store)
  }

  /** `httpAbortLaunch`: 404 when no launch has the id, otherwise the abort
      and its answer. */
  function AbortLaunchRequest(c: Collection, id: int): Exchange
    requires Keyed(c)
  {
    if FindOne(c, ById(id)).None? then
      Exchange(Response(404, ErrorBody(NotFoundMessage(id))), c)
    else
      var u := AbortUpdate(c, id);
      Exchange(AbortedReply(u.modifiedCount == 1), u.store)
  }

  /** The checks run in order: a missing field answers 400 before the date
      is looked at, an invalid date answers 400 before the target is, and
      none of these refusals writes anything. */
  lemma PostChecksInOrder(c: Collection, planets: set<string>, req: LaunchRequest,
                          validDate: string -> bool)
    ensures var e := PostNewLaunch(c, planets, req, validDate);
      && (MissingParameters(req) ==>
            e == Exchange(Response(400, ErrorBody(MISSING_PARAMETERS)), c))
      && (!MissingParameters(req) && !validDate(req.launchDate) ==>
            e == Exchange(Response(400, ErrorBody(INVALID_LAUNCH_DATE)), c))
      && (!MissingParameters(req) && validDate(req.launchDate) && req.target !in planets ==>
            e == Exchange(Response(400, ErrorBody(NO_MATCHING_PLANET)), c))
  {
  }

  /** A request is answered 201 exactly when every field is present, the
      date is valid and the target is a known planet; it is then the saved
      launch that is sent back. Any other answer is 400 and writes nothing. */
  lemma PostCreatedIff(c: Collection, planets: set<string>, req: LaunchRequest,
                       validDate: string -> bool)
    ensures var e := PostNewLaunch(c, planets, req, validDate);
      && (e.response.status == 201 <==>
            !MissingParameters(req) && validDate(req.launchDate) && req.target in planets)
      && (e.response.status != 201 ==> e.response.status == 400 && e.response.body.ErrorBody? && e.store == c)
      && (e.response.status == 201 ==>
            && e.response.body.LaunchBody?
            && var l := e.response.body.launch;
            && l.flightNumber in e.store && e.store[l.flightNumber] == l
            && l.upcoming && l.success && l.customers == DEFAULT_CUSTOMERS)
  {
    if !MissingParameters(req) && validDate(req.launchDate) && req.target in planets {
      ScheduledRecord(c, planets, req);
    }
  }

  /** The answer is 404 exactly when no launch has the id; the abort is then
      not attempted and the collection is unchanged. */
  lemma AbortNotFoundIff(c: Collection, id: int)
    requires Keyed(c)
    ensures var e := AbortLaunchRequest(c, id);
      && (e.response.status == 404 <==> id !in c)
      && (id !in c ==> e.store == c && e.response.body == ErrorBody(NotFoundMessage(id)))
  {
    FindByIdIffStored(c, id);
  }

  /** For an existing launch the answer is 200 `{ok: true}` exactly when the
      abort modified it, and 400 "Launch not aborted" otherwise; either way
      the launch is aborted afterwards and no other record changed. */
  lemma AbortFoundReply(c: Collection, id: int)
    requires Keyed(c) && id in c
    ensures var e := AbortLaunchRequest(c, id);
      && (e.response == Response(200, OkBody) <==> c[id].upcoming || c[id].success)
      && (e.response != Response(200, OkBody) ==> e.response == Response(400, ErrorBody(NOT_ABORTED)))
      && id in e.store && !e.store[id].upcoming && !e.store[id].success
      && (forall k :: k in c && k != id ==> k in e.store && e.store[k] == c[k])
  {
    FindByIdIffStored(c, id);
    AbortCountsChange(c, id);
  }

  /** Aborting a launch a second time is answered 400 and changes nothing:
      the second update modifies no record. */
  lemma AbortAgainIsRefused(c: Collection, id: int)
    requires Keyed(c) && id in c
    ensures var once := AbortLaunchRequest(c, id).store;
      && Keyed(once)
      && AbortLaunchRequest(once, id) == Exchange(Response(400, ErrorBody(NOT_ABORTED)), once)
  {
    var once := AbortUpdate(c, id).store;
    FindByIdIffStored(c, id);
    FindByIdIffStored(once, id);
    AbortTwice(c, id);
  }

  // ----------------------------------------------------------------------
  // The handlers over the model

  /** `httpGetAllLaunches`, with the pagination already parsed. */
  method HttpGetAllLaunches(model: Launches, skip: nat, limit: nat) returns (resp: Response)
    requires model.Valid()
    ensures resp.status == 200 && resp.body.LaunchList?
    ensures forall i, j :: 0 <= i < j < |resp.body.launches| ==>
      resp.body.launches[i].flightNumber < resp.body.launches[j].flightNumber
    ensures forall l :: l in resp.body.launches <==> InWindow(model.launches, l, skip, limit)
    ensures limit != 0 ==> |resp.body.launches| <= limit
  {
    var launches := model.GetAllLaunches(skip, limit);
    resp := Response(200, LaunchList(launches));
  }

  /** `httpPostNewLaunch`; `validDate` stands for the test that the date
      text parses to a valid date. */
  method HttpPostNewLaunch(model: Launches, req: LaunchRequest, validDate: string -> bool)
    returns (resp: Response)
    requires model.Valid()
    modifies model
    ensures model.Valid()
    ensures Exchange(resp, model.launches) ==
      PostNewLaunch(old(model.launches), model.planets, req, validDate)
  {
    if MissingParameters(req) {
      return Response(400, ErrorBody(MISSING_PARAMETERS));
    }
    if !validDate(req.launchDate) {
      return Response(400, ErrorBody(INVALID_LAUNCH_DATE));
    }
    var result := model.ScheduleNewLaunch(req);
    resp := ScheduledReply(result);
  }

  /** `httpAbortLaunch`. */
  method HttpAbortLaunch(model: Launches, id: int) returns (resp: Response)
    requires model.Valid()
    modifies model
    ensures model.Valid()
    ensures Exchange(resp, model.launches) == AbortLaunchRequest(old(model.launches), id)
  {
    var found := model.HasLaunchById(id);
    if found.None? {
      FindByIdIffStored(model.launches, id);
      return Response(404, ErrorBody(NotFoundMessage(id)));
    }
    FindByIdIffStored(model.launches, id);
    var result := model.AbortLaunch(id);
    resp := AbortedReply(result);
  }
}
