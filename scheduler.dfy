/** Scheduling a new launch: the destination check, the choice of flight
    number (the next one after the latest, or the caller's test number), the
    fixed defaults, and the upsert of the resulting record. */
module Scheduler {
  import opened LaunchStore

  /** The body of a scheduling request. A field the caller left out is the
      empty string; `test` is the optional test flight number. */
  datatype LaunchRequest = LaunchRequest(
    mission: string,
    rocket: string,
    launchDate: string,
    target: string,
    test: Option<int>)

  /** `Scheduled(l)` is the `{ok: true}` answer together with the record
      that was assigned onto the request object and saved. */
  datatype ScheduleResult = Scheduled(launch: Launch) | NotScheduled(error: string)

  datatype Scheduling = Scheduling(result: ScheduleResult, store: Collection)

  const NO_MATCHING_PLANET: string := "No matching planet found"
  const DEFAULT_CUSTOMERS: seq<string> := ["ZTM", "NASA"]

  /** JavaScript truthiness of the `test` field: present and not 0. */
  predicate HasTestNumber(req: LaunchRequest) {
    req.test.Some? && req.test.value != 0
  }

  /** The request with the defaults assigned over it; `next` is the flight
      number computed from the store. */
  function NewLaunch(req: LaunchRequest, next: int): Launch {
    Launch(
      if HasTestNumber(req) then req.test.value else next,
      req.mission, req.rocket, req.launchDate, Some(req.target),
      DEFAULT_CUSTOMERS, true, true)
  }

  /** The effect of `scheduleNewLaunch` on the store, and its answer. */
  function Schedule(c: Collection, planets: set<string>, req: LaunchRequest): Scheduling {
    if req.target !in planets then
      Scheduling(NotScheduled(NO_MATCHING_PLANET), c)
    else
      var l := NewLaunch(req, LatestFlightNumber(c) + 1);
      Scheduling(Scheduled(l), Upsert(c, l))
  }

  /** A request is refused exactly when its target is not a known planet;
      the refusal carries the planet error and writes nothing. */
  lemma RefusedIffUnknownTarget(c: Collection, planets: set<string>, req: LaunchRequest)
    ensures var s := Schedule(c, planets, req);
      && (s.result.NotScheduled? <==> req.target !in planets)
      && (s.result.NotScheduled? ==> s.result.error == NO_MATCHING_PLANET && s.store == c)
  {
  }

  /** A scheduled launch carries the request's fields, is upcoming and
      successful, has the default customers, and is stored as it is under its
      flight number, with every other record left alone. */
  lemma ScheduledRecord(c: Collection, planets: set<string>, req: LaunchRequest)
    requires req.target in planets
    ensures var s := Schedule(c, planets, req);
      && s.result.Scheduled?
      && var l := s.result.launch;
      && l.mission == req.mission && l.rocket == req.rocket
      && l.launchDate == req.launchDate && l.target == Some(req.target)
      && l.upcoming && l.success && l.customers == ["ZTM", "NASA"]
      && l.flightNumber in s.store && s.store[l.flightNumber] == l
      && s.store.Keys == c.Keys + {l.flightNumber}
      && (forall k :: k in c && k != l.flightNumber ==> s.store[k] == c[k])
  {
  }

  /** Without a test number the launch takes the number after the latest
      one, which no record has yet: the store gains a record and loses none. */
  lemma ScheduledNumberIsNext(c: Collection, planets: set<string>, req: LaunchRequest)
    requires req.target in planets && !HasTestNumber(req)
    ensures var s := Schedule(c, planets, req);
      && s.result.Scheduled?
      && s.result.launch.flightNumber == LatestFlightNumber(c) + 1
      && (forall k :: k in c ==> k < s.result.launch.flightNumber)
      && s.result.launch.flightNumber !in c
      && s.store == c[s.result.launch.flightNumber := s.result.launch]
  {
  }

  /** On an empty store the first scheduled flight is number 101. */
  lemma FirstScheduledFlight(planets: set<string>, req: LaunchRequest)
    requires req.target in planets && !HasTestNumber(req)
    ensures var s := Schedule(map[], planets, req);
      s.result.Scheduled? && s.result.launch.flightNumber == 101
  {
  }

  /** With a test number the launch takes exactly that number, whatever the
      store holds, and replaces any record already under it. */
  lemma TestNumberOverrides(c: Collection, planets: set<string>, req: LaunchRequest)
    requires req.target in planets && HasTestNumber(req)
    ensures var s := Schedule(c, planets, req);
      && s.result.Scheduled?
      && s.result.launch.flightNumber == req.test.value
      && s.store == c[req.test.value := s.result.launch]
  {
  }

  /** Scheduling keeps the flight number a unique key. */
  lemma ScheduleKeepsKeyed(c: Collection, planets: set<string>, req: LaunchRequest)
    requires Keyed(c)
    ensures Keyed(Schedule(c, planets, req).store)
  {
  }
}
