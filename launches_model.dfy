/** The launches model: the shared launch collection and the operations that
    read and update it in place. The planets collection is only consulted,
    by name. */
module LaunchesModel {
  import opened LaunchStore
  import opened Scheduler
  import opened Catalog

  class Launches {
    /** The launch collection, by flight number. */
    var launches: Collection
    /** The names of the known planets. */
    const planets: set<string>

    ghost predicate Valid()
      reads this
    {
      Keyed(launches)
    }

    constructor (planets: set<string>)
      ensures Valid() && launches == map[] && this.planets == planets
    {
      launches := map[];
      this.planets := planets;
    }

    /** `getAllLaunches(skip, limit)`: the records ascending by flight number,
        without the first `skip` and at most `limit` of them (all when the
        limit is 0). */
    method GetAllLaunches(skip: nat, limit: nat) returns (page: seq<Launch>)
      requires Valid()
      ensures forall i, j :: 0 <= i < j < |page| ==> page[i].flightNumber < page[j].flightNumber
      ensures forall l :: l in page <==> InWindow(launches, l, skip, limit)
      ensures limit != 0 ==> |page| <= limit
    {
      page := Listing(launches, skip, limit);
      ListingIsWindow(launches, skip, limit);
    }

    /** `saveLaunch(launch)`: upsert by flight number; the answer is always ok.
        The two branches are those of `Upsert`, done on the field in place. */
    method SaveLaunch(launch: Launch) returns (ok: bool)
      requires Valid()
      modifies this
      ensures Valid()
      ensures launches == Upsert(old(launches), launch)
      ensures ok
    {
      var k := launch.flightNumber;
      if k in launches && launch.target.None? {
        launches := launches[k := launch.(target := launches[k].target)];
      } else {
        launches := launches[k := launch];
      }
      ok := true;
    }

    /** `getLatestFlightNumber()`: the greatest flight number stored, or 100
        when the collection is empty. */
    method GetLatestFlightNumber() returns (n: int)
      requires Valid()
      ensures launches.Keys == {} ==> n == DEFAULT_FLIGHT_NUMBER
      ensures launches.Keys != {} ==> n in launches && forall k :: k in launches ==> k <= n
    {
      if launches.Keys == {} {
        n := DEFAULT_FLIGHT_NUMBER;
      } else {
        var all := Listing(launches, 0, 0);
        LatestIsLastListed(launches);
        n := all[|all| - 1].flightNumber;
      }
    }

    /** `scheduleNewLaunch(launch)`. */
    method ScheduleNewLaunch(req: LaunchRequest) returns (r: ScheduleResult)
      requires Valid()
      modifies this
      ensures Valid()
      ensures Scheduling(r, launches) == Schedule(old(launches), planets, req)
    {
      if req.target !in planets {
        return NotScheduled(NO_MATCHING_PLANET);
      }
      ghost var before := launches;
      var latest := GetLatestFlightNumber();
      LatestIsDetermined(launches, latest);
      var launch := NewLaunch(req, latest + 1);
      var saved := SaveLaunch(launch);
      r := Scheduled(launch);
      assert Schedule(before, planets, req) == Scheduling(r, Upsert(before, launch));
    }

    /** `findLaunch(filter)`. */
    method FindLaunch(filter: Filter) returns (found: Option<Launch>)
      requires Valid()
      ensures found.Some? ==>
        found.value.flightNumber in launches && launches[found.value.flightNumber] == found.value
        && Matches(found.value, filter)
      ensures found.None? ==> forall k :: k in launches ==> !Matches(launches[k], filter)
    {
      found := FindOne(launches, filter);
    }

    /** `hasLaunchById(id)`: the record with that flight number, if any. */
    method HasLaunchById(id: int) returns (found: Option<Launch>)
      requires Valid()
      ensures found.Some? <==> id in launches
      ensures found.Some? ==> found.value == launches[id]
    {
      found := FindLaunch(ById(id));
    }

    /** `abortLaunch(id)`: the status update, true when exactly one record
        was modified. */
    method AbortLaunch(id: int) returns (aborted: bool)
      requires Valid()
      modifies this
      ensures Valid()
      ensures launches == AbortUpdate(old(launches), id).store
      ensures aborted <==> AbortUpdate(old(launches), id).modifiedCount == 1
    {
      var modifiedCount := 0;
      if id in launches {
        var before := launches[id];
        var after := before.(upcoming := false, success := false);
        launches := launches[id := after];
        if after != before {
          modifiedCount := 1;
        }
      }
      aborted := modifiedCount == 1;
    }

    /** `populateLaunches()`, given the catalog's answer: the status check,
        then one upsert per document, in order. */
    method PopulateLaunches(response: CatalogResponse) returns (outcome: LoadOutcome)
      requires Valid()
      modifies this
      ensures Valid()
      ensures Loading(outcome, launches) == Populate(old(launches), response)
    {
      if response.Unreachable? || !(200 <= response.status < 300) {
        return RequestRejected;
      }
      if response.status != 200 {
        return DownloadFailed(DOWNLOAD_FAILED);
      }
      var docs := response.docs;
      for i := 0 to |docs|
        invariant Valid()
        invariant launches == UpsertAll(old(launches), docs[..i])
      {
        var launch := ToLaunch(docs[i]);
        var saved := SaveLaunch(launch);
        assert docs[..i + 1][..i] == docs[..i];
      }
      assert docs[..|docs|] == docs;
      outcome := Populated(|docs|);
    }

    /** `loadLaunchData()`: skip the import when the first launch is stored. */
    method LoadLaunchData(response: CatalogResponse) returns (outcome: LoadOutcome)
      requires Valid()
      modifies this
      ensures Valid()
      ensures Loading(outcome, launches) == Load(old(launches), response)
    {
      var firstLaunch := FindLaunch(SENTINEL);
      if firstLaunch.Some? {
        return AlreadyLoaded;
      }
      outcome := PopulateLaunches(response);
    }
  }
}
