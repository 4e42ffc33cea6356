/** The launches collection behind the model layer: launch records keyed by
    flight number, and the effect on it of each query the model issues
    (sorted listing with skip and limit, upsert, lookup of the latest flight
    number, equality-filter lookup and the status update of an abort). */
module LaunchStore {

  datatype Option<T> = None | Some(value: T)

  /** One launch record. `target` is absent on records imported from the
      external catalog, which carries no destination. */
  datatype Launch = Launch(
    flightNumber: int,
    mission: string,
    rocket: string,
    launchDate: string,
    target: Option<string>,
    customers: seq<string>,
    upcoming: bool,
    success: bool)

  /** The collection, indexed by flight number. */
  type Collection = map<int, Launch>

  const DEFAULT_FLIGHT_NUMBER: int := 100

  /** The store invariant: every record sits under its own flight number, so
      the flight number is a unique key. */
  ghost predicate Keyed(c: Collection) {
    forall k :: k in c ==> c[k].flightNumber == k
  }

  // ----------------------------------------------------------------------
  // Ordering by flight number

  predicate Increasing(s: seq<int>) {
    forall i, j :: 0 <= i < j < |s| ==> s[i] < s[j]
  }

  function Elements(s: seq<int>): set<int> {
    set x | x in s
  }

  /** A set that is not empty has an element. The solver does not draw this
      from `s != {}` on its own, and the choices `:|` below need it. */
  lemma Inhabited(s: set<int>)
    ensures s != {} ==> exists x :: x in s
  {
    if forall y :: y !in s {
      assert s == {};
    }
  }

  lemma {:induction false} LeastElement(s: set<int>) returns (m: int)
    requires s != {}
    ensures m in s && forall k :: k in s ==> m <= k
  {
    Inhabited(s);
    var x :| x in s;
    var t := s - {x};
    if t == {} {
      m := x;
    } else {
      var y := LeastElement(t);
      m := if x < y then x else y;
    }
    forall k | k in s ensures m <= k {
      if k != x { assert k in t; }
    }
  }

  lemma HasLeast(s: set<int>)
    requires s != {}
    ensures exists m :: m in s && forall k :: k in s ==> m <= k
  {
    var m := LeastElement(s);
  }

  /** The smallest element of a non-empty set. */
  function Least(s: set<int>): (m: int)
    requires s != {}
    ensures m in s && forall k :: k in s ==> m <= k
  {
    HasLeast(s);
    var m :| m in s && (forall k :: k in s ==> m <= k); m
  }

  /** The elements of `s` in ascending order: what `sort({flightNumber: 1})`
      makes of the keys. */
  function Ascending(s: set<int>): (r: seq<int>)
    ensures Increasing(r)
    ensures forall k :: k in r <==> k in s
    ensures |r| == |s|
    decreases s
  {
    if s == {} then []
    else
      var m := Least(s);
      var rest := Ascending(s - {m});
      assert forall k :: k in rest ==> m < k;
      [m] + rest
  }

  lemma {:induction false} IncreasingElementsCount(t: seq<int>)
    requires Increasing(t)
    ensures |Elements(t)| == |t|
  {
    if t != [] {
      IncreasingElementsCount(t[1..]);
      assert Elements(t) == {t[0]} + Elements(t[1..]);
      assert t[0] !in Elements(t[1..]);
    }
  }

  /** How many keys of `s` lie below `k`: the position a record with flight
      number `k` takes in the ascending listing. */
  ghost function Rank(s: set<int>, k: int): nat {
    |set j | j in s && j < k|
  }

  lemma RankAt(s: set<int>, keys: seq<int>, i: int)
    requires Increasing(keys) && (forall k :: k in keys <==> k in s)
    requires 0 <= i < |keys|
    ensures Rank(s, keys[i]) == i
  {
    var below := set j | j in s && j < keys[i];
    forall j | j in below ensures j in Elements(keys[..i]) {
      var m :| 0 <= m < |keys| && keys[m] == j;
      assert m < i;
      assert keys[..i][m] == j;
    }
    forall j | j in Elements(keys[..i]) ensures j in below {
      var m :| 0 <= m < i && keys[..i][m] == j;
      assert keys[m] == j;
    }
    assert below == Elements(keys[..i]);
    IncreasingElementsCount(keys[..i]);
  }

  lemma LastIsGreatest(keys: seq<int>)
    requires Increasing(keys) && keys != []
    ensures forall k :: k in keys ==> k <= keys[|keys| - 1]
  {
    forall k | k in keys ensures k <= keys[|keys| - 1] {
      var m :| 0 <= m < |keys| && keys[m] == k;
      assert m == |keys| - 1 || keys[m] < keys[|keys| - 1];
    }
  }

  // ----------------------------------------------------------------------
  // Listing: find all, sort by flight number ascending, skip, limit

  /** All records, ascending by flight number. */
  function ByFlightNumber(c: Collection): seq<Launch> {
    var keys := Ascending(c.Keys);
    seq(|keys|, i requires 0 <= i < |keys| => c[keys[i]])
  }

  /** MongoDB's `.skip(skip).limit(limit)`; a limit of 0 means no limit. */
  function Page<T>(s: seq<T>, skip: nat, limit: nat): (r: seq<T>)
    ensures forall p :: 0 <= p < |r| ==> skip + p < |s| && r[p] == s[skip + p]
    ensures forall i :: skip <= i < |s| && (limit == 0 || i < skip + limit) ==>
      i - skip < |r| && r[i - skip] == s[i]
    ensures limit != 0 ==> |r| <= limit
  {
    var rest := if skip < |s| then s[skip..] else [];
    if limit == 0 || |rest| <= limit then rest else rest[..limit]
  }

  function Listing(c: Collection, skip: nat, limit: nat): seq<Launch> {
    Page(ByFlightNumber(c), skip, limit)
  }

  /** The listing window: a stored record whose ascending position is at
      least `skip`, and below `skip + limit` when the limit is not 0. */
  ghost predicate InWindow(c: Collection, l: Launch, skip: nat, limit: nat) {
    && l.flightNumber in c && c[l.flightNumber] == l
    && skip <= Rank(c.Keys, l.flightNumber)
    && (limit == 0 || Rank(c.Keys, l.flightNumber) < skip + limit)
  }

  /** The listing is strictly ascending by flight number, holds exactly the
      records of the window, and no more than `limit` of them. */
  lemma ListingIsWindow(c: Collection, skip: nat, limit: nat)
    requires Keyed(c)
    ensures var r := Listing(c, skip, limit);
      && (forall i, j :: 0 <= i < j < |r| ==> r[i].flightNumber < r[j].flightNumber)
      && (forall l :: l in r <==> InWindow(c, l, skip, limit))
      && (limit != 0 ==> |r| <= limit)
  {
    var r := Listing(c, skip, limit);
    ListedAt(c, skip, limit);
    forall l | InWindow(c, l, skip, limit) ensures l in r {
      WindowListed(c, skip, limit, l);
    }
  }

  /** The record at position `p` of the listing is the stored record of rank
      `skip + p`. */
  lemma ListedAt(c: Collection, skip: nat, limit: nat)
    requires Keyed(c)
    ensures var r := Listing(c, skip, limit);
      && (forall p :: 0 <= p < |r| ==> InWindow(c, r[p], skip, limit))
      && (forall i, j :: 0 <= i < j < |r| ==> r[i].flightNumber < r[j].flightNumber)
      && (limit != 0 ==> |r| <= limit)
  {
    var keys := Ascending(c.Keys);
    var all := ByFlightNumber(c);
    var r := Listing(c, skip, limit);
    forall p | 0 <= p < |r| ensures r[p].flightNumber == keys[skip + p] && InWindow(c, r[p], skip, limit) {
      assert r[p] == all[skip + p] == c[keys[skip + p]];
      RankAt(c.Keys, keys, skip + p);
    }
  }

  lemma WindowListed(c: Collection, skip: nat, limit: nat, l: Launch)
    requires Keyed(c) && InWindow(c, l, skip, limit)
    ensures l in Listing(c, skip, limit)
  {
    var keys := Ascending(c.Keys);
    var all := ByFlightNumber(c);
    var r := Listing(c, skip, limit);
    var idx :| 0 <= idx < |keys| && keys[idx] == l.flightNumber;
    RankAt(c.Keys, keys, idx);
    assert all[idx] == l;
    assert r[idx - skip] == l;
  }

  // ----------------------------------------------------------------------
  // Upsert: findOneAndUpdate({flightNumber}, launch, {upsert: true})

  /** `stored` holds every field that `l` supplies: all of them, with the
      target only when `l` has one. */
  predicate Carries(stored: Launch, l: Launch) {
    stored == l.(target := stored.target) && (l.target.Some? ==> stored.target == l.target)
  }

  /** The update document is applied as a `$set` of the fields it holds, so a
      launch without a target keeps the target already stored under its key;
      when no record has the key, the launch is inserted as it is. */
  function Upsert(c: Collection, l: Launch): (r: Collection)
    ensures r.Keys == c.Keys + {l.flightNumber}
    ensures Carries(r[l.flightNumber], l)
    ensures l.flightNumber !in c || l.target.Some? ==> r[l.flightNumber] == l
    ensures l.flightNumber in c && l.target.None? ==> r[l.flightNumber].target == c[l.flightNumber].target
    ensures forall k :: k in c && k != l.flightNumber ==> r[k] == c[k]
    ensures Keyed(c) ==> Keyed(r)
  {
    var k := l.flightNumber;
    c[k := if k in c && l.target.None? then l.(target := c[k].target) else l]
  }

  /** After an upsert exactly one record has the launch's flight number. */
  lemma UpsertLeavesOneRecord(c: Collection, l: Launch)
    requires Keyed(c)
    ensures var r := Upsert(c, l);
      (set k | k in r && r[k].flightNumber == l.flightNumber) == {l.flightNumber}
  {
  }

  // ----------------------------------------------------------------------
  // Latest flight number: findOne().sort('-flightNumber')

  /** The greatest flight number in the store, or the default when there is
      no record. */
  function LatestFlightNumber(c: Collection): (n: int)
    ensures c.Keys == {} ==> n == DEFAULT_FLIGHT_NUMBER
    ensures c.Keys != {} ==> n in c && forall k :: k in c ==> k <= n
  {
    if c.Keys == {} then DEFAULT_FLIGHT_NUMBER
    else
      var keys := Ascending(c.Keys);
      LastIsGreatest(keys);
      keys[|keys| - 1]
  }

  /** The two properties of the latest flight number determine it. */
  lemma LatestIsDetermined(c: Collection, n: int)
    requires c.Keys == {} ==> n == DEFAULT_FLIGHT_NUMBER
    requires c.Keys != {} ==> n in c && forall k :: k in c ==> k <= n
    ensures n == LatestFlightNumber(c)
  {
    if c.Keys != {} {
      var m := LatestFlightNumber(c);
      assert m <= n && n <= m;
    }
  }

  /** The latest flight number is that of the last record of the full listing. */
  lemma LatestIsLastListed(c: Collection)
    requires Keyed(c) && c.Keys != {}
    ensures var all := Listing(c, 0, 0);
      all != [] && all[|all| - 1].flightNumber == LatestFlightNumber(c)
  {
    var keys := Ascending(c.Keys);
    LastIsGreatest(keys);
    var all := Listing(c, 0, 0);
    assert all == ByFlightNumber(c);
    assert all[|all| - 1] == c[keys[|keys| - 1]];
  }

  // ----------------------------------------------------------------------
  // Lookup by an equality filter

  /** An equality filter: the flight number, and optionally the rocket and
      the mission name. */
  datatype Filter = Filter(flightNumber: int, rocket: Option<string>, mission: Option<string>)

  function ById(id: int): Filter {
    Filter(id, None, None)
  }

  predicate Matches(l: Launch, f: Filter) {
    && l.flightNumber == f.flightNumber
    && (f.rocket.Some? ==> l.rocket == f.rocket.value)
    && (f.mission.Some? ==> l.mission == f.mission.value)
  }

  /** `findOne(filter)`: a stored record matching the filter, if there is one. */
  function FindOne(c: Collection, f: Filter): (r: Option<Launch>)
    requires Keyed(c)
    ensures r.Some? ==> r.value.flightNumber in c && c[r.value.flightNumber] == r.value && Matches(r.value, f)
    ensures r.None? ==> forall k :: k in c ==> !Matches(c[k], f)
  {
    if f.flightNumber in c && Matches(c[f.flightNumber], f) then Some(c[f.flightNumber]) else None
  }

  lemma FindByIdIffStored(c: Collection, id: int)
    requires Keyed(c)
    ensures FindOne(c, ById(id)).Some? <==> id in c
  {
  }

  // ----------------------------------------------------------------------
  // Abort: updateOne({flightNumber: id}, {upcoming: false, success: false})

  datatype Update = Update(store: Collection, modifiedCount: nat)

  function Aborted(l: Launch): Launch {
    l.(upcoming := false, success := false)
  }

  /** The status update of an abort, with MongoDB's modified count: the number
      of records whose fields actually changed. */
  function AbortUpdate(c: Collection, id: int): (u: Update)
    ensures u.store.Keys == c.Keys
    ensures forall k :: k in c && k != id ==> u.store[k] == c[k]
    ensures id in c ==> u.store[id] == Aborted(c[id])
    ensures u.modifiedCount == |set k | k in c && u.store[k] != c[k]|
    ensures Keyed(c) ==> Keyed(u.store)
  {
    if id in c then
      var s := c[id := Aborted(c[id])];
      var changed := set k | k in c && s[k] != c[k];
      assert changed == if Aborted(c[id]) != c[id] then {id} else {};
      Update(s, if Aborted(c[id]) != c[id] then 1 else 0)
    else
      assert (set k | k in c && c[k] != c[k]) == {};
      Update(c, 0)
  }

  /** The update reports one modified record exactly when the record exists
      and was not already aborted. */
  lemma AbortCountsChange(c: Collection, id: int)
    ensures AbortUpdate(c, id).modifiedCount == 1 <==> id in c && (c[id].upcoming || c[id].success)
  {
    if id in c {
      assert Aborted(c[id]) != c[id] <==> c[id].upcoming || c[id].success;
    }
  }

  /** Aborting changes no field other than `upcoming` and `success`. */
  lemma AbortKeepsOtherFields(c: Collection, id: int)
    requires id in c
    ensures var a := AbortUpdate(c, id).store[id];
      && a.flightNumber == c[id].flightNumber && a.mission == c[id].mission
      && a.rocket == c[id].rocket && a.launchDate == c[id].launchDate
      && a.target == c[id].target && a.customers == c[id].customers
      && !a.upcoming && !a.success
  {
  }

  /** A second abort leaves the store as it is and reports nothing modified. */
  lemma AbortTwice(c: Collection, id: int)
    ensures var u := AbortUpdate(c, id);
      AbortUpdate(u.store, id) == Update(u.store, 0)
  {
    var u := AbortUpdate(c, id);
    AbortCountsChange(u.store, id);
    if id in c {
      assert u.store[id := Aborted(u.store[id])] == u.store;
    }
  }
}
