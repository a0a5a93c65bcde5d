/** The checker's view of the game and state databases: configuration
    lookups, the task count, claiming a batch of check tasks, committing a
    result, and the per-(service, team) state store. Each operation is one
    transaction and is modelled as one atomic step on the tables. */
module CheckerDatabase {
  import opened GameTables

  /** What `get_control_info` returns. */
  datatype ControlInfo = ControlInfo(contestStart: Option<int>, validTicks: int, tickDuration: int)

  /** What `get_service_attributes` returns. */
  datatype ServiceAttributes = ServiceAttributes(id: int, name: string)

  /** One claimed check task, as handed to the checker. */
  datatype Task = Task(teamId: int, teamNetNo: int, tick: int)

  // ---------------------------------------------------------------------------
  // Configuration lookups

  function GetControlInfo(db: GameDatabase): (r: Result<ControlInfo>)
    reads db
    ensures r.Err? <==> db.control.None?
    ensures r.Err? ==> r.error.DataError?
    ensures r.Ok? ==> var c := db.control.value;
      r.value.contestStart == c.start && r.value.validTicks == c.validTicks &&
      r.value.tickDuration == c.tickDuration
  {
    match db.control
    case None => Err(DataError("Game control information has not been configured"))
    case Some(c) => Ok(ControlInfo(c.start, c.validTicks, c.tickDuration))
  }

  /** The first service row with the given slug, if any. */
  function FindService(services: seq<Service>, slug: string): (r: Option<Service>)
    ensures r.None? <==> forall i :: 0 <= i < |services| ==> services[i].slug != slug
    ensures r.Some? ==> r.value.slug == slug && exists i :: 0 <= i < |services| && services[i] == r.value
  {
    if services == [] then None
    else if services[0].slug == slug then Some(services[0])
    else
      var rest := FindService(services[1..], slug);
      assert rest.Some? ==> exists i :: 0 <= i < |services[1..]| && services[1..][i] == rest.value;
      assert forall i :: 1 <= i < |services| ==> services[i] == services[1..][i - 1];
      rest
  }

  function GetServiceAttributes(db: GameDatabase, slug: string): (r: Result<ServiceAttributes>)
    reads db
    ensures r.Err? <==> forall i :: 0 <= i < |db.services| ==> db.services[i].slug != slug
    ensures r.Err? ==> r.error.DataError?
    ensures r.Ok? ==> exists i :: (0 <= i < |db.services| && db.services[i].slug == slug &&
      db.services[i].id == r.value.id && db.services[i].name == r.value.name)
  {
    match FindService(db.services, slug)
    case None => Err(DataError("Service has not been configured"))
    case Some(s) => Ok(ServiceAttributes(s.id, s.name))
  }

  function GetCurrentTick(db: GameDatabase): (r: Result<int>)
    reads db
    ensures r.Err? <==> db.control.None?
    ensures r.Err? ==> r.error.DataError?
    ensures r.Ok? ==> r.value == db.control.value.currentTick
  {
    match db.control
    case None => Err(DataError("Game control information has not been configured"))
    case Some(c) => Ok(c.currentTick)
  }

  // ---------------------------------------------------------------------------
  // Task count

  /** The number of flags of the service at the current tick, whatever their
      placement columns say. Without a control row the join is empty. */
  function GetTaskCount(db: GameDatabase, serviceId: int): (r: nat)
    reads db
    ensures db.control.None? ==> r == 0
    ensures db.control.Some? ==>
      r == |set i | 0 <= i < |db.flags| && db.flags[i].serviceId == serviceId &&
                    db.flags[i].tick == db.control.value.currentTick|
  {
    match db.control
    case None => 0
    case Some(c) =>
      var p := OfServiceAtTick(serviceId, c.currentTick);
      CountIsSelectedSize(db.flags, p);
      assert Selected(db.flags, p) == set i | 0 <= i < |db.flags| &&
        db.flags[i].serviceId == serviceId && db.flags[i].tick == c.currentTick;
      Count(db.flags, p)
  }

  /** Once a tick has started and every reached tick is fanned out, a
      configured service has one task per registered team, and any other
      service none. Claims and commits keep the fan-out, so this holds for
      the whole tick. */
  lemma TaskCountIsTeamCount(db: GameDatabase, serviceId: int)
    requires db.EveryTickFannedOut() && db.control.value.currentTick >= 0
    ensures GetTaskCount(db, serviceId) == if HasService(db.services, serviceId) then |db.teams| else 0
  {
    var t := db.control.value.currentTick;
    assert Count(db.flags, OfServiceAtTick(serviceId, t)) ==
      if 0 <= t <= t && HasService(db.services, serviceId) then |db.teams| else 0;
  }

  // ---------------------------------------------------------------------------
  // Claiming tasks

  /** The net number of the team with the given user id, if it is registered. */
  function NetNumberOf(teams: seq<Team>, userId: int): (r: Option<int>)
    ensures r.None? <==> forall i :: 0 <= i < |teams| ==> teams[i].userId != userId
    ensures r.Some? ==> exists i :: 0 <= i < |teams| && teams[i] == Team(userId, r.value)
  {
    if teams == [] then None
    else if teams[0].userId == userId then Some(teams[0].netNumber)
    else
      var rest := NetNumberOf(teams[1..], userId);
      assert rest.Some? ==> exists i :: 0 <= i < |teams[1..]| && teams[1..][i] == Team(userId, rest.value);
      assert forall i :: 1 <= i < |teams| ==> teams[i] == teams[1..][i - 1];
      rest
  }

  /** The claim's WHERE clause: an unclaimed flag of the service at the
      current tick whose protecting team is registered. */
  predicate IsOpenTask(f: Flag, serviceId: int, tick: int, teams: seq<Team>) {
    && f.placementStart.None?
    && f.tick == tick
    && f.serviceId == serviceId
    && NetNumberOf(teams, f.protectingTeamId).Some?
  }

  /** The rows from `from` on that the claim's WHERE clause selects, in
      table order. */
  function OpenRows(flags: seq<Flag>, serviceId: int, tick: int, teams: seq<Team>, from: nat): (r: seq<int>)
    requires from <= |flags|
    ensures forall x :: x in r <==> from <= x < |flags| && IsOpenTask(flags[x], serviceId, tick, teams)
    ensures forall k, l :: 0 <= k < l < |r| ==> r[k] < r[l]
    decreases |flags| - from
  {
    if from == |flags| then []
    else
      var rest := OpenRows(flags, serviceId, tick, teams, from + 1);
      assert forall k :: 0 <= k < |rest| ==> rest[k] in rest;
      assert forall k :: 0 <= k < |rest| ==> from < rest[k];
      if IsOpenTask(flags[from], serviceId, tick, teams) then [from] + rest else rest
  }

  /** The rows the claim may pick from: none without a control row. */
  function OpenTasks(db: GameDatabase, serviceId: int): (r: seq<int>)
    reads db
    ensures forall x :: x in r <==>
      db.control.Some? && 0 <= x < |db.flags| &&
      IsOpenTask(db.flags[x], serviceId, db.control.value.currentTick, db.teams)
    ensures forall k, l :: 0 <= k < l < |r| ==> r[k] != r[l]
  {
    match db.control
    case None => []
    case Some(c) => OpenRows(db.flags, serviceId, c.currentTick, db.teams, 0)
  }

  function TaskOf(f: Flag, teams: seq<Team>): (t: Task)
    requires NetNumberOf(teams, f.protectingTeamId).Some?
  {
    Task(f.protectingTeamId, NetNumberOf(teams, f.protectingTeamId).value, f.tick)
  }

  function Min(a: int, b: int): (m: int) {
    if a <= b then a else b
  }

  /** The columns a placement update leaves alone: everything but the
      placement timestamps. */
  ghost predicate SameKeys(a: seq<Flag>, b: seq<Flag>) {
    && |a| == |b|
    && forall i :: 0 <= i < |a| ==>
         a[i].id == b[i].id && a[i].serviceId == b[i].serviceId &&
         a[i].protectingTeamId == b[i].protectingTeamId && a[i].tick == b[i].tick
  }

  /** Updating placement timestamps changes neither the per-tick flag counts
      nor any task count. */
  lemma PlacementUpdateKeepsCounts(a: seq<Flag>, b: seq<Flag>)
    requires SameKeys(a, b)
    ensures forall t :: Count(a, AtTick(t)) == Count(b, AtTick(t))
    ensures forall s, t :: Count(a, OfServiceAtTick(s, t)) == Count(b, OfServiceAtTick(s, t))
  {
    forall t ensures Count(a, AtTick(t)) == Count(b, AtTick(t)) {
      CountPointwise(a, b, AtTick(t));
    }
    forall s, t ensures Count(a, OfServiceAtTick(s, t)) == Count(b, OfServiceAtTick(s, t)) {
      CountPointwise(a, b, OfServiceAtTick(s, t));
    }
  }

  /** `ORDER BY RANDOM() LIMIT limit`: any `limit` distinct rows of the
      candidates, or all of them when there are fewer. The pick is
      nondeterministic: any such batch may come back. */
  method ChooseBatch(candidates: seq<int>, limit: nat) returns (picked: seq<int>)
    requires forall k, l :: 0 <= k < l < |candidates| ==> candidates[k] != candidates[l]
    ensures |picked| == Min(limit, |candidates|)
    ensures forall k :: 0 <= k < |picked| ==> picked[k] in candidates
    ensures forall k, l :: 0 <= k < l < |picked| ==> picked[k] != picked[l]
  {
    var pool := candidates;
    picked := [];
    while |picked| < limit && pool != []
      invariant forall x :: x in pool ==> x in candidates
      invariant forall k :: 0 <= k < |picked| ==> picked[k] in candidates
      invariant forall k, l :: 0 <= k < l < |pool| ==> pool[k] != pool[l]
      invariant forall k, l :: 0 <= k < l < |picked| ==> picked[k] != picked[l]
      invariant forall x :: x in pool ==> x !in picked
      invariant |picked| + |pool| == |candidates|
      invariant |picked| <= limit
      decreases |pool|
    {
      var k :| 0 <= k < |pool|;
      var row := pool[k];
      assert row in pool;
      picked := picked + [row];
      pool := pool[..k] + pool[k + 1..];
    }
  }

  /** The `executemany` UPDATE: sets `placement_start` on each picked row and
      reads each picked row into a task. */
  method MarkInProgress(db: GameDatabase, picked: seq<int>, now: int) returns (tasks: seq<Task>)
    requires forall k :: 0 <= k < |picked| ==>
      0 <= picked[k] < |db.flags| && NetNumberOf(db.teams, db.flags[picked[k]].protectingTeamId).Some?
    requires forall k, l :: 0 <= k < l < |picked| ==> picked[k] != picked[l]
    modifies db`flags
    ensures SameKeys(old(db.flags), db.flags)
    ensures |tasks| == |picked|
    ensures forall k :: 0 <= k < |picked| ==> tasks[k] == TaskOf(old(db.flags)[picked[k]], db.teams)
    ensures forall i :: 0 <= i < |db.flags| ==>
      db.flags[i] == if i in picked then old(db.flags)[i].(placementStart := Some(now)) else old(db.flags)[i]
  {
    tasks := [];
    var j := 0;
    while j < |picked|
      invariant 0 <= j <= |picked|
      invariant |tasks| == j
      invariant SameKeys(old(db.flags), db.flags)
      invariant forall k :: 0 <= k < j ==> tasks[k] == TaskOf(old(db.flags)[picked[k]], db.teams)
      invariant forall i :: 0 <= i < |db.flags| ==>
        db.flags[i] == if i in picked[..j] then old(db.flags)[i].(placementStart := Some(now)) else old(db.flags)[i]
    {
      var i := picked[j];
      assert picked[..j + 1] == picked[..j] + [i];
      tasks := tasks + [TaskOf(db.flags[i], db.teams)];
      db.flags := db.flags[i := db.flags[i].(placementStart := Some(now))];
      j := j + 1;
    }
    assert picked[..j] == picked;
  }

  /** Claims up to `taskCount` open tasks of the service at random and marks
      them as in progress. `claimed` names the rows picked, in the order of
      the returned tasks. */
  method GetNewTasks(db: GameDatabase, serviceId: int, taskCount: nat, now: int, prohibitChanges: bool)
    returns (r: Result<seq<Task>>, ghost claimed: seq<int>)
    requires db.Valid()
    modifies db`flags
    ensures db.Valid()
    ensures prohibitChanges ==> r == Err(PermissionDenied) && db.flags == old(db.flags)
    ensures !prohibitChanges ==> r.Ok?
    ensures r.Ok? ==> |r.value| == |claimed| == Min(taskCount, |old(OpenTasks(db, serviceId))|)
    ensures r.Ok? ==> forall k, l :: 0 <= k < l < |claimed| ==> claimed[k] != claimed[l]
    ensures r.Ok? ==> forall k :: 0 <= k < |claimed| ==>
      && claimed[k] in old(OpenTasks(db, serviceId))
      && 0 <= claimed[k] < |old(db.flags)|
      && NetNumberOf(db.teams, old(db.flags)[claimed[k]].protectingTeamId).Some?
      && r.value[k] == TaskOf(old(db.flags)[claimed[k]], db.teams)
    ensures |db.flags| == |old(db.flags)|
    ensures forall i :: 0 <= i < |db.flags| ==>
      db.flags[i] == if i in claimed then old(db.flags)[i].(placementStart := Some(now)) else old(db.flags)[i]
    ensures forall s :: GetTaskCount(db, s) == old(GetTaskCount(db, s))
    ensures old(db.EveryTickFannedOut()) ==> db.EveryTickFannedOut()
  {
    if prohibitChanges {
      return Err(PermissionDenied), [];
    }
    var picked := ChooseBatch(OpenTasks(db, serviceId), taskCount);
    claimed := picked;
    var tasks := MarkInProgress(db, picked, now);
    r := Ok(tasks);
    PlacementUpdateKeepsCounts(old(db.flags), db.flags);
  }

  /** Two claims in a row never hand out the same flag: the first marks its
      rows as in progress, so they are no longer open for the second. */
  method ClaimTwice(db: GameDatabase, serviceId: int, firstCount: nat, secondCount: nat, now1: int, now2: int)
    returns (first: Result<seq<Task>>, second: Result<seq<Task>>, ghost claimed1: seq<int>, ghost claimed2: seq<int>)
    requires db.Valid()
    modifies db`flags
    ensures db.Valid()
    ensures first.Ok? && second.Ok?
    ensures forall k, l :: 0 <= k < |claimed1| && 0 <= l < |claimed2| ==> claimed1[k] != claimed2[l]
  {
    first, claimed1 := GetNewTasks(db, serviceId, firstCount, now1, false);
    second, claimed2 := GetNewTasks(db, serviceId, secondCount, now2, false);
  }

  // ---------------------------------------------------------------------------
  // Committing a result

  predicate HasNetNumber(teams: seq<Team>, netNo: int) {
    exists i | 0 <= i < |teams| :: teams[i].netNumber == netNo
  }

  /** Whether the commit's flag UPDATE touches this row. */
  predicate MatchesCommit(f: Flag, serviceId: int, teamId: int, tick: int) {
    f.serviceId == serviceId && f.protectingTeamId == teamId && f.tick == tick
  }

  /** Records a checker's verdict. `teamId` is the team the net number
      resolved to (or the fallback id); `None` means the result was dropped. */
  method CommitResult(db: GameDatabase, serviceId: int, teamNetNo: int, tick: int, result: int, now: int,
                      prohibitChanges: bool, fakeTeamId: Option<int>)
    returns (r: Result<()>, ghost teamId: Option<int>)
    requires db.Valid()
    modifies db`statusChecks, db`flags
    ensures db.Valid()
    ensures teamId.None? <==> !HasNetNumber(db.teams, teamNetNo) && fakeTeamId.None?
    ensures HasNetNumber(db.teams, teamNetNo) ==>
      teamId.Some? && exists i :: 0 <= i < |db.teams| && db.teams[i] == Team(teamId.value, teamNetNo)
    ensures !HasNetNumber(db.teams, teamNetNo) ==> teamId == fakeTeamId
    ensures teamId.None? || prohibitChanges ==>
      db.statusChecks == old(db.statusChecks) && db.flags == old(db.flags)
    ensures r.Err? <==> teamId.Some? && prohibitChanges
    ensures r.Err? ==> r.error == PermissionDenied
    ensures teamId.Some? && !prohibitChanges ==>
      db.statusChecks == old(db.statusChecks) + [StatusCheck(serviceId, teamId.value, tick, result, now)]
    ensures |db.flags| == |old(db.flags)|
    ensures teamId.Some? && !prohibitChanges ==> forall i :: 0 <= i < |db.flags| ==>
      db.flags[i] == if MatchesCommit(old(db.flags)[i], serviceId, teamId.value, tick)
                     then old(db.flags)[i].(placementEnd := Some(now)) else old(db.flags)[i]
    ensures forall s :: GetTaskCount(db, s) == old(GetTaskCount(db, s))
    ensures old(db.EveryTickFannedOut()) ==> db.EveryTickFannedOut()
  {
    var team: int;
    if HasNetNumber(db.teams, teamNetNo) {
      var i :| 0 <= i < |db.teams| && db.teams[i].netNumber == teamNetNo;
      team := db.teams[i].userId;
    } else if fakeTeamId.Some? {
      team := fakeTeamId.value;
    } else {
      // The lookup failure is logged and the call returns normally.
      return Ok(()), None;
    }
    teamId := Some(team);
    if prohibitChanges {
      // The INSERT is refused; the transaction leaves nothing behind.
      return Err(PermissionDenied), teamId;
    }
    ghost var before := db.flags;
    db.statusChecks := db.statusChecks + [StatusCheck(serviceId, team, tick, result, now)];
    db.flags := seq(|db.flags|, i requires 0 <= i < |db.flags| reads db =>
      if MatchesCommit(db.flags[i], serviceId, team, tick) then db.flags[i].(placementEnd := Some(now))
      else db.flags[i]);
    r := Ok(());
    PlacementUpdateKeepsCounts(before, db.flags);
  }

  // ---------------------------------------------------------------------------
  // Checker state

  function LoadState(sdb: StateDatabase, serviceId: int, teamNetNo: int, identifier: string): (r: Option<seq<byte>>)
    reads sdb
    ensures r.None? <==> StateKey(serviceId, teamNetNo, identifier) !in sdb.entries
    ensures r.Some? ==> r.value == sdb.entries[StateKey(serviceId, teamNetNo, identifier)]
  {
    var key := StateKey(serviceId, teamNetNo, identifier);
    if key in sdb.entries then Some(sdb.entries[key]) else None
  }

  /** Inserts the blob, or overwrites the one already stored under the key. */
  method StoreState(sdb: StateDatabase, serviceId: int, teamNetNo: int, identifier: string, data: seq<byte>,
                    prohibitChanges: bool)
    returns (r: Result<()>)
    modifies sdb
    ensures prohibitChanges ==> r == Err(PermissionDenied) && sdb.entries == old(sdb.entries)
    ensures !prohibitChanges ==>
      r == Ok(()) && sdb.entries == old(sdb.entries)[StateKey(serviceId, teamNetNo, identifier) := data]
    ensures !prohibitChanges ==> LoadState(sdb, serviceId, teamNetNo, identifier) == Some(data)
    ensures forall s, t, id :: (s, t, id) != (serviceId, teamNetNo, identifier) ==>
      LoadState(sdb, s, t, id) == old(LoadState(sdb, s, t, id))
  {
    if prohibitChanges {
      return Err(PermissionDenied);
    }
    sdb.entries := sdb.entries[StateKey(serviceId, teamNetNo, identifier) := data];
    r := Ok(());
  }

  /** The state store's round trip, from an empty store: a second store
      under the same key wins, a store under another key is invisible to it,
      and a never-stored key loads as no state. */
  method StateStoreScenario(d1: seq<byte>, d2: seq<byte>, other: seq<byte>)
    returns (latest: Option<seq<byte>>, neighbour: Option<seq<byte>>, neverStored: Option<seq<byte>>)
    ensures latest == Some(d2) && neighbour == Some(other) && neverStored == None
  {
    var sdb := new StateDatabase();
    var r := StoreState(sdb, 1, 7, "credentials", d1, false);
    r := StoreState(sdb, 2, 7, "credentials", other, false);
    r := StoreState(sdb, 1, 7, "credentials", d2, false);
    latest := LoadState(sdb, 1, 7, "credentials");
    neighbour := LoadState(sdb, 2, 7, "credentials");
    neverStored := LoadState(sdb, 1, 8, "credentials");
  }
}
