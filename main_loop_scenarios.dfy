/** The controller's main-loop scenarios: each sets up a fresh game database
    (no flags yet), runs one step at a given instant and reports what the
    scenario checks — the sleeps, the current tick afterwards and flag
    counts (and, after the first tick, the checker's task count). The
    fixture's tick length is three minutes; its services and teams are
    parameters (two services and three teams give the counts 6, 3 and 2). */
module MainLoopScenarios {
  import opened GameTables
  import opened Controller
  import opened CheckerDatabase

  const FixtureTickDuration := 180
  const Minute := 60
  const Hour := 3600
  const Day := 86400

  /** A fresh game with the given control times and current tick. */
  method NewGame(services: seq<Service>, teams: seq<Team>, start: Option<int>, end: Option<int>, tick: int)
    returns (db: GameDatabase)
    requires DistinctServiceIds(services) && DistinctTeamIds(teams)
    ensures fresh(db) && db.Valid()
    ensures db.control == Some(GameControl(start, end, 480, FixtureTickDuration, tick))
    ensures db.services == services && db.teams == teams && db.flags == [] && db.nextFlagId == 1
  {
    db := new GameDatabase(Some(GameControl(start, end, 480, FixtureTickDuration, tick)), services, teams);
  }

  /** Start and end not configured: one sleep of a minute. */
  method NullScenario(services: seq<Service>, teams: seq<Team>, now: int) returns (sleeps: seq<int>)
    requires DistinctServiceIds(services) && DistinctTeamIds(teams)
    ensures sleeps == [60]
  {
    var db := NewGame(services, teams, None, None, -1);
    sleeps := MainLoopStep(db, false, now);
  }

  /** No control row at all: also one sleep of a minute. */
  method NoControlScenario(services: seq<Service>, teams: seq<Team>, now: int) returns (sleeps: seq<int>)
    requires DistinctServiceIds(services) && DistinctTeamIds(teams)
    ensures sleeps == [60]
  {
    var db := new GameDatabase(None, services, teams);
    sleeps := MainLoopStep(db, false, now);
  }

  /** Start an hour ahead: sleep a minute, tick stays -1, no flags. */
  method BeforeGameScenario(services: seq<Service>, teams: seq<Team>, now: int)
    returns (sleeps: seq<int>, newTick: int, totalFlags: nat)
    requires DistinctServiceIds(services) && DistinctTeamIds(teams)
    ensures sleeps == [60] && newTick == -1 && totalFlags == 0
  {
    var db := NewGame(services, teams, Some(now + Hour), Some(now + Day), -1);
    sleeps := MainLoopStep(db, false, now);
    newTick := db.control.value.currentTick;
    totalFlags := |db.flags|;
  }

  /** Start now: tick 0 begins with one flag per (service, team) pair. */
  method FirstTickScenario(services: seq<Service>, teams: seq<Team>, now: int, serviceId: int, teamId: int)
    returns (sleeps: seq<int>, newTick: int, totalFlags: nat, serviceFlags: nat, teamFlags: nat, tickFlags: nat,
             taskCount: nat)
    requires DistinctServiceIds(services) && DistinctTeamIds(teams)
    requires HasService(services, serviceId) && HasTeam(teams, teamId)
    ensures sleeps == [0] && newTick == 0
    ensures totalFlags == |services| * |teams| && tickFlags == totalFlags
    ensures serviceFlags == |teams| && teamFlags == |services|
    ensures |services| == 2 && |teams| == 3 ==> totalFlags == 6 && serviceFlags == 3 && teamFlags == 2
    ensures taskCount == |teams|
  {
    var db := NewGame(services, teams, Some(now), Some(now + Day), -1);
    assert db.EveryTickFannedOut();
    sleeps := MainLoopStep(db, false, now);
    newTick := db.control.value.currentTick;
    assert db.flags == TickFlags(services, teams, 0, 1);
    TickFlagsRows(services, teams, 0, 1);
    TickFlagsPerService(services, teams, 0, 1, serviceId);
    TickFlagsPerTeam(services, teams, 0, 1, teamId);
    TickFlagsPerTick(services, teams, 0, 1, 0);
    totalFlags := |db.flags|;
    serviceFlags := Count(db.flags, OfService(serviceId));
    teamFlags := Count(db.flags, OfTeam(teamId));
    tickFlags := Count(db.flags, AtTick(0));
    TaskCountIsTeamCount(db, serviceId);
    taskCount := GetTaskCount(db, serviceId);
    if |services| == 2 && |teams| == 3 {
      assert |services| * |teams| == 6;
    }
  }

  /** 1030 seconds into the game at tick 5 (the step runs up to ten seconds
      after the setup): no new tick, sleep until 1080 seconds. */
  method NextTickUndueScenario(services: seq<Service>, teams: seq<Team>, now: int, delay: int)
    returns (sleeps: seq<int>, newTick: int, totalFlags: nat)
    requires DistinctServiceIds(services) && DistinctTeamIds(teams)
    requires 0 <= delay < 10
    ensures |sleeps| == 1 && 40 < sleeps[0] <= 50
    ensures newTick == 5 && totalFlags == 0
  {
    var db := NewGame(services, teams, Some(now - 1030), Some(now + 85370), 5);
    sleeps := MainLoopStep(db, false, now + delay);
    newTick := db.control.value.currentTick;
    totalFlags := |db.flags|;
  }

  /** 19 minutes into the game at tick 5: tick 6 begins. */
  method NextTickOverdueScenario(services: seq<Service>, teams: seq<Team>, now: int)
    returns (sleeps: seq<int>, newTick: int, tickFlags: nat)
    requires DistinctServiceIds(services) && DistinctTeamIds(teams)
    ensures sleeps == [0] && newTick == 6 && tickFlags == |services| * |teams|
  {
    var db := NewGame(services, teams, Some(now - 19 * Minute), Some(now + 1421 * Minute), 5);
    sleeps := MainLoopStep(db, false, now);
    newTick := db.control.value.currentTick;
    assert db.flags == TickFlags(services, teams, 6, 1);
    TickFlagsPerTick(services, teams, 6, 1, 6);
    tickFlags := Count(db.flags, AtTick(6));
  }

  /** A day in, three minutes before the end, at tick 479: tick 480 begins. */
  method LastTickScenario(services: seq<Service>, teams: seq<Team>, now: int)
    returns (sleeps: seq<int>, newTick: int, tickFlags: nat)
    requires DistinctServiceIds(services) && DistinctTeamIds(teams)
    ensures sleeps == [0] && newTick == 480 && tickFlags == |services| * |teams|
  {
    var db := NewGame(services, teams, Some(now - Day), Some(now + 3 * Minute), 479);
    sleeps := MainLoopStep(db, false, now);
    newTick := db.control.value.currentTick;
    assert db.flags == TickFlags(services, teams, 480, 1);
    TickFlagsPerTick(services, teams, 480, 1, 480);
    tickFlags := Count(db.flags, AtTick(480));
  }

  /** A minute after the end: sleep 0 and then a minute, nothing changes. */
  method ShortlyAfterGameScenario(services: seq<Service>, teams: seq<Team>, now: int)
    returns (sleeps: seq<int>, newTick: int, totalFlags: nat)
    requires DistinctServiceIds(services) && DistinctTeamIds(teams)
    ensures sleeps == [0, 60] && newTick == 479 && totalFlags == 0
  {
    var db := NewGame(services, teams, Some(now - 1441 * Minute), Some(now - Minute), 479);
    sleeps := MainLoopStep(db, false, now);
    newTick := db.control.value.currentTick;
    totalFlags := |db.flags|;
  }

  /** 25 minutes after the end: the same two sleeps, nothing changes. */
  method LongAfterGameScenario(services: seq<Service>, teams: seq<Team>, now: int)
    returns (sleeps: seq<int>, newTick: int, totalFlags: nat)
    requires DistinctServiceIds(services) && DistinctTeamIds(teams)
    ensures sleeps == [0, 60] && newTick == 479 && totalFlags == 0
  {
    var db := NewGame(services, teams, Some(now - 1465 * Minute), Some(now - 25 * Minute), 479);
    sleeps := MainLoopStep(db, false, now);
    newTick := db.control.value.currentTick;
    totalFlags := |db.flags|;
  }

  /** At the end, in nonstop mode: tick 480 begins as if the game went on. */
  method AfterGameNonstopScenario(services: seq<Service>, teams: seq<Team>, now: int)
    returns (sleeps: seq<int>, newTick: int, tickFlags: nat)
    requires DistinctServiceIds(services) && DistinctTeamIds(teams)
    ensures sleeps == [0] && newTick == 480 && tickFlags == |services| * |teams|
  {
    var db := NewGame(services, teams, Some(now - Day), Some(now), 479);
    sleeps := MainLoopStep(db, true, now);
    newTick := db.control.value.currentTick;
    assert db.flags == TickFlags(services, teams, 480, 1);
    TickFlagsPerTick(services, teams, 480, 1, 480);
    tickFlags := Count(db.flags, AtTick(480));
  }
}
