/** The tables of the game database and of the checker state database, as
    the checker and the controller see them. Instants and durations are whole
    seconds (UTC); a database NULL is `None`. */
module GameTables {

  datatype Option<+T> = None | Some(value: T)

  /** The two ways a database function fails: missing configuration rows
      (DBDataError) and a write attempted while changes are prohibited. */
  datatype DbError = DataError(message: string) | PermissionDenied

  datatype Result<+T> = Ok(value: T) | Err(error: DbError)

  newtype byte = x: int | 0 <= x < 256

  /** The single row of `scoring_gamecontrol`. */
  datatype GameControl = GameControl(
    start: Option<int>,
    end: Option<int>,
    validTicks: int,
    tickDuration: int,
    currentTick: int)

  /** A row of `scoring_service`; `slug` is its lookup key. */
  datatype Service = Service(id: int, slug: string, name: string)

  /** A row of `registration_team`: the team's user id and its network number. */
  datatype Team = Team(userId: int, netNumber: int)

  /** A row of `scoring_flag`: one check task for one (service, team, tick). */
  datatype Flag = Flag(
    id: int,
    serviceId: int,
    protectingTeamId: int,
    tick: int,
    placementStart: Option<int>,
    placementEnd: Option<int>)

  /** A row of `scoring_statuscheck`; `status` is the checker's numeric verdict. */
  datatype StatusCheck = StatusCheck(serviceId: int, teamId: int, tick: int, status: int, timestamp: int)

  /** The unique key of the `checkerstate` table. */
  datatype StateKey = StateKey(serviceId: int, teamNetNo: int, identifier: string)

  ghost predicate DistinctServiceIds(services: seq<Service>) {
    forall i, j :: 0 <= i < j < |services| ==> services[i].id != services[j].id
  }

  ghost predicate DistinctTeamIds(teams: seq<Team>) {
    forall i, j :: 0 <= i < j < |teams| ==> teams[i].userId != teams[j].userId
  }

  /** Whether a service with this id is configured. */
  predicate HasService(services: seq<Service>, serviceId: int) {
    exists i :: 0 <= i < |services| && services[i].id == serviceId
  }

  /** Whether a team with this user id is registered. */
  predicate HasTeam(teams: seq<Team>, teamId: int) {
    exists j :: 0 <= j < |teams| && teams[j].userId == teamId
  }

  /** Every flag id was drawn from the sequence before it reached `bound`. */
  ghost predicate FlagIdsBelow(flags: seq<Flag>, bound: int) {
    forall i :: 0 <= i < |flags| ==> flags[i].id < bound
  }

  /** The flag primary key: no two rows share an id. */
  ghost predicate FlagIdsUnique(flags: seq<Flag>) {
    forall i, j :: 0 <= i < j < |flags| ==> flags[i].id != flags[j].id
  }

  /** Ticks 0 to `tick` have `perTick` flags each and no other tick has any. */
  ghost predicate FannedOut(flags: seq<Flag>, tick: int, perTick: int) {
    forall t :: Count(flags, AtTick(t)) == if 0 <= t <= tick then perTick else 0
  }

  /** Ticks 0 to `tick` have `perService` flags for each configured service,
      and no other (service, tick) has any: what the task count relies on. */
  ghost predicate ServicesFannedOut(flags: seq<Flag>, tick: int, services: seq<Service>, perService: int) {
    forall s, t :: Count(flags, OfServiceAtTick(s, t)) ==
      if 0 <= t <= tick && HasService(services, s) then perService else 0
  }

  /** The game database. Every table the checker or the controller touches is
      a field; `nextFlagId` is the sequence behind the flag primary key. */
  class GameDatabase {
    var control: Option<GameControl>
    var services: seq<Service>
    var teams: seq<Team>
    var flags: seq<Flag>
    var statusChecks: seq<StatusCheck>
    var nextFlagId: int

    /** Primary keys are unique and flag ids come from the sequence. */
    ghost predicate Valid()
      reads this
    {
      && DistinctServiceIds(services)
      && DistinctTeamIds(teams)
      && FlagIdsBelow(flags, nextFlagId)
      && FlagIdsUnique(flags)
    }

    /** The fan-out invariant of the scheduler: every tick reached so far
        has one flag per (service, team) pair, so one flag per team for each
        configured service, and no flag belongs to a tick not reached yet
        (-1 means no tick has started). */
    ghost predicate EveryTickFannedOut()
      reads this
    {
      && control.Some?
      && control.value.currentTick >= -1
      && FannedOut(flags, control.value.currentTick, |services| * |teams|)
      && ServicesFannedOut(flags, control.value.currentTick, services, |teams|)
    }

    constructor (control: Option<GameControl>, services: seq<Service>, teams: seq<Team>)
      requires DistinctServiceIds(services) && DistinctTeamIds(teams)
      ensures Valid()
      ensures this.control == control && this.services == services && this.teams == teams
      ensures flags == [] && statusChecks == [] && nextFlagId == 1
    {
      this.control := control;
      this.services := services;
      this.teams := teams;
      flags := [];
      statusChecks := [];
      nextFlagId := 1;
    }
  }

  /** The checker state database: `checkerstate`, one blob per key. */
  class StateDatabase {
    var entries: map<StateKey, seq<byte>>

    constructor ()
      ensures entries == map[]
    {
      entries := map[];
    }
  }

  // Counting rows, as `SELECT COUNT(*) ... WHERE p` does.

  function Count(flags: seq<Flag>, p: Flag -> bool): (n: nat)
    ensures n <= |flags|
  {
    if flags == [] then 0
    else Count(flags[..|flags| - 1], p) + (if p(flags[|flags| - 1]) then 1 else 0)
  }

  function AtTick(tick: int): Flag -> bool {
    (f: Flag) => f.tick == tick
  }

  function OfService(serviceId: int): Flag -> bool {
    (f: Flag) => f.serviceId == serviceId
  }

  function OfTeam(teamId: int): Flag -> bool {
    (f: Flag) => f.protectingTeamId == teamId
  }

  function OfPair(serviceId: int, teamId: int): Flag -> bool {
    (f: Flag) => f.serviceId == serviceId && f.protectingTeamId == teamId
  }

  function OfServiceAtTick(serviceId: int, tick: int): Flag -> bool {
    (f: Flag) => f.serviceId == serviceId && f.tick == tick
  }

  /** The indices of the rows `p` selects: what COUNT(*) counts. */
  function Selected(flags: seq<Flag>, p: Flag -> bool): set<int> {
    set i | 0 <= i < |flags| && p(flags[i])
  }

  lemma {:induction false} CountIsSelectedSize(flags: seq<Flag>, p: Flag -> bool)
    ensures Count(flags, p) == |Selected(flags, p)|
  {
    if flags != [] {
      var n := |flags| - 1;
      CountIsSelectedSize(flags[..n], p);
      var before := Selected(flags[..n], p);
      assert Selected(flags, p) == before + (if p(flags[n]) then {n} else {}) by {
        forall i | i in Selected(flags, p)
          ensures i in before + (if p(flags[n]) then {n} else {})
        {
          if i < n { assert flags[..n][i] == flags[i]; }
        }
        forall i | i in before ensures i in Selected(flags, p) {
          assert flags[..n][i] == flags[i];
        }
      }
      assert n !in before;
    }
  }

  lemma {:induction false} CountAppend(a: seq<Flag>, b: seq<Flag>, p: Flag -> bool)
    ensures Count(a + b, p) == Count(a, p) + Count(b, p)
  {
    if b != [] {
      var n := |b| - 1;
      assert (a + b)[..|a + b| - 1] == a + b[..n];
      CountAppend(a, b[..n], p);
    } else {
      assert a + b == a;
    }
  }

  /** Rows that agree on what `p` looks at are counted alike. */
  lemma {:induction false} CountPointwise(a: seq<Flag>, b: seq<Flag>, p: Flag -> bool)
    requires |a| == |b|
    requires forall i :: 0 <= i < |a| ==> p(a[i]) == p(b[i])
    ensures Count(a, p) == Count(b, p)
  {
    if a != [] {
      var n := |a| - 1;
      CountPointwise(a[..n], b[..n], p);
    }
  }

  lemma {:induction false} CountAll(flags: seq<Flag>, p: Flag -> bool)
    requires forall i :: 0 <= i < |flags| ==> p(flags[i])
    ensures Count(flags, p) == |flags|
  {
    if flags != [] {
      CountAll(flags[..|flags| - 1], p);
    }
  }

  lemma {:induction false} CountNone(flags: seq<Flag>, p: Flag -> bool)
    requires forall i :: 0 <= i < |flags| ==> !p(flags[i])
    ensures Count(flags, p) == 0
  {
    if flags != [] {
      CountNone(flags[..|flags| - 1], p);
    }
  }

  /** A row `p` selects, flanked by rows it does not, counts once. */
  lemma CountSingleHit(before: seq<Flag>, x: Flag, after: seq<Flag>, p: Flag -> bool)
    requires forall i :: 0 <= i < |before| ==> !p(before[i])
    requires p(x)
    requires forall i :: 0 <= i < |after| ==> !p(after[i])
    ensures Count(before + [x] + after, p) == 1
  {
    CountNone(before, p);
    CountNone(after, p);
    assert Count([x], p) == 1 by {
      assert [x][..0] == [];
    }
    CountAppend(before, [x], p);
    CountAppend(before + [x], after, p);
  }
}
